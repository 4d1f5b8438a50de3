/** The chain of `strstr` tests in the dispatch loop that turns a decoded
    remote-control code into one of six commands. */
module KeyMap {
  import opened CStrings

  datatype Command = Power | Stop | Pause | Play | Rewind | Forward | Unrecognized

  /** The recognised commands, in the order the chain tests them. */
  const Recognized: seq<Command> := [Power, Stop, Pause, Play, Rewind, Forward]

  /** The LIRC key name each recognised command is matched by. */
  function Token(c: Command): string
  {
    match c
    case Power => "KEY_POWER"
    case Stop => "KEY_STOP"
    case Pause => "KEY_PAUSE"
    case Play => "KEY_PLAY"
    case Rewind => "KEY_REWIND"
    case Forward => "KEY_FORWARD"
    case Unrecognized => ""
  }

  /** Position of a command in the test order (`Unrecognized` comes after all). */
  function Rank(c: Command): (n: nat)
    ensures n <= 6
    ensures n < 6 <==> c != Unrecognized
  {
    match c
    case Power => 0
    case Stop => 1
    case Pause => 2
    case Play => 3
    case Rewind => 4
    case Forward => 5
    case Unrecognized => 6
  }

  /** The digit the command's handler formats into the request body. */
  function Digit(c: Command): char
  {
    match c
    case Power => '1'
    case Stop => '2'
    case Pause => '3'
    case Play => '4'
    case Rewind => '5'
    case Forward => '6'
    case Unrecognized => '0'
  }

  /** The if/else-if chain: the first token contained in `code` wins. */
  function MapKey(code: string): (c: Command)
    ensures c != Unrecognized ==> Occurs(code, Token(c))
    ensures forall d :: Rank(d) < Rank(c) ==> !Occurs(code, Token(d))
  {
    if Occurs(code, "KEY_POWER") then Power
    else if Occurs(code, "KEY_STOP") then Stop
    else if Occurs(code, "KEY_PAUSE") then Pause
    else if Occurs(code, "KEY_PLAY") then Play
    else if Occurs(code, "KEY_REWIND") then Rewind
    else if Occurs(code, "KEY_FORWARD") then Forward
    else Unrecognized
  }

  /** Reference definition: walk an ordered token list, first containment wins. */
  function FirstMatch(code: string, order: seq<Command>): (c: Command)
    decreases |order|
  {
    if order == [] then Unrecognized
    else if Occurs(code, Token(order[0])) then order[0]
    else FirstMatch(code, order[1..])
  }

  /** The chain is the first-match walk over the six tokens in their fixed order. */
  lemma MapKeyIsFirstMatch(code: string)
    ensures MapKey(code) == FirstMatch(code, Recognized)
  {
    var r := Recognized;
    assert r[1..] == [Stop, Pause, Play, Rewind, Forward];
    assert r[1..][1..] == [Pause, Play, Rewind, Forward];
    assert r[1..][1..][1..] == [Play, Rewind, Forward];
    assert r[1..][1..][1..][1..] == [Rewind, Forward];
    assert r[1..][1..][1..][1..][1..] == [Forward];
  }

  /** A code is unrecognised exactly when it contains none of the six tokens. */
  lemma UnrecognizedIff(code: string)
    ensures MapKey(code) == Unrecognized <==>
              forall d :: d != Unrecognized ==> !Occurs(code, Token(d))
  {
  }

  /** A code maps to `c` exactly when it contains `c`'s token and no earlier one. */
  lemma MapKeyIff(code: string, c: Command)
    requires c != Unrecognized
    ensures MapKey(code) == c <==>
              Occurs(code, Token(c)) && forall d :: Rank(d) < Rank(c) ==> !Occurs(code, Token(d))
  {
    var m := MapKey(code);
    if Occurs(code, Token(c)) && forall d :: Rank(d) < Rank(c) ==> !Occurs(code, Token(d)) {
      assert Rank(m) == Rank(c);
    }
  }

  /** Each token on its own maps to its own command: no token contains an earlier one. */
  lemma {:induction false} TokenMapsToItself(c: Command)
    requires c != Unrecognized
    ensures MapKey(Token(c)) == c
  {
    OccursSelf(Token(c));
    OnlyLeadingK(c);
    var t := Token(c);
    match c
    case Power =>
    case Stop =>
      NeverOccursWithin(t, "KEY_POWER", 4);
    case Pause =>
      NeverOccursWithin(t, "KEY_POWER", 5);
      NeverOccursWithin(t, "KEY_STOP", 4);
    case Play =>
      NeverOccursWithin(t, "KEY_POWER", 5);
      NeverOccursWithin(t, "KEY_STOP", 4);
      NeverOccursWithin(t, "KEY_PAUSE", 5);
    case Rewind =>
      NeverOccursWithin(t, "KEY_POWER", 4);
      NeverOccursWithin(t, "KEY_STOP", 4);
      NeverOccursWithin(t, "KEY_PAUSE", 4);
      NeverOccursWithin(t, "KEY_PLAY", 4);
    case Forward =>
      NeverOccursWithin(t, "KEY_POWER", 4);
      NeverOccursWithin(t, "KEY_STOP", 4);
      NeverOccursWithin(t, "KEY_PAUSE", 4);
      NeverOccursWithin(t, "KEY_PLAY", 4);
      NeverOccursWithin(t, "KEY_REWIND", 4);
  }

  /** A key name's only 'K' is its first character. */
  lemma OnlyLeadingK(c: Command)
    requires c != Unrecognized
    ensures Token(c)[0] == 'K'
    ensures forall i :: 1 <= i < |Token(c)| ==> Token(c)[i] != 'K'
  {
  }

  /** A needle starting with 'K' that disagrees with `hay` at position `k` cannot
      occur in a key name whose only 'K' is its first character. */
  lemma NeverOccursWithin(hay: string, needle: string, k: nat)
    requires k < |needle| && k < |hay| && needle[k] != hay[k]
    requires needle[0] == 'K'
    requires forall i :: 1 <= i < |hay| ==> hay[i] != 'K'
    ensures !Occurs(hay, needle)
  {
    OccursIff(hay, needle);
    assert !OccursAt(hay, needle, 0);
  }
}
