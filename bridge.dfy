/** `main`: the start-up checks, the choice of an address, and the loop that
    turns each decoded key code into an HTTP POST on a fresh connection.

    What the outside world does is given as inputs: the result of each start-up
    call, the resolver's candidate list, and for every decoded code the outcome
    of that event's `socket`, `connect`, `send` and `recv` calls. */
module Bridge {
  import opened CStrings
  import opened KeyMap
  import opened Request
  import opened Transport

  datatype Option<T> = None | Some(value: T)

  /** The network as one event sees it. */
  datatype Net = Net(socketOk: bool, connectOk: bool,
                     send: (nat, nat) -> int, recv: (nat, nat) -> RecvReply)

  /** The `send` and `recv` oracles keep within what the system calls may return. */
  ghost predicate NetOk(net: Net)
  {
    (forall k: nat, n: nat :: SendReplyOk(net.send(k, n), n)) &&
    (forall k: nat, n: nat :: RecvReplyOk(net.recv(k, n), n))
  }

  /** One successful `lirc_nextcode`: the code it handed back (`None` for NULL)
      and what the network does if this event reaches the send branch. */
  datatype Event = Event(code: Option<string>, net: Net)

  /** What one pass of the loop did. */
  datatype Outcome =
    | NoCode      // a NULL code: the pass is skipped, buffers included
    | Skipped     // `valid_key` is still 0: nothing is sent
    | Aborted     // `socket` or `connect` failed: `main` returns -1
    | Posted(request: string,
             sendStatus: int, sent: nat, sendReplies: seq<int>,
             recvStatus: int, response: string, recvReplies: seq<RecvReply>)

  /** `valid_key` after a code: a handler's 1 when a token matched, else unchanged. */
  function NextValidKey(validKey: int, code: string): (key: int)
    ensures MapKey(code) != Unrecognized ==> key == 1
    ensures MapKey(code) == Unrecognized ==> key == validKey
  {
    if MapKey(code) != Unrecognized then HandleKey(MapKey(code)).status else validKey
  }

  /** The C string in the request buffer once the buffer has been zeroed and the
      handler chain has run: the handler's request, or nothing. */
  function Payload(code: string): (p: string)
    ensures |p| < MaxRequestLen && NUL !in p
    ensures p == [] <==> MapKey(code) == Unrecognized
  {
    var c := MapKey(code);
    if c != Unrecognized then
      RequestFits(c);
      HandleKey(c).request
    else []
  }

  /** `valid_key` after one event: a NULL code leaves it alone. */
  function KeyAfter(validKey: int, e: Event): int
  {
    match e.code
    case None => validKey
    case Some(c) => NextValidKey(validKey, c)
  }

  /** `valid_key` after a run of events, starting from its initial 0. */
  function KeyState(events: seq<Event>): (key: int)
    ensures key == 0 || key == 1
    decreases |events|
  {
    if events == [] then 0
    else
      KeyAfter(KeyState(events[..|events| - 1]), events[|events| - 1])
  }

  /** The event carries a code that contains one of the six tokens. */
  predicate Recognizes(e: Event)
  {
    e.code.Some? && MapKey(e.code.value) != Unrecognized
  }

  /** Some event so far carried a code that contains one of the six tokens. */
  predicate SomeKeyRecognized(events: seq<Event>)
  {
    exists i :: 0 <= i < |events| && Recognizes(events[i])
  }

  /** A key was recognised in a run exactly when it was recognised before the
      last event or by the last event. */
  lemma SomeKeyRecognizedStep(events: seq<Event>)
    requires events != []
    ensures SomeKeyRecognized(events) <==>
              SomeKeyRecognized(events[..|events| - 1]) || Recognizes(events[|events| - 1])
  {
    var before := events[..|events| - 1];
    if SomeKeyRecognized(before) {
      var i :| 0 <= i < |before| && Recognizes(before[i]);
      assert events[i] == before[i];
    }
    if SomeKeyRecognized(events) {
      var i :| 0 <= i < |events| && Recognizes(events[i]);
      if i < |before| {
        assert before[i] == events[i];
      }
    }
  }

  /** `valid_key` is 1 exactly when some earlier code was recognised: it is
      never reset. */
  lemma {:induction false} KeyStateSticky(events: seq<Event>)
    ensures KeyState(events) == 1 <==> SomeKeyRecognized(events)
    decreases |events|
  {
    if events != [] {
      KeyStateSticky(events[..|events| - 1]);
      SomeKeyRecognizedStep(events);
    }
  }

  /** Once any code has been recognised, an unrecognised code still takes the
      send branch, and what it sends is the empty, freshly zeroed request. */
  lemma UnrecognizedAfterRecognizedSendsEmpty(events: seq<Event>, code: string)
    requires SomeKeyRecognized(events)
    requires MapKey(code) == Unrecognized
    ensures NextValidKey(KeyState(events), code) == 1
    ensures Payload(code) == []
  {
    KeyStateSticky(events);
  }

  /** While no code has been recognised nothing is ever sent. */
  lemma NothingSentBeforeFirstKey(events: seq<Event>)
    requires !SomeKeyRecognized(events)
    ensures KeyState(events) == 0
  {
    KeyStateSticky(events);
  }

  /** A pass that reached `send_http_request` with `request`: the calls both
      loops made against the network, what `send_http_request` returned and
      how many bytes went, what `receive_http_response` returned and the bytes
      it collected. */
  predicate PostExplains(o: Outcome, request: string, net: Net)
    requires o.Posted?
  {
    o.request == request &&
    SendLoop(|request|, net.send, o.sendReplies) &&
    o.sent == Accepted(o.sendReplies) &&
    o.sent <= |request| &&
    (o.sendStatus == 0 || o.sendStatus == -1) &&
    (o.sendStatus == -1 <==> o.sendReplies[|o.sendReplies| - 1] == -1) &&
    (o.sendStatus == 0 ==> o.sent == |request|) &&
    RecvLoop(net.recv, o.recvReplies) &&
    o.response == Delivered(o.recvReplies) &&
    |o.response| <= MaxResponseLen &&
    (o.recvStatus == 0 || o.recvStatus == -1) &&
    (o.recvStatus == -1 <==> o.recvReplies[|o.recvReplies| - 1] == RecvFailed)
  }

  /** What one pass of the loop does, given `valid_key` before it: a NULL code
      skips it; otherwise, after the handler chain, nothing is sent while
      `valid_key` is 0, a failed `socket` or `connect` aborts, and a working
      connection carries the request buffer's string. */
  predicate Explains(o: Outcome, e: Event, keyBefore: int)
  {
    match e.code
    case None => o == NoCode
    case Some(c) =>
      var key := NextValidKey(keyBefore, c);
      var connected := e.net.socketOk && e.net.connectOk;
      (o.Skipped? <==> key == 0) &&
      (o.Aborted? <==> key != 0 && !connected) &&
      (o.Posted? <==> key != 0 && connected) &&
      (o.Posted? ==> PostExplains(o, Payload(c), e.net))
  }

  /** A pass has only one outcome: the event and `valid_key` before it decide
      every call the pass makes and everything it reports. */
  lemma ExplainsUnique(o1: Outcome, o2: Outcome, e: Event, keyBefore: int)
    requires Explains(o1, e, keyBefore) && Explains(o2, e, keyBefore)
    ensures o1 == o2
  {
    if o1.Posted? {
      PostUnique(o1, o2, Payload(e.code.value), e.net);
    }
  }

  /** Posting a given request over a given network has only one outcome. */
  lemma PostUnique(o1: Outcome, o2: Outcome, request: string, net: Net)
    requires o1.Posted? && o2.Posted?
    requires PostExplains(o1, request, net) && PostExplains(o2, request, net)
    ensures o1 == o2
  {
    SendLoopUnique(|request|, net.send, o1.sendReplies, o2.sendReplies);
    RecvLoopUnique(net.recv, o1.recvReplies, o2.recvReplies);
  }

  /** Every pass so far did what its contract promises, given `valid_key` as
      the passes before it left it. */
  predicate TraceExplains(trace: seq<Outcome>, events: seq<Event>)
  {
    |trace| <= |events| &&
    forall j :: 0 <= j < |trace| ==> Explains(trace[j], events[j], KeyState(events[..j]))
  }

  /** A pass whose outcome matches `valid_key` after the handler chain and the
      connection's success, and which, if it posted, posted the code's payload,
      keeps its contract. */
  lemma ExplainsPass(o: Outcome, code: string, net: Net, keyBefore: int)
    requires var key := NextValidKey(keyBefore, code);
             (o.Skipped? <==> key == 0) &&
             (o.Aborted? <==> key != 0 && !(net.socketOk && net.connectOk)) &&
             (o.Posted? <==> key != 0 && net.socketOk && net.connectOk)
    requires o.Posted? ==> PostExplains(o, Payload(code), net)
    ensures Explains(o, Event(Some(code), net), keyBefore)
  {
  }

  /** Two explained traces of the same events agree wherever both have a pass. */
  lemma TraceUnique(t1: seq<Outcome>, t2: seq<Outcome>, events: seq<Event>)
    requires TraceExplains(t1, events) && TraceExplains(t2, events)
    ensures forall j :: 0 <= j < |t1| && j < |t2| ==> t1[j] == t2[j]
  {
    forall j | 0 <= j < |t1| && j < |t2|
      ensures t1[j] == t2[j]
    {
      ExplainsUnique(t1[j], t2[j], events[j], KeyState(events[..j]));
    }
  }

  /** What the loop of `main` ends with: the passes it made, each as its event
      dictates; it stops with -1 right after the first aborted pass and
      otherwise with 0 once the codes run out. */
  predicate LoopResult(status: int, trace: seq<Outcome>, events: seq<Event>)
  {
    (status == 0 || status == -1) &&
    TraceExplains(trace, events) &&
    (status == 0 ==> |trace| == |events|) &&
    (forall i :: 0 <= i < |trace| - 1 ==> !trace[i].Aborted?) &&
    (status == -1 <==> trace != [] && trace[|trace| - 1].Aborted?)
  }

  /** The loop's status and passes are determined by the events. */
  lemma LoopResultUnique(s1: int, t1: seq<Outcome>, s2: int, t2: seq<Outcome>, events: seq<Event>)
    requires LoopResult(s1, t1, events) && LoopResult(s2, t2, events)
    ensures s1 == s2 && t1 == t2
  {
    TraceUnique(t1, t2, events);
    LoopNoLonger(s1, t1, s2, t2, events);
    LoopNoLonger(s2, t2, s1, t1, events);
    assert t1 == t2;
  }

  /** A loop result is never a proper prefix of another. */
  lemma LoopNoLonger(s1: int, t1: seq<Outcome>, s2: int, t2: seq<Outcome>, events: seq<Event>)
    requires LoopResult(s1, t1, events) && LoopResult(s2, t2, events)
    requires forall j :: 0 <= j < |t1| && j < |t2| ==> t1[j] == t2[j]
    ensures |t2| <= |t1|
  {
    if |t1| < |t2| {
      assert false;
    }
  }

  /** One more pass that keeps its contract extends an explained trace. */
  lemma TraceExtend(trace: seq<Outcome>, events: seq<Event>, o: Outcome)
    requires TraceExplains(trace, events) && |trace| < |events|
    requires Explains(o, events[|trace|], KeyState(events[..|trace|]))
    ensures TraceExplains(trace + [o], events)
  {
    var t := trace + [o];
    forall j | 0 <= j < |t|
      ensures Explains(t[j], events[j], KeyState(events[..j]))
    {
      if j < |trace| {
        assert t[j] == trace[j];
      }
    }
  }

  /** `valid_key` after one more event. */
  lemma KeyStateStep(events: seq<Event>, i: nat)
    requires i < |events|
    ensures KeyState(events[..i + 1]) == KeyAfter(KeyState(events[..i]), events[i])
  {
    assert events[..i + 1][..i] == events[..i];
  }

  /** `memset(buf, 0, sizeof buf)`. */
  method Clear(buf: array<char>)
    modifies buf
    ensures buf[..] == Zeros(buf.Length)
  {
    forall i | 0 <= i < buf.Length {
      buf[i] := NUL;
    }
  }

  /** What `sprintf` leaves in a buffer: the text, then its terminator; the rest
      of the buffer is untouched. */
  method WriteCString(buf: array<char>, s: string)
    requires |s| < buf.Length
    modifies buf
    ensures buf[..] == s + [NUL] + old(buf[|s| + 1..])
  {
    forall i | 0 <= i < |s| {
      buf[i] := s[i];
    }
    buf[|s|] := NUL;
  }

  /** The response buffer after a pass: the bytes received, then the zeros
      left by `memset`; all zeros when nothing was received. */
  predicate ResponseAfter(o: Outcome, buf: seq<char>)
  {
    if o.Posted? && |o.response| <= MaxResponseLen
    then buf == o.response + Zeros(MaxResponseLen - |o.response|)
    else buf == Zeros(MaxResponseLen)
  }

  /** The state `main` keeps across passes of its loop. */
  class Dispatcher {
    /** `http_request` and `http_response`. */
    const request: array<char>
    const response: array<char>
    /** `valid_key`. */
    var validKey: int

    ghost predicate Valid()
      reads this
    {
      request.Length == MaxRequestLen && response.Length == MaxResponseLen &&
      request != response && (validKey == 0 || validKey == 1)
    }

    constructor ()
      ensures Valid() && validKey == 0
      ensures fresh(request) && fresh(response)
    {
      request := new char[MaxRequestLen];
      response := new char[MaxResponseLen];
      validKey := 0;
    }

    /** The start of a pass: zero both buffers, then run the handler chain,
        which formats the request and sets `valid_key` when a token matches. */
    method Prepare(code: string)
      requires Valid()
      modifies this, request, response
      ensures Valid()
      ensures validKey == NextValidKey(old(validKey), code)
      ensures request[..] == Payload(code) + [NUL] + Zeros(MaxRequestLen - |Payload(code)| - 1)
      ensures response[..] == Zeros(MaxResponseLen)
    {
      Clear(request);
      Clear(response);
      var cmd := MapKey(code);
      if cmd != Unrecognized {
        var h := HandleKey(cmd);
        RequestFits(cmd);
        WriteCString(request, h.request);
        validKey := h.status;
      }
    }

    /** The send branch: open a connection (a failure ends `main`), send what
        the request buffer holds as a C string, and read the response. */
    method Transmit(net: Net) returns (o: Outcome)
      requires Valid() && NetOk(net) && validKey != 0
      requires response[..] == Zeros(MaxResponseLen)
      modifies response
      ensures o.Aborted? <==> !(net.socketOk && net.connectOk)
      ensures o.Aborted? || o.Posted?
      ensures o.Posted? ==> PostExplains(o, CStr(request[..]), net)
      ensures ResponseAfter(o, response[..])
    {
      if !net.socketOk {
        return Aborted;
      }
      if !net.connectOk {
        // the socket is closed, then `main` returns -1
        return Aborted;
      }
      var text := CStr(request[..]);
      var sendStatus, sent, sendReplies, _ := SendHttpRequest(text, net.send);
      var recvStatus, got, recvReplies := ReceiveHttpResponse(response, net.recv);
      o := Posted(text, sendStatus, sent, sendReplies, recvStatus, response[..got], recvReplies);
      assert response[..] == response[..got] + response[got..];
      assert response[got..] == Zeros(MaxResponseLen - got);
    }

    /** One pass of the loop for a non-NULL code. */
    method Dispatch(code: string, net: Net) returns (o: Outcome)
      requires Valid() && NetOk(net)
      modifies this, request, response
      ensures Valid()
      ensures validKey == NextValidKey(old(validKey), code)
      ensures request[..] == Payload(code) + [NUL] + Zeros(MaxRequestLen - |Payload(code)| - 1)
      ensures Explains(o, Event(Some(code), net), old(validKey))
      ensures ResponseAfter(o, response[..])
    {
      Prepare(code);
      if validKey == 0 {
        o := Skipped;
      } else {
        o := Transmit(net);
        CStrOfTerminated(Payload(code), Zeros(MaxRequestLen - |Payload(code)| - 1));
      }
      ExplainsPass(o, code, net, old(validKey));
    }

    /** One pass of the loop: a NULL code is skipped with the buffers left as
        they were; any other code is dispatched. */
    method Pass(e: Event) returns (o: Outcome)
      requires Valid() && NetOk(e.net)
      modifies this, request, response
      ensures Valid()
      ensures validKey == KeyAfter(old(validKey), e)
      ensures Explains(o, e, old(validKey))
      ensures e.code.None? ==> request[..] == old(request[..]) && response[..] == old(response[..])
    {
      if e.code.None? {
        o := NoCode;
      } else {
        o := Dispatch(e.code.value, e.net);
      }
    }

    /** The `while (lirc_nextcode(&code) == 0)` loop: a NULL code skips the pass;
        a failed `socket` or `connect` ends `main` with -1; otherwise the loop
        runs until the stream of codes ends, and `main` returns 0. */
    method Serve(events: seq<Event>) returns (status: int, trace: seq<Outcome>)
      requires Valid() && validKey == 0
      requires forall i :: 0 <= i < |events| ==> NetOk(events[i].net)
      modifies this, request, response
      ensures LoopResult(status, trace, events)
    {
      trace := [];
      var i := 0;
      while i < |events|
        invariant 0 <= i <= |events| && |trace| == i
        invariant Valid()
        invariant validKey == KeyState(events[..i])
        invariant TraceExplains(trace, events)
        invariant forall j :: 0 <= j < i ==> !trace[j].Aborted?
      {
        KeyStateStep(events, i);
        var o := Pass(events[i]);
        TraceExtend(trace, events, o);
        trace := trace + [o];
        if o.Aborted? {
          return -1, trace;
        }
        i := i + 1;
      }
      status := 0;
    }
  }

  /** The resolver's list holds a candidate on which `socket` and `connect` succeed. */
  predicate AnyUsable(list: AddrList)
  {
    exists j :: 0 <= j < |Elements(list)| && Usable(Elements(list)[j])
  }

  /** The start-up checks pass: at most one argument, `lirc_init` succeeds, and
      `getaddrinfo` yields a candidate on which `socket` and `connect` succeed. */
  predicate StartupOk(argc: int, lircInitOk: bool, resolved: Option<AddrList>)
  {
    argc <= 2 && lircInitOk && resolved.Some? && AnyUsable(resolved.value)
  }

  /** `main`. `resolved` is `None` when `getaddrinfo` fails; `events` are the codes
      `lirc_nextcode` hands back before it reports the end of the stream. The
      result is the exit status and what each pass of the loop did. */
  method Run(argc: int, lircInitOk: bool, resolved: Option<AddrList>, configOk: bool,
             events: seq<Event>)
    returns (status: int, trace: seq<Outcome>)
    requires forall i :: 0 <= i < |events| ==> NetOk(events[i].net)
    ensures !StartupOk(argc, lircInitOk, resolved) ==> status == -1 && trace == []
    ensures StartupOk(argc, lircInitOk, resolved) && !configOk ==> status == 0 && trace == []
    ensures StartupOk(argc, lircInitOk, resolved) && configOk ==> LoopResult(status, trace, events)
  {
    trace := [];
    if argc > 2 {
      return -1, [];
    }
    if !lircInitOk {
      return -1, [];
    }
    if resolved.None? {
      return -1, [];
    }
    var chosen, index, closed := SelectAddress(resolved.value);
    if chosen == Nil {
      return -1, [];
    }
    assert Usable(Elements(resolved.value)[index]);
    if !configOk {
      return 0, [];
    }
    var d := new Dispatcher();
    status, trace := d.Serve(events);
  }
}
