/** The six key handlers: each one `sprintf`s the fixed HTTP POST template with
    its command digit in place of `%s` and reports success with status 1. */
module Request {
  import opened CStrings
  import opened KeyMap

  /** `MAX_HTTP_REQUEST_LEN`: size of the request buffer, terminator included. */
  const MaxRequestLen: nat := 1024

  // The template's lines (each literal is cut into short pieces only so that
  // the verifier can look at their characters cheaply).
  const RequestLine: string := "POST /php/" + "httptest.php " + "HTTP/1.1\n"
  const HostLine: string := "Host: " + "team-nile-test" + ".webege.com\n"
  const ContentTypeLine: string := "Content-Type: " + "application/" + "x-www-form-" + "urlencoded\n"
  const ContentLengthLine: string := "Content-Length: " + "10\n"
  const BodyFormat: string := "function=%s\n"

  /** The length the template announces, whatever the body turns out to be. */
  const DeclaredContentLength: nat := 10

  /** `http_request_format`. */
  const RequestFormat: string :=
    RequestLine + HostLine + ContentTypeLine + ContentLengthLine + "\n" + BodyFormat

  /** The template's text before its `%s`, and after it. */
  const Head: string :=
    RequestLine + HostLine + ContentTypeLine + ContentLengthLine + "\n" + "function="
  const Tail: string := "\n"

  /** Result of a key handler: the string it wrote and the value it returned. */
  datatype Handled = Handled(request: string, status: int)

  /** Decimal text of a number, most significant digit first. */
  function Decimal(n: nat): (s: string)
    ensures |s| >= 1
    decreases n
  {
    if n < 10 then ['0' + n as char] else Decimal(n / 10) + ['0' + (n % 10) as char]
  }

  /** The format holds exactly one conversion, a `%s`, and no other `%`. */
  predicate SingleConversion(fmt: string)
    decreases |fmt|
  {
    |fmt| >= 2 &&
    if fmt[0] == '%' then fmt[1] == 's' && '%' !in fmt[2..] else SingleConversion(fmt[1..])
  }

  /** `sprintf(out, fmt, arg)` for a format whose one conversion is `%s`:
      the text around the conversion is copied and `arg` takes its place. */
  function Format(fmt: string, arg: string): (r: string)
    requires SingleConversion(fmt)
    ensures |r| == |fmt| - 2 + |arg|
    decreases |fmt|
  {
    if fmt[0] == '%' then arg + fmt[2..] else [fmt[0]] + Format(fmt[1..], arg)
  }

  /** Formatting `p%sq` yields `p`, the argument, then `q`. */
  lemma {:induction false} FormatSplit(p: string, q: string, arg: string)
    requires '%' !in p && '%' !in q
    ensures SingleConversion(p + "%s" + q)
    ensures Format(p + "%s" + q, arg) == p + arg + q
    decreases |p|
  {
    var fmt := p + "%s" + q;
    if p == [] {
      assert fmt == "%s" + q;
      assert fmt[2..] == q;
    } else {
      assert fmt[1..] == p[1..] + "%s" + q;
      FormatSplit(p[1..], q, arg);
      assert [p[0]] + (p[1..] + arg + q) == p + arg + q;
    }
  }

  // No header line of the template holds a `%` or a NUL.

  lemma RequestLineLacksPercent()
    ensures '%' !in RequestLine
  {
  }

  lemma RequestLineLacksNul()
    ensures NUL !in RequestLine
  {
  }

  lemma HostLineLacksPercent()
    ensures '%' !in HostLine
  {
  }

  lemma HostLineLacksNul()
    ensures NUL !in HostLine
  {
  }

  lemma ContentTypeLineLacksPercent()
    ensures '%' !in ContentTypeLine
  {
  }

  lemma ContentTypeLineLacksNul()
    ensures NUL !in ContentTypeLine
  {
  }

  lemma ContentLengthLineLacksPercent()
    ensures '%' !in ContentLengthLine
  {
  }

  lemma ContentLengthLineLacksNul()
    ensures NUL !in ContentLengthLine
  {
  }

  /** The template is the head, one `%s` and the tail, with no other `%`. */
  lemma FormatShape()
    ensures RequestFormat == Head + "%s" + Tail
    ensures '%' !in Head && '%' !in Tail
    ensures NUL !in Head && NUL !in Tail
  {
    assert BodyFormat == "function=" + "%s" + "\n";
    RequestLineLacksPercent();
    RequestLineLacksNul();
    HostLineLacksPercent();
    HostLineLacksNul();
    ContentTypeLineLacksPercent();
    ContentTypeLineLacksNul();
    ContentLengthLineLacksPercent();
    ContentLengthLineLacksNul();
  }

  /** `handle_key_*`: format the template with the command's digit and return 1. */
  function HandleKey(c: Command): (h: Handled)
    requires c != Unrecognized
    ensures h.status == 1
    ensures h.request == Head + [Digit(c)] + Tail
  {
    FormatShape();
    FormatSplit(Head, Tail, [Digit(c)]);
    Handled(Format(RequestFormat, [Digit(c)]), 1)
  }

  /** The body the handler writes after the blank line ending the headers. */
  function Body(c: Command): string
  {
    "function=" + [Digit(c)] + "\n"
  }

  /** The header announces 10 bytes: exactly `function=<d>`, leaving the body's
      trailing newline (its eleventh byte) outside the announced length. */
  lemma ContentLengthCoversBodyWithoutNewline(c: Command)
    requires c != Unrecognized
    ensures ContentLengthLine == "Content-Length: " + Decimal(DeclaredContentLength) + "\n"
    ensures HandleKey(c).request ==
              RequestLine + HostLine + ContentTypeLine + ContentLengthLine + "\n" + Body(c)
    ensures |Body(c)| == DeclaredContentLength + 1
    ensures Body(c)[..DeclaredContentLength] == "function=" + [Digit(c)]
    ensures Body(c)[DeclaredContentLength] == '\n'
  {
    assert Decimal(10) == Decimal(1) + ['0'];
  }

  /** The formatted request and its terminator fit the 1024-byte buffer, and it
      holds no NUL, so `strlen` of the buffer is the whole request. */
  lemma RequestFits(c: Command)
    requires c != Unrecognized
    ensures |HandleKey(c).request| + 1 <= MaxRequestLen
    ensures NUL !in HandleKey(c).request
  {
    FormatShape();
    var r := HandleKey(c).request;
    assert NUL !in r by {
      forall i | 0 <= i < |r| ensures r[i] != NUL {
        if i < |Head| { assert r[i] == Head[i]; }
        else if i == |Head| { assert r[i] == Digit(c); }
        else { assert r[i] == Tail[i - |Head| - 1]; }
      }
    }
  }

  /** Every handler writes the same text except at the digit's position, and
      different commands give different requests. */
  lemma RequestsDifferOnlyInDigit(c1: Command, c2: Command)
    requires c1 != Unrecognized && c2 != Unrecognized
    ensures |HandleKey(c1).request| == |HandleKey(c2).request| == |Head| + 2
    ensures forall i :: 0 <= i < |Head| + 2 && i != |Head| ==>
              HandleKey(c1).request[i] == HandleKey(c2).request[i]
    ensures HandleKey(c1).request[|Head|] == Digit(c1)
    ensures HandleKey(c1).request == HandleKey(c2).request <==> c1 == c2
  {
    var r1, r2 := HandleKey(c1).request, HandleKey(c2).request;
    if r1 == r2 {
      assert r1[|Head|] == r2[|Head|];
    }
  }
}
