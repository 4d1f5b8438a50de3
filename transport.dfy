/** The socket side of the bridge: the loop that pushes a request out with
    repeated `send` calls, the loop that reads a response with repeated `recv`
    calls, and the walk over the resolver's candidate addresses.

    The system calls are oracles. A `send` oracle maps (call number, bytes asked
    to send) to the value the call returns; a `recv` oracle maps (call number,
    room left in the buffer) to what the call delivers. */
module Transport {

  /** `MAX_HTTP_RESPONSE_LEN`: size of the response buffer. */
  const MaxResponseLen: nat := 4096

  // ----- send_http_request -----

  /** What a blocking `send` of `n` bytes may return: -1 on error, otherwise the
      number of bytes taken, at least one unless nothing was asked for. */
  predicate SendReplyOk(v: int, n: nat)
  {
    v == -1 || (0 <= v <= n && (v == 0 ==> n == 0))
  }

  /** Bytes taken by the calls that did not fail. */
  function Accepted(replies: seq<int>): int
    decreases |replies|
  {
    if replies == [] then 0
    else
      var last := replies[|replies| - 1];
      Accepted(replies[..|replies| - 1]) + (if last == -1 then 0 else last)
  }

  /** Each reply is what `send` returned when asked for the bytes not yet taken
      by the replies before it. */
  predicate SendsFollow(len: nat, send: (nat, nat) -> int, replies: seq<int>)
    decreases |replies|
  {
    replies == [] ||
    var before := replies[..|replies| - 1];
    SendsFollow(len, send, before) &&
    0 <= Accepted(before) <= len &&
    replies[|replies| - 1] == send(|replies| - 1, len - Accepted(before))
  }

  /** One more call, asked for the bytes not yet taken, extends the replies. */
  lemma SendStep(len: nat, send: (nat, nat) -> int, replies: seq<int>, v: int)
    requires SendsFollow(len, send, replies) && 0 <= Accepted(replies) <= len
    requires v == send(|replies|, len - Accepted(replies))
    ensures SendsFollow(len, send, replies + [v])
    ensures Accepted(replies + [v]) == Accepted(replies) + (if v == -1 then 0 else v)
  {
    assert (replies + [v])[..|replies|] == replies;
  }

  /** The replies are exactly the calls the send loop makes on a request of
      `len` bytes: each asks for the bytes not yet taken; every call but the last
      took at least one byte and left some unsent; the last failed or finished. */
  predicate SendLoop(len: nat, send: (nat, nat) -> int, replies: seq<int>)
  {
    |replies| >= 1 && SendsFollow(len, send, replies) &&
    (forall k :: 0 <= k < |replies| - 1 ==> replies[k] >= 1) &&
    (|replies| > 1 ==> Accepted(replies[..|replies| - 1]) < len) &&
    (replies[|replies| - 1] == -1 || Accepted(replies) == len)
  }

  /** The state of the send loop between calls: the calls so far follow, each
      took at least one byte, and bytes are still unsent if any call was made. */
  predicate SendProgress(len: nat, send: (nat, nat) -> int, replies: seq<int>)
  {
    SendsFollow(len, send, replies) && 0 <= Accepted(replies) <= len &&
    (forall k :: 0 <= k < |replies| ==> replies[k] >= 1) &&
    (replies != [] ==> Accepted(replies) < len)
  }

  /** One more call either keeps the loop going or ends a run of it. */
  lemma SendLoopStep(len: nat, send: (nat, nat) -> int, replies: seq<int>, v: int)
    requires SendProgress(len, send, replies)
    requires v == send(|replies|, len - Accepted(replies))
    requires SendReplyOk(v, len - Accepted(replies))
    ensures Accepted(replies + [v]) == Accepted(replies) + (if v == -1 then 0 else v)
    ensures v != -1 ==> 0 <= v <= len - Accepted(replies)
    ensures v != -1 && Accepted(replies + [v]) < len ==> v >= 1 && SendProgress(len, send, replies + [v])
    ensures v == -1 || Accepted(replies + [v]) >= len ==> SendLoop(len, send, replies + [v])
  {
    SendStep(len, send, replies, v);
    assert (replies + [v])[..|replies|] == replies;
  }

  /** `send_http_request`: calls `send` on the unsent rest of `request` until all
      of it has gone or a call returns -1. `replies` are the values the calls
      returned, in order; `wire` the bytes they took, in order. */
  method SendHttpRequest(request: string, send: (nat, nat) -> int)
    returns (status: int, total: nat, replies: seq<int>, wire: string)
    requires forall k: nat, n: nat :: SendReplyOk(send(k, n), n)
    ensures |replies| <= |request| + 1
    ensures |request| == 0 ==> |replies| == 1
    ensures SendLoop(|request|, send, replies)
    ensures status == 0 || status == -1
    ensures status == -1 <==> replies[|replies| - 1] == -1
    ensures total == Accepted(replies) <= |request|
    ensures wire == request[..total]
    ensures status == 0 ==> total == |request| && wire == request
  {
    total, replies, wire := 0, [], [];
    var bytesSent := 0;
    while true
      invariant SendProgress(|request|, send, replies)
      invariant total == Accepted(replies)
      invariant wire == request[..total]
      decreases |request| - total
    {
      bytesSent := send(|replies|, |request| - total);
      SendLoopStep(|request|, send, replies, bytesSent);
      replies := replies + [bytesSent];
      if bytesSent == -1 {
        status := -1;
        break;
      }
      assert request[..total] + request[total..total + bytesSent] == request[..total + bytesSent];
      wire := wire + request[total..total + bytesSent];
      total := total + bytesSent;
      if total >= |request| {
        assert wire == request;
        status := 0;
        break;
      }
    }
    SendLoopBounds(|request|, send, replies);
  }

  /** Calls that each took at least one byte took at least one byte per call. */
  lemma {:induction false} AcceptedAtLeast(replies: seq<int>)
    requires forall k :: 0 <= k < |replies| ==> replies[k] >= 1
    ensures Accepted(replies) >= |replies|
    decreases |replies|
  {
    if replies != [] {
      AcceptedAtLeast(replies[..|replies| - 1]);
    }
  }

  /** The send loop makes at most one call per byte, plus one; an empty
      request takes exactly one call. */
  lemma SendLoopBounds(len: nat, send: (nat, nat) -> int, replies: seq<int>)
    requires SendLoop(len, send, replies)
    ensures |replies| <= len + 1
    ensures len == 0 ==> |replies| == 1
  {
    if |replies| > 1 {
      AcceptedAtLeast(replies[..|replies| - 1]);
    }
  }

  /** Reply `k` is what `send` returned when asked for the bytes the replies
      before it had not yet taken. */
  lemma {:induction false} SendsFollowAt(len: nat, send: (nat, nat) -> int, replies: seq<int>, k: nat)
    requires SendsFollow(len, send, replies) && k < |replies|
    ensures 0 <= Accepted(replies[..k]) <= len
    ensures replies[k] == send(k, len - Accepted(replies[..k]))
    decreases |replies|
  {
    var before := replies[..|replies| - 1];
    if k == |replies| - 1 {
      assert before == replies[..k];
    } else {
      SendsFollowAt(len, send, before, k);
      assert before[..k] == replies[..k];
    }
  }

  /** Further replies that took bytes never lower the count taken. */
  lemma {:induction false} AcceptedGrows(replies: seq<int>, k: nat)
    requires k <= |replies|
    requires forall j :: k <= j < |replies| ==> replies[j] >= 0
    ensures Accepted(replies[..k]) <= Accepted(replies)
    decreases |replies|
  {
    if k < |replies| {
      var before := replies[..|replies| - 1];
      AcceptedGrows(before, k);
      assert before[..k] == replies[..k];
    } else {
      assert replies[..k] == replies;
    }
  }

  /** Two runs against the same `send` agree on their first `k` replies. */
  lemma {:induction false} SendPrefixAgree(len: nat, send: (nat, nat) -> int, r1: seq<int>, r2: seq<int>, k: nat)
    requires SendsFollow(len, send, r1) && SendsFollow(len, send, r2)
    requires k <= |r1| && k <= |r2|
    ensures r1[..k] == r2[..k]
    decreases k
  {
    if k > 0 {
      SendPrefixAgree(len, send, r1, r2, k - 1);
      SendsFollowAt(len, send, r1, k - 1);
      SendsFollowAt(len, send, r2, k - 1);
      assert r1[..k] == r1[..k - 1] + [r1[k - 1]];
      assert r2[..k] == r2[..k - 1] + [r2[k - 1]];
    }
  }

  /** The send loop's calls are determined by `send` and the request length:
      two runs against the same `send` make the same calls. */
  lemma SendLoopUnique(len: nat, send: (nat, nat) -> int, r1: seq<int>, r2: seq<int>)
    requires SendLoop(len, send, r1) && SendLoop(len, send, r2)
    ensures r1 == r2
  {
    SendLoopNoLonger(len, send, r1, r2);
    SendLoopNoLonger(len, send, r2, r1);
    SendPrefixAgree(len, send, r1, r2, |r1|);
    assert r1 == r1[..|r1|] && r2 == r2[..|r2|];
  }

  /** A run is never a proper prefix of another: once the loop stops it stops. */
  lemma SendLoopNoLonger(len: nat, send: (nat, nat) -> int, short: seq<int>, long: seq<int>)
    requires SendLoop(len, send, short) && SendLoop(len, send, long)
    ensures |long| <= |short|
  {
    var n := |short|;
    if n < |long| {
      SendPrefixAgree(len, send, short, long, n);
      assert short == long[..n];
      assert short[n - 1] == long[n - 1] >= 1;
      var body := long[..|long| - 1];
      assert body[..n] == short;
      AcceptedGrows(body, n);
      assert false;
    }
  }

  // ----- receive_http_response -----

  /** What one `recv` call delivers: some bytes (none when the peer has closed
      the connection, so the call returns 0) or an error (the call returns -1). */
  datatype RecvReply = Received(data: string) | RecvFailed

  /** The value `recv` returns for a reply. */
  function RecvReturn(r: RecvReply): int
  {
    match r
    case Received(d) => |d|
    case RecvFailed => -1
  }

  /** A `recv` asked for at most `n` bytes delivers at most `n`. */
  predicate RecvReplyOk(r: RecvReply, n: nat)
  {
    r.Received? ==> |r.data| <= n
  }

  /** The bytes the replies delivered, in order. */
  function Delivered(replies: seq<RecvReply>): string
    decreases |replies|
  {
    if replies == [] then []
    else
      var last := replies[|replies| - 1];
      Delivered(replies[..|replies| - 1]) + (if last.Received? then last.data else [])
  }

  /** Each reply is what `recv` delivered when given the room the replies before
      it had left in the buffer. */
  predicate RecvsFollow(recv: (nat, nat) -> RecvReply, replies: seq<RecvReply>)
    decreases |replies|
  {
    replies == [] ||
    var before := replies[..|replies| - 1];
    RecvsFollow(recv, before) &&
    |Delivered(before)| <= MaxResponseLen &&
    replies[|replies| - 1] == recv(|replies| - 1, MaxResponseLen - |Delivered(before)|)
  }

  /** The replies are exactly the calls the receive loop makes: each is given
      the room left; every call but the last delivered bytes and left room; the
      last closed, failed, or filled the buffer. */
  predicate RecvLoop(recv: (nat, nat) -> RecvReply, replies: seq<RecvReply>)
  {
    |replies| >= 1 && RecvsFollow(recv, replies) &&
    (forall k :: 0 <= k < |replies| - 1 ==> RecvReturn(replies[k]) > 0) &&
    (|replies| > 1 ==> |Delivered(replies[..|replies| - 1])| < MaxResponseLen) &&
    (RecvReturn(replies[|replies| - 1]) <= 0 || |Delivered(replies)| == MaxResponseLen)
  }

  /** Reply `k` is what `recv` delivered when given the room the replies
      before it had left. */
  lemma {:induction false} RecvsFollowAt(recv: (nat, nat) -> RecvReply, replies: seq<RecvReply>, k: nat)
    requires RecvsFollow(recv, replies) && k < |replies|
    ensures |Delivered(replies[..k])| <= MaxResponseLen
    ensures replies[k] == recv(k, MaxResponseLen - |Delivered(replies[..k])|)
    decreases |replies|
  {
    var before := replies[..|replies| - 1];
    if k == |replies| - 1 {
      assert before == replies[..k];
    } else {
      RecvsFollowAt(recv, before, k);
      assert before[..k] == replies[..k];
    }
  }

  /** Further replies never shorten what was delivered. */
  lemma {:induction false} DeliveredGrows(replies: seq<RecvReply>, k: nat)
    requires k <= |replies|
    ensures |Delivered(replies[..k])| <= |Delivered(replies)|
    decreases |replies|
  {
    if k < |replies| {
      var before := replies[..|replies| - 1];
      DeliveredGrows(before, k);
      assert before[..k] == replies[..k];
    } else {
      assert replies[..k] == replies;
    }
  }

  /** Two runs against the same `recv` agree on their first `k` replies. */
  lemma {:induction false} RecvPrefixAgree(recv: (nat, nat) -> RecvReply,
                                           r1: seq<RecvReply>, r2: seq<RecvReply>, k: nat)
    requires RecvsFollow(recv, r1) && RecvsFollow(recv, r2)
    requires k <= |r1| && k <= |r2|
    ensures r1[..k] == r2[..k]
    decreases k
  {
    if k > 0 {
      RecvPrefixAgree(recv, r1, r2, k - 1);
      RecvsFollowAt(recv, r1, k - 1);
      RecvsFollowAt(recv, r2, k - 1);
      assert r1[..k] == r1[..k - 1] + [r1[k - 1]];
      assert r2[..k] == r2[..k - 1] + [r2[k - 1]];
    }
  }

  /** The receive loop's calls are determined by `recv`: two runs against the
      same `recv` make the same calls. */
  lemma RecvLoopUnique(recv: (nat, nat) -> RecvReply, r1: seq<RecvReply>, r2: seq<RecvReply>)
    requires RecvLoop(recv, r1) && RecvLoop(recv, r2)
    ensures r1 == r2
  {
    RecvLoopNoLonger(recv, r1, r2);
    RecvLoopNoLonger(recv, r2, r1);
    RecvPrefixAgree(recv, r1, r2, |r1|);
    assert r1 == r1[..|r1|] && r2 == r2[..|r2|];
  }

  /** A run is never a proper prefix of another: once the loop stops it stops. */
  lemma RecvLoopNoLonger(recv: (nat, nat) -> RecvReply, short: seq<RecvReply>, long: seq<RecvReply>)
    requires RecvLoop(recv, short) && RecvLoop(recv, long)
    ensures |long| <= |short|
  {
    var n := |short|;
    if n < |long| {
      RecvPrefixAgree(recv, short, long, n);
      assert short == long[..n];
      assert RecvReturn(short[n - 1]) == RecvReturn(long[n - 1]) > 0;
      var body := long[..|long| - 1];
      assert body[..n] == short;
      DeliveredGrows(body, n);
      assert false;
    }
  }

  /** The state of the receive loop between calls: the calls so far follow,
      each delivered bytes, and room is left. */
  predicate RecvProgress(recv: (nat, nat) -> RecvReply, replies: seq<RecvReply>)
  {
    RecvsFollow(recv, replies) && |Delivered(replies)| < MaxResponseLen &&
    forall k :: 0 <= k < |replies| ==> RecvReturn(replies[k]) > 0
  }

  /** One more call either keeps the loop going or ends a run of it. */
  lemma RecvLoopStep(recv: (nat, nat) -> RecvReply, replies: seq<RecvReply>, r: RecvReply)
    requires RecvProgress(recv, replies)
    requires r == recv(|replies|, MaxResponseLen - |Delivered(replies)|)
    requires RecvReplyOk(r, MaxResponseLen - |Delivered(replies)|)
    ensures Delivered(replies + [r]) == Delivered(replies) + (if r.Received? then r.data else [])
    ensures RecvReturn(r) > 0 && |Delivered(replies + [r])| < MaxResponseLen ==>
              RecvProgress(recv, replies + [r])
    ensures RecvReturn(r) <= 0 || |Delivered(replies + [r])| >= MaxResponseLen ==>
              RecvLoop(recv, replies + [r])
  {
    assert (replies + [r])[..|replies|] == replies;
  }

  /** What `recv` does to the buffer: `chunk` is written at offset `at`, and
      nothing before or after it changes. */
  method LayDown(buf: array<char>, at: nat, chunk: string)
    requires at + |chunk| <= buf.Length
    modifies buf
    ensures buf[..at + |chunk|] == old(buf[..at]) + chunk
    ensures forall i :: at + |chunk| <= i < buf.Length ==> buf[i] == old(buf[i])
  {
    forall j | 0 <= j < |chunk| {
      buf[at + j] := chunk[j];
    }
    assert buf[..at + |chunk|] == old(buf[..at]) + chunk by {
      forall i | 0 <= i < at + |chunk|
        ensures buf[..at + |chunk|][i] == (old(buf[..at]) + chunk)[i]
      {
      }
    }
  }

  /** `receive_http_response`: calls `recv` into the rest of the buffer until the
      buffer is full, the peer closes or a call fails. The chunks are laid down
      one after the other from offset 0; the rest of the buffer is untouched. */
  method ReceiveHttpResponse(response: array<char>, recv: (nat, nat) -> RecvReply)
    returns (status: int, total: nat, replies: seq<RecvReply>)
    requires response.Length == MaxResponseLen
    requires forall k: nat, n: nat :: RecvReplyOk(recv(k, n), n)
    modifies response
    ensures RecvLoop(recv, replies)
    ensures total == |Delivered(replies)| <= MaxResponseLen
    ensures response[..total] == Delivered(replies)
    ensures forall i :: total <= i < MaxResponseLen ==> response[i] == old(response[i])
    ensures status == 0 || status == -1
    ensures status == -1 <==> replies[|replies| - 1] == RecvFailed
  {
    total, replies := 0, [];
    var reply := RecvFailed;
    while true
      invariant RecvProgress(recv, replies)
      invariant total == |Delivered(replies)|
      invariant response[..total] == Delivered(replies)
      invariant forall i :: total <= i < MaxResponseLen ==> response[i] == old(response[i])
      decreases MaxResponseLen - total
    {
      reply := recv(|replies|, MaxResponseLen - total);
      RecvLoopStep(recv, replies, reply);
      replies := replies + [reply];
      if RecvReturn(reply) <= 0 {
        status := if reply == RecvFailed then -1 else 0;
        break;
      }
      var chunk := reply.data;
      LayDown(response, total, chunk);
      total := total + |chunk|;
      if total >= MaxResponseLen {
        status := 0;
        break;
      }
    }
  }

  // ----- choosing an address -----

  /** One entry of the resolver's list: whether `socket` and `connect` succeed on it. */
  datatype Candidate = Candidate(socketOk: bool, connectOk: bool)

  /** The resolver's linked list of candidates. */
  datatype AddrList = Nil | Node(info: Candidate, next: AddrList)

  function Elements(list: AddrList): seq<Candidate>
    decreases list
  {
    match list
    case Nil => []
    case Node(c, rest) => [c] + Elements(rest)
  }

  /** The list from its `i`-th node on. */
  function Drop(list: AddrList, i: nat): (rest: AddrList)
    ensures i <= |Elements(list)| ==> Elements(rest) == Elements(list)[i..]
    decreases list
  {
    if i == 0 then list
    else match list
      case Nil => Nil
      case Node(_, next) => Drop(next, i - 1)
  }

  /** One step further along the list is the next node. */
  lemma {:induction false} DropNext(list: AddrList, i: nat)
    requires Drop(list, i).Node?
    ensures Drop(list, i + 1) == Drop(list, i).next
    decreases list
  {
    if i > 0 {
      DropNext(list.next, i - 1);
    }
  }

  /** A candidate on which both `socket` and `connect` succeed. */
  predicate Usable(c: Candidate)
  {
    c.socketOk && c.connectOk
  }

  /** The walk over the candidates: the first one on which both calls succeed is
      kept; a socket whose connect failed is closed before going on. `chosen` is
      the node the walk stopped at (`Nil` when every candidate failed), `index` its
      position, and `closed` the positions whose socket was closed, in order. */
  method SelectAddress(list: AddrList) returns (chosen: AddrList, index: nat, closed: seq<nat>)
    ensures index <= |Elements(list)|
    ensures chosen == Drop(list, index)
    ensures chosen == Nil <==> index == |Elements(list)|
    ensures chosen.Node? ==> Usable(chosen.info)
    ensures forall j :: 0 <= j < index ==> !Usable(Elements(list)[j])
    ensures forall j :: j in closed <==>
              0 <= j < index && Elements(list)[j].socketOk && !Elements(list)[j].connectOk
    ensures forall a, b :: 0 <= a < b < |closed| ==> closed[a] < closed[b]
  {
    chosen, index, closed := list, 0, [];
    while chosen != Nil
      invariant index <= |Elements(list)|
      invariant chosen == Drop(list, index)
      invariant forall j :: 0 <= j < index ==> !Usable(Elements(list)[j])
      invariant forall j :: j in closed <==>
                  0 <= j < index && Elements(list)[j].socketOk && !Elements(list)[j].connectOk
      invariant forall a :: 0 <= a < |closed| ==> closed[a] < index
      invariant forall a, b :: 0 <= a < b < |closed| ==> closed[a] < closed[b]
      decreases chosen
    {
      assert Elements(list)[index] == chosen.info;
      DropNext(list, index);
      if !chosen.info.socketOk {
        chosen, index := chosen.next, index + 1;
        continue;
      }
      if !chosen.info.connectOk {
        closed := closed + [index];
        chosen, index := chosen.next, index + 1;
        continue;
      }
      break;
    }
  }
}
