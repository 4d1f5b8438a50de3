# IR remote to HTTP bridge — a Dafny model of `test_ir_remote.c`

`test_ir_remote.c` waits for decoded infrared key codes from LIRC. It maps six
button names to a command digit and formats a fixed HTTP POST template with that
digit. It then sends the request over a new TCP connection and reads the reply.
This project models the sequential logic of that program and proves what it does:

- `cstrings.dfy` (module `CStrings`): `strstr` as a left-to-right scan, `strlen`
  on a zero-filled buffer, and the `concat` helper with its exit on a failed
  allocation.
- `keymap.dfy` (module `KeyMap`): the `strstr` chain in `main`. It tests
  `KEY_POWER, KEY_STOP, KEY_PAUSE, KEY_PLAY, KEY_REWIND, KEY_FORWARD` in that
  order by substring containment, and the first match wins.
- `request.dfy` (module `Request`): the template `http_request_format`, `sprintf`
  with one `%s`, and the six `handle_key_*` handlers as one function of the command.
- `transport.dfy` (module `Transport`): the `send_http_request` and
  `receive_http_response` loops, and the walk over the `getaddrinfo` list.
- `bridge.dfy` (module `Bridge`): `main`. The class `Dispatcher` holds the two
  buffers (`http_request`, 1024 bytes; `http_response`, 4096 bytes) and the
  sticky `valid_key`. `Run` covers the start-up checks and the event loop.

The system calls are oracles. `send` is a function from (call number, bytes
asked for) to its return value. The only assumption is what the call may return:
-1, or 1 up to the bytes asked for, or 0 only when nothing was asked for. `recv`
is a function from (call number, room left) to a reply: some bytes, at most the
room, or -1. A reply with no bytes is the peer's close, and `recv` returns 0.
`socket` and `connect` are booleans, one pair per resolver candidate at start-up
and one pair per dispatched event. The stream of LIRC codes is a sequence of
events. A `None` code stands for a NULL code.

The model follows the code where an idealised description of this bridge differs:

- `Content-Length: 10` is hard-coded. The body `function=<d>\n` is 11 bytes, and
  the announced 10 cover `function=<d>` without the trailing newline.
- A code matches by substring containment, so a code that merely contains a
  token is recognised.
- `valid_key` is never reset. After the first recognised key, an unrecognised
  code still opens a connection. It then sends the freshly zeroed, empty request,
  and `send` is called once with length 0.
- A failed `socket` or `connect` for an event ends `main` with -1. A failed send
  or receive is only reported.
- If `lirc_readconfig` fails, `main` skips the loop and returns 0.

## Model

| member | source | states |
|---|---|---|
| CStrings.Occurs | test_ir_remote.c:143-163 | `strstr(code, token)` is non-NULL only when the token is no longer than the code |
| CStrings.OccursIff | test_ir_remote.c:143-166 | the `strstr` scan finds the token exactly when it occurs at some offset of the code |
| CStrings.CStrOfTerminated | test_ir_remote.c:260 | `strlen` of a buffer holding a NUL-free string, its terminator and anything after is that string |
| CStrings.CStr | test_ir_remote.c:260 | `strlen` reads a prefix of the buffer that holds no NUL and stops at the first NUL |
| CStrings.Zeros | test_ir_remote.c:140-141 | `memset` leaves exactly n NUL bytes |
| CStrings.Concat | test_ir_remote.c:294-304 | `concat` exits with status 1 exactly when allocation fails; otherwise the result has length \|a\|+\|b\|, starts with a and continues with b |
| CStrings.ConcatCStr | test_ir_remote.c:294-304 | read back with `strlen`, the joined string is a followed by b, of length \|a\|+\|b\| |
| KeyMap.MapKey | test_ir_remote.c:143-166 | the chosen command's token occurs in the code, and no token tested earlier does |
| KeyMap.MapKeyIsFirstMatch | test_ir_remote.c:143-166 | the if/else chain equals a first-match walk over the six tokens in their fixed order |
| KeyMap.MapKeyIff | test_ir_remote.c:143-166 | a code maps to a command exactly when it contains that command's token and none tested before it |
| KeyMap.UnrecognizedIff | test_ir_remote.c:143-168 | a code is unrecognised, so no handler runs, exactly when it contains none of the six tokens |
| KeyMap.TokenMapsToItself | test_ir_remote.c:143-166 | each of the six key names on its own maps to its own command, because no token contains an earlier one |
| Request.Format | test_ir_remote.c:219 | `sprintf` with one `%s` yields the format's length minus 2 plus the argument's length |
| Request.FormatSplit | test_ir_remote.c:219 | formatting `p%sq` with no other `%` gives p, then the argument, then q |
| Request.FormatShape | test_ir_remote.c:53-57 | the template is the header text and `function=`, one `%s`, then a newline, with no other `%` and no NUL |
| Request.HandleKey | test_ir_remote.c:216-256 | handler k returns 1 and writes the template with `%s` replaced by the single digit k (Power=1 … Forward=6) |
| Request.ContentLengthCoversBodyWithoutNewline | test_ir_remote.c:53-57 | the header announces 10, the body after the blank line is 11 bytes, and its first 10 are `function=<d>` |
| Request.RequestFits | test_ir_remote.c:14-58 | every formatted request plus its terminator fits the 1024-byte buffer and holds no NUL |
| Request.RequestsDifferOnlyInDigit | test_ir_remote.c:216-256 | all six requests have the same length and text except at the digit position, and different commands give different requests |
| Transport.SendHttpRequest | test_ir_remote.c:258-274 | the calls are exactly the send loop's (`SendLoop`): `send` is called at least once, even for an empty request. Each call asks for the unsent rest. Every call but the last takes at least one byte and leaves some unsent. The last call fails or sends the final byte, so no call follows a completed send. The result is -1 exactly when the last call returned -1. On 0 all bytes went. The bytes sent are the request's prefix of length total |
| Transport.SendLoopBounds | test_ir_remote.c:258-274 | the send loop makes at most one call per byte plus one, and an empty request takes exactly one call |
| Transport.SendLoopUnique | test_ir_remote.c:258-274 | the send loop's calls, and so what it returns, are determined by `send` and the request length |
| Transport.LayDown | test_ir_remote.c:283 | a received chunk lands at the current offset and nothing else in the buffer changes |
| Transport.ReceiveHttpResponse | test_ir_remote.c:276-292 | the calls are exactly the receive loop's (`RecvLoop`): each call is given the room left. Every call but the last returns more than 0 and leaves room. The last returns 0 or -1, or fills the buffer, so no call follows a full buffer. The total never exceeds 4096. The chunks are laid down in order from offset 0, and the rest of the buffer is unchanged. The result is -1 exactly when the last `recv` failed |
| Transport.RecvLoopUnique | test_ir_remote.c:276-292 | the receive loop's calls, and so the bytes collected and the result, are determined by `recv` |
| Transport.SelectAddress | test_ir_remote.c:95-112 | the walk stops at the first candidate where `socket` and `connect` both succeed, or at the list's end if none does. Exactly the sockets whose connect failed are closed, in list order |
| Bridge.NextValidKey | test_ir_remote.c:143-166 | a matched token sets `valid_key` to the handler's 1; an unmatched code leaves it as it was |
| Bridge.KeyState | test_ir_remote.c:66-168 | `valid_key` across passes, from its initial 0, is always 0 or 1 |
| Bridge.Payload | test_ir_remote.c:140-166 | after zeroing and the handler chain, the request buffer's string is empty exactly when no token matched; otherwise it is the handler's request, NUL-free and under 1024 bytes |
| Bridge.KeyStateSticky | test_ir_remote.c:66-168 | `valid_key` is 1 exactly when some earlier code was recognised, so it is never reset |
| Bridge.UnrecognizedAfterRecognizedSendsEmpty | test_ir_remote.c:140-168 | once a key has been recognised, an unrecognised code still reaches the send branch, and the request it sends is empty |
| Bridge.NothingSentBeforeFirstKey | test_ir_remote.c:143-168 | while no code has been recognised, `valid_key` stays 0 and nothing is sent |
| Bridge.Clear | test_ir_remote.c:140-141 | the whole buffer is zeroed |
| Bridge.WriteCString | test_ir_remote.c:219 | `sprintf` leaves the text and its terminator at the start of the buffer, and the rest is untouched |
| Bridge.Dispatcher.constructor | test_ir_remote.c:58-66 | the buffers have 1024 and 4096 bytes, and `valid_key` starts at 0 |
| Bridge.Dispatcher.Prepare | test_ir_remote.c:140-166 | both buffers are zeroed, the request buffer then holds the handler's request (or nothing), and `valid_key` becomes 1 on a match and is otherwise unchanged |
| Bridge.Dispatcher.Transmit | test_ir_remote.c:168-202 | a failed `socket` or `connect` aborts; otherwise the pass posts. The buffer's C string goes through exactly the send loop's calls against this event's `send`, and the response through exactly the receive loop's calls against its `recv`. The sent count, both statuses and the response bytes are those the loops give, and the response buffer holds the bytes followed by zeros |
| Bridge.Dispatcher.Dispatch | test_ir_remote.c:138-202 | `Explains`: nothing is sent exactly when `valid_key` is 0 after the handler chain. When it is not 0, a connection failure aborts. Otherwise the pass posts the handler's request, or the empty string, with the loops' calls and results tied to the oracles. The request buffer holds the payload and its zeros. The response buffer is zero unless the pass posted, and then it holds the response followed by zeros |
| Bridge.Dispatcher.Pass | test_ir_remote.c:136-202 | a NULL code is skipped and leaves both buffers and `valid_key` as they were; any other code is dispatched, and the outcome is the one `Explains` allows |
| Bridge.PostUnique | test_ir_remote.c:183-199 | posting a given request over a given network has only one outcome: the calls, the statuses, the count sent and the response |
| Bridge.ExplainsUnique | test_ir_remote.c:138-202 | a pass has exactly one outcome allowed by its event and the `valid_key` before it |
| Bridge.TraceUnique | test_ir_remote.c:134-205 | two explained traces of the same codes agree pass by pass |
| Bridge.Dispatcher.Serve | test_ir_remote.c:134-205 | `LoopResult`: every pass does what its code and the current `valid_key` dictate, and NULL codes are skipped. The loop ends with -1 right after the first aborted pass, otherwise with 0 after all events |
| Bridge.LoopResultUnique | test_ir_remote.c:134-205 | the loop's status and passes are determined by the codes and their networks |
| Bridge.Run | test_ir_remote.c:46-211 | `main` returns -1 with nothing sent on too many arguments, a failed `lirc_init`, a failed `getaddrinfo` or no usable address. It returns 0 with nothing sent when the configuration cannot be read. Otherwise its status and passes are exactly the event loop's `LoopResult`, so it returns 0 when the codes run out, including when there are none |

## Left out

- LIRC itself (`lirc_init`, `lirc_readconfig`, `lirc_nextcode`, `lirc_freeconfig`, `lirc_deinit`, `free(code)`): foreign library I/O. Their results are inputs: two booleans and the sequence of codes.
- Real networking: `getaddrinfo`, `socket`, `connect`, `send`, `recv` and `close` are oracles, as described above. Blocking and timeouts are not modelled, and the host name and port appear only inside the request text.
- All `printf`/`fprintf` output, including the misplaced parentheses at test_ir_remote.c:88, which only change the printed error. Because printing is left out, the missing terminator after a full 4096-byte response is not modelled. That response would be printed with `%s`.
- The `== -1` tests on the handlers' results (test_ir_remote.c:145-165) are left out: `Request.HandleKey` proves every handler returns 1, so those branches cannot run.
- The start-up probe socket is closed at test_ir_remote.c:123, and `freeaddrinfo` is commented out. Neither affects any result.
- `DELAY` (test_ir_remote.c:13) is never used, so there is no debounce timer.
- `concat` is never called in this file. It is modelled on its own, and its allocation is a boolean.
- Transport.SendHttpRequest: assumes `send` returns 0 only when nothing was asked for. If a blocking `send` returned 0 while bytes remained, the C loop would spin forever, and the model does not cover that case.
- Bytes are Dafny `char`s. No byte holds a value outside `char`, and the counters never exceed 4096, so C's `int` width does not matter.
