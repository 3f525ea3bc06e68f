# gab framing engine in Dafny

gab is a Node.js port of Python's `asynchat`. A `Gab` object sits on a socket.
It splits the inbound character stream into segments at a *terminator*. It
hands each segment to the consumer's `collectIncomingData` hook and calls
`foundTerminator` at every boundary. It also queues outbound payloads until
the socket is connected.

This project models that core:

- `terminator.dfy` (module `Terminators`) holds the terminator value and the
  searches on the inbound buffer:
  - the terminator is absent, a character count, or a literal string;
  - JavaScript falsiness: `undefined`, `0` and `""`;
  - the constructor's CR LF default;
  - `indexOf`;
  - `findPrefixAtEnd`, as a loop method proved against a function that
    characterises its result.
- `framing.dfy` (module `Framing`) models `handleRead` as functions over values:
  - the calls on the consumer's hooks are a log of events: `Collect(segment)`
    or `Found(matched)`, where `matched` is the terminator text removed, empty
    in count mode;
  - the consumer may reassign the terminator inside `foundTerminator`; that
    choice is a function of the log so far;
  - `Pass` is one round of the `while` loop and `Scan` is the whole loop;
  - `Read` is one `handleRead` call and `Feed` is a sequence of them.
- `behaviour.dfy` (module `Behaviour`) proves what the code does on particular
  inputs: a byte count spread over several reads, the CR LF default, and a
  terminator split across two reads.
- `gab.dfy` (module `GabModel`) holds the `Gab` class:
  - its fields are updated in place;
  - `HandleRead` is the loop of `gab.js`, proved to leave the state that
    `Framing.Read` describes;
  - the outbound path (`push`, `initiateSend`, `send`, `handleConnect` and the
    socket's connect event) is a small state machine over the queue, the
    `connected` flag, the pending connect listeners and the log of socket
    writes.

The model follows the code where it differs from its own comments and from
Python's `asynchat`, which gab.js:7 names as its origin:

- Comments in `gab.js` (lines 82-88 and 103) describe collecting up to a
  partial terminator left at the end of the buffer. `asynchat`'s
  `find_prefix_at_end` returns the length of that partial terminator. gab's
  `findPrefixAtEnd` computes something else. It counts `l` down from
  `|needle| - 1` while the buffer ends with `needle[l..]`, and the loop then
  uses `l` as a forward offset.
- As a consequence, with the default CR LF terminator, a buffer (what was
  kept plus the new chunk) of two or more characters with no CR LF that does
  not end in LF flushes only its first character and keeps the rest
  (`Behaviour.DefaultTerminatorFlushesFirst`). A one-character buffer other
  than LF is kept whole and nothing is delivered
  (`Behaviour.DefaultTerminatorKeepsOne`).
- Reading `"abc\r"` and then `"\ndef\r\n"` delivers `"a"`, `"bc"`, a
  boundary, `"def"` and a boundary. `asynchat` would deliver `"abc"` in one
  segment and keep only the `"\r"`.
- A terminator split across two reads is not always found. With terminator
  `"abc"` and reads `"xab"` and `"c"`, the match is lost
  (`Behaviour.SplitTerminatorLost`). `asynchat` keeps the partial terminator
  `"ab"` and finds the match on the next read.
- An empty literal terminator is falsy in JavaScript, so the code collects
  everything rather than rejecting it.

Node's event emitter runs "connect" listeners in registration order. The
model takes this as given: the listener `handleConnect` was registered first, then
one per deferred payload.

## Model

| member | source | states |
|---|---|---|
| Terminators.Falsy | gab.js:60 | a terminator is truthy exactly when it is a positive count or a non-empty string; `undefined`, 0 and "" are falsy, both for the `\|\|` at gab.js:19 and the `!terminator` test |
| Terminators.InitialTerminator | gab.js:19 | the configured terminator when it is truthy, otherwise CR LF; the result is never falsy |
| Terminators.IndexOf | gab.js:90 | -1 exactly when the terminator occurs nowhere; otherwise an occurrence with none earlier |
| Terminators.EndsWith | gab.js:178 | the test `RegExp(s + "$")`, read literally, holds exactly when `s` occurs in `h` at offset \|h\| - \|s\| |
| Terminators.PrefixAtEnd | gab.js:175-182 | lies in [0, \|t\|-1] and is 0 when \|t\| = 1; it is 0 or an `l` where h does not end with t[l..]; h ends with t[k..] for every larger k up to \|t\|-1 |
| Terminators.PrefixAtEndUnique | gab.js:175-182 | those properties determine the value: it is the largest such `l` |
| Terminators.FindPrefixAtEnd | gab.js:175-182 | the count-down loop returns PrefixAtEnd(haystack, needle) |
| Framing.CollectAllPass | gab.js:60-64 | a falsy terminator delivers exactly one Collect of the whole buffer, keeps nothing, leaves the terminator as it was, and neither stops nor fires |
| Framing.CountPass | gab.js:67-80 | count mode fires exactly when n <= \|buf\|, never stops, delivers the first min(n, \|buf\|) characters, keeps exactly the characters after them, and leaves Count(n - \|buf\|) or, once complete, Count(0) |
| Framing.LiteralPass | gab.js:81-119 | a literal pass removes and delivers nothing beyond the buffer; it stops only when findPrefixAtEnd returns a non-zero offset, keeping a remainder with no occurrence of the terminator; what each branch delivers and keeps is Framing.LiteralPassOutcome |
| Framing.LiteralPassOutcome | gab.js:81-117 | foundTerminator fires exactly when the literal occurs in the buffer, and then the text before the first occurrence is delivered and the text after it kept; otherwise, when findPrefixAtEnd's offset k is 0 the whole buffer is delivered and the loop goes on; when k is not 0 the pass breaks, delivers the buffer up to k clamped to the buffer length and keeps the rest; when k equals the buffer length nothing is delivered and the whole buffer is kept; the terminator is never changed by the pass |
| Framing.FoundLiteral | gab.js:92-101 | a found terminator fires once with the literal, does not stop, keeps the terminator, delivers exactly the text before the match and keeps exactly the text after it; no empty segment is delivered |
| Framing.After | gab.js:58-100 | the terminator the next pass re-reads: the one the pass left unless foundTerminator was called and the consumer reassigned it, in which case the reassigned one (see Framing.RetargetTakesEffect) |
| Framing.Scan | gab.js:56-120 | the whole loop never leaves more than it started with; its conservation, no-empty-segment and no-match-left properties are Framing.ScanConserves, Framing.ScanNeverCollectsEmpty and Framing.ScanLeavesNoMatch |
| Framing.Pass | gab.js:56-119 | every pass conserves characters and never delivers "". A pass that does not break shrinks the buffer. It fires at most once, as its last event |
| Framing.ScanConserves | gab.js:54-120 | delivered segments, with each matched terminator put back, followed by the remaining buffer, equal the input buffer |
| Framing.ScanNeverCollectsEmpty | gab.js:56-117 | collectIncomingData never receives the empty string |
| Framing.ScanLeavesNoMatch | gab.js:56-120 | the loop ends with an empty buffer, or with a literal terminator that occurs nowhere in what is left |
| Framing.FalsyCollectsAll | gab.js:60-64 | a falsy terminator collects the entire buffer in one segment, clears it, keeps the terminator and never fires |
| Framing.CountShort | gab.js:69-73 | a buffer shorter than the count is delivered whole, the count drops by its length, and nothing fires |
| Framing.CountComplete | gab.js:74-79 | otherwise exactly the first n characters are delivered, the rest stays, the count becomes 0 and foundTerminator fires once |
| Framing.LiteralFirstOccurrence | gab.js:90-101 | at the first occurrence i, the text before it is delivered only if i > 0, the buffer becomes the text after it, and one Found follows |
| Framing.RetargetTakesEffect | gab.js:56-100 | a terminator the consumer assigns inside foundTerminator governs the rest of the same buffer |
| Framing.Read | gab.js:48-121 | one handleRead keeps every earlier call in the log and leaves no more buffered than the old buffer plus the chunk; Framing.ReadKeeps adds conservation |
| Framing.Feed | gab.js:48-121 | a sequence of handleRead calls only appends to the log; Framing.FeedConserves and Framing.FeedNeverCollectsEmpty carry the rest |
| Framing.ReadKeeps | gab.js:48-121 | one handleRead only appends to the log, conserves the old buffer plus the chunk, and never collects "" |
| Framing.FeedConserves | gab.js:48-121 | over any sequence of reads, the log gains exactly the old buffer plus all chunks, less what stays buffered |
| Framing.FeedNeverCollectsEmpty | gab.js:48-121 | over any sequence of reads, collectIncomingData never receives "" |
| Behaviour.ReadCountShort | gab.js:69-73 | a read shorter than the outstanding count is delivered whole and lowers the count |
| Behaviour.ReadCountCompletes | gab.js:74-79 | a read that completes the count delivers its first m characters and then fires |
| Behaviour.CountSpansReads | gab.js:67-79 | a count split over two reads delivers both parts, which together are the first n characters of the stream, and then fires |
| Behaviour.ReadCountPrefix | gab.js:74-79 | a read that completes the count adds to the log its first m characters, then one foundTerminator call |
| Behaviour.CountThenCollectsRest | gab.js:58-79 | once a count completes inside the buffer, the falsy 0 it leaves collects the rest of the buffer as is, unless the consumer reassigns it |
| Behaviour.CountOfTen | gab.js:67-79 | Count(10) fed "abc", "defg", "hijkl" gives the segments "abc", "defg", "hij", a boundary, then "kl" under the falsy 0 |
| Behaviour.DefaultTerminatorFlushesFirst | gab.js:102-111 | with CR LF, a buffer of two or more characters, with no CR LF and not ending in LF, delivers only its first character and keeps the rest |
| Behaviour.DefaultTerminatorKeepsOne | gab.js:104-111 | with CR LF, a one-character buffer other than LF is kept whole: findPrefixAtEnd returns 1, the buffer length, so nothing is delivered |
| Behaviour.DefaultTerminatorAfterNewline | gab.js:113-117 | with CR LF, a buffer with no CR LF that ends in LF is delivered whole |
| Behaviour.ScanLine | gab.js:90-100 | with CR LF, a non-empty line without CR, followed by CR LF, is delivered whole, fires once, and the loop continues on what follows |
| Behaviour.CrLfFirst | gab.js:102-111 | after any earlier calls, reading "abc\r" delivers "a" and keeps "bc\r" |
| Behaviour.DefaultTerminatorAcrossReads | gab.js:54-120 | after any earlier calls, "abc\r" then "\ndef\r\n" gives "a", "bc", a boundary, "def", a boundary: collected text "abcdef" and two boundaries |
| Behaviour.SplitTerminatorLost | gab.js:102-111 | "abc" occurs in "xab" + "c", yet reading the two chunks delivers "xa" and "bc" and never fires |
| GabModel.Gab.constructor | gab.js:13-20 | a new object has an empty buffer, log and queue, the initial terminator, and is not connected |
| GabModel.Gab.HandleRead | gab.js:48-121 | the in-place loop leaves buffer, terminator and log exactly as Framing.Read describes |
| GabModel.Gab.ReadPass | gab.js:56-119 | one round does exactly one Framing.Pass: its events are the hooks called, its rest is the new buffer, the terminator is what the consumer left (Framing.After), and it stops exactly when the pass stops, that is, when findPrefixAtEnd returns a non-zero offset (what is kept then may be empty, or text that is not a prefix of the terminator); on stop the loop's whole outcome is this round's, otherwise the buffer shrinks and the loop continues from the new state |
| GabModel.Gab.CountRound | gab.js:67-80 | the count-mode round updates the state as Framing.CountPass and the consumer describe |
| GabModel.Gab.LiteralRound | gab.js:81-119 | the literal round updates the state as Framing.LiteralPass and the consumer describe, and breaks exactly when that pass stops |
| GabModel.Gab.CollectIncomingData | gab.js:166-168 | the hook receives a non-empty segment, recorded in order |
| GabModel.Gab.FoundTerminator | gab.js:170-172 | the hook is recorded, and the consumer's reassignment, if any, becomes the terminator |
| GabModel.Gab.Send | gab.js:122-134 | when connected the payload is written now; otherwise it joins the pending connect listeners |
| GabModel.Gab.InitiateSend | gab.js:139-144 | the head of the queue, if any, is removed and sent; every pushed payload stays written, pending or queued, in push order |
| GabModel.Gab.Push | gab.js:135-138 | the queue keeps its length, the payload that leaves is the oldest, and push order is preserved |
| GabModel.Gab.HandleConnect | gab.js:44-46 | the object is connected |
| GabModel.Gab.ConnectEvent | gab.js:127-131 | on connect, every pending payload is written once, in registration order, and none stays pending |
| GabModel.PushBeforeConnect | gab.js:127-144 | three payloads pushed before the connection is up are written exactly once each, in push order, when it comes up |

## Left out

- Socket plumbing (`connect`, `setEncoding` and the event wiring, gab.js:23-42) is I/O over Node's `net` module. The connect event is modelled by `ConnectEvent`, and data events by calls to `HandleRead`.
- `handleError`, `handleClose` and `close` (gab.js:145-165) are also socket I/O. `close` would clear `connected`, then end the socket, rethrowing every error.
- GabModel.Gab.Send: does not model the writability check at gab.js:124-125, which calls `handleError` and then uses a socket that may be undefined. Only the connected-or-deferred decision is modelled.
- The default hooks throwing `NotImplementedError` (gab.js:166-172) are not modelled. The consumer is abstract: a log of hook calls plus a function that gives the terminator it assigns.
- `findPrefixAtEnd` builds a regular expression from the unescaped terminator text (gab.js:178). The model reads it as a literal ends-with test. Terminators containing regular-expression metacharacters are not modelled.
- Lengths, counts and offsets are counted in Unicode characters, because a Dafny string is a sequence of scalar values. JavaScript counts UTF-16 code units. A count terminator over text outside the Basic Multilingual Plane therefore covers fewer characters in the source than here, and the source can cut through a surrogate pair where the model cannot.
- Socket data may arrive as a `Buffer` that `+=` turns into a string (gab.js:54). The model works on strings of characters only, with no encoding.
- The `incoming` and `encoding` fields (gab.js:15, 18) are not modelled: the core never reads `incoming`, and `encoding` only feeds `setEncoding`.
- Negative or fractional numeric terminators are not representable: a count is a `nat`.
- The model does not capture a consumer that calls `push` or `handleRead` from inside its hooks. Inside `collectIncomingData` the consumer cannot change the terminator in this model; it does so only in `foundTerminator`.
- Node's emitter runs the connect listeners in registration order. This is an assumption of the model, not something it proves.
- examples/ftp.js and examples/jsftp.js are demo FTP clients that use the framer. They are not part of this model.
