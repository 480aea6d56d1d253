# A verified model of the GemServe request loop

GemServe (`run.py`) is a minimal server for the Gemini protocol. After its
start-up chores it runs `serve()`: a sequential loop that accepts one TLS
connection at a time, reads the request with a single `recv`, maps it to a file under
`docs/`, answers with a Gemini status line (and the file, when there is one),
and closes the connection.

This project models that loop in Dafny and proves what it does:

- `Text` — the two string built-ins the handler uses, `str.strip()` and
  `str.split("/")`, plus an independent right-to-left definition of "the part
  after the last `/`" (`LastSegment`).
- `Resource` — the request-to-file-name rule: strip, split on `/`, take the
  last piece, use `index.gmi` when it is empty.
- `Gemini` — the response header `<STATUS><SPACE><META><CR><LF>` of section
  3.1 of the Gemini protocol specification (v0.16.1), with a parser playing
  the client.
- `Response` — the choice between `51 Not Found` and `20 text/gemini` plus
  the file, over the `docs` directory seen as a map from name to file.
- `AcceptLoop` — the `while True` loop as a state machine over input events
  (accept timeout, accept error, failed handshake, a wrapped connection with
  what its read gave and the `docs` directory as its handler finds it,
  interrupt), recording a trace of `Open`, `Send`, `Close` and
  `CloseListener` actions. `Step`/`Run` are the specification; the class
  `Server` holds the trace and the connection counter, and its method
  `Serve` is the loop, proved equal to `Run`. `Inv` is the ownership rule:
  connections are handled one at a time; each is opened once, then gets
  only its own sends, then is closed once; and the listening socket is
  closed last.

Two behaviours of the code are worth knowing:

- The last segment is taken even when it is empty, so `gemini://host/sub/`
  asks for `index.gmi`, not `sub` (`Resource.RootIsIndex`).
- An exception while reading the request, or while looking up, opening or
  reading the file, is not caught per connection. The handler's `try` has
  only a `finally`, and the outer `try` catches only `KeyboardInterrupt`. So
  the connection is closed, control leaves the `with socket()` block, which
  closes the listening socket, and `serve()` ends
  (`AcceptLoop.CrashEndsLoop`).

Whitespace for `strip()` is the exact set of code points for which Python's
`str.isspace()` holds (`Text.IsSpace`).

## Model

| member | source | states |
|---|---|---|
| Text.IsSpace | run.py:170 | the whitespace `strip()` removes: the code points for which `str.isspace()` holds |
| Text.Strip | run.py:170 | `strip()` gives a result that neither starts nor ends with whitespace |
| Text.StripSlice | run.py:170 | the stripped request is a slice of the request with only whitespace cut off on either side |
| Text.StripUnique | run.py:170 | any split of the text into whitespace, a core with non-space ends, and whitespace has that core as its `strip()` |
| Text.StripIdempotent | run.py:170 | stripping an already stripped request changes nothing |
| Text.Split | run.py:174 | `split("/")` yields at least one piece, so `splits[len(splits)-1]` always exists |
| Text.SplitPieces | run.py:174 | there is exactly one piece iff the text has no `/`, and no piece contains `/` |
| Text.JoinSplit | run.py:174 | joining the pieces with `/` gives back the stripped request |
| Text.SplitJoin | run.py:174 | splitting a `/`-join of `/`-free pieces gives back those pieces |
| Text.LastSegment | run.py:175 | the part after the last `/` is `/`-free and no longer than the text |
| Text.LastSegmentSuffix | run.py:175 | it is a suffix of the text, preceded by `/` or equal to the whole text |
| Text.LastSegmentUnique | run.py:175 | being a `/`-free suffix preceded by `/` or equal to the whole text determines the part after the last `/` |
| Text.LastSegmentCons | run.py:174-175 | a character put in front of a text changes its last segment only when the text has no `/` |
| Text.SplitLast | run.py:174-175 | `splits[len(splits)-1]` is the part of the text after its last `/` |
| Text.LastSegmentAfter | run.py:174-175 | whatever comes before a `/` does not change the last piece of what follows it |
| Text.StripAround | run.py:170 | around a non-space character, `strip()` trims the left and right parts independently |
| Resource.RequestedFile | run.py:170-178 | the requested name is never empty and never contains `/` |
| Resource.NameIsLastSegment | run.py:170-178 | the name is the last `/`-piece of the stripped request, or `index.gmi` when that piece is empty |
| Resource.NameAfterLastSlash | run.py:174-178 | with no `/` the name is the whole stripped request; otherwise it is what follows the last `/`, and `index.gmi` when nothing does |
| Resource.SameLastSegmentSameName | run.py:174-175 | two requests whose stripped texts end in the same piece ask for the same name |
| Resource.IntermediateSegmentsIgnored | run.py:174-175 | everything up to the last `/` is dropped: `p/s` asks for what `/s` asks for, for any `p` |
| Resource.PlainLastPiece | run.py:174-178 | a request ending in `/name`, with `name` plain and not ending in whitespace, asks for `name` whatever precedes it |
| Resource.RootIsIndex | run.py:177-178 | a request that is empty or ends in `/` after stripping asks for `index.gmi` |
| Resource.RootAsExplicitIndex | run.py:177-178 | such a request resolves to the same name as any request ending in `/index.gmi` |
| Resource.DotDotNotFiltered | run.py:174-175 | a request ending in `/..` asks for `..`: nothing is rejected |
| Gemini.ParseFormat | run.py:182 | a client reading a formatted header followed by a body gets back that header and exactly that body |
| Response.NotFoundLineFormat | run.py:182 | the bytes `51 Not Found\r\n` are the well-formed header with status 51 and meta `Not Found` |
| Response.SuccessLineFormat | run.py:189 | the bytes `20 text/gemini\r\n` are the well-formed header with status 20 and meta `text/gemini` |
| Response.Respond | run.py:180-190 | an exception escapes exactly when the name is a listed but unreadable file; otherwise one write for a missing name and two (header and body) for a present one |
| Response.ClientReadsResponse | run.py:180-190 | a client reads status 51 with an empty body for a missing name, and status 20 `text/gemini` with a body equal to the file's contents for a readable one |
| AcceptLoop.Writes | run.py:170-190 | an exception escapes the handler exactly when the read fails or the requested name's lookup, open or read raises; otherwise its body hands the name to `Respond` |
| AcceptLoop.Step | run.py:148-192 | one turn of the loop: a stopped or crashed loop is unchanged, the trace only grows, and the connection counter goes up exactly for a wrapped connection |
| AcceptLoop.Run | run.py:147-196 | the loop fed with a finite sequence of events, one `Step` each |
| AcceptLoop.RunOnlyAppends | run.py:147-196 | nothing the loop records is ever taken back, and connection numbers never go down |
| AcceptLoop.Inv | run.py:147-196 | the ownership rule: connections one after another, each opened once, then only its own sends, then closed once; the listening socket closed last and exactly when the loop has ended |
| AcceptLoop.StepKeepsInv | run.py:147-196 | every turn of the loop keeps the ownership invariant of the trace |
| AcceptLoop.RunKeepsInv | run.py:147-196 | so does any sequence of turns |
| AcceptLoop.ClosedExactlyOnce | run.py:169-192 | every connection that was wrapped is closed, and closed only once |
| AcceptLoop.SendWhileOpen | run.py:182-192 | every send on a connection comes after its open and before its close |
| AcceptLoop.NoInterleaving | run.py:147-192 | between a connection's open and close, the trace holds only sends on that connection |
| AcceptLoop.HaltedIsFinal | run.py:147-196 | once the loop has stopped or crashed, later events change nothing |
| AcceptLoop.DroppedEventsIgnored | run.py:150-167 | accept timeouts, accept errors and failed handshakes send nothing, close nothing, and the loop goes on to the next event as if they had not occurred |
| AcceptLoop.CrashEndsLoop | run.py:169-193 | an exception while handling a connection closes it, then the listening socket, and no later event is handled |
| AcceptLoop.InterruptEndsLoop | run.py:193-196 | an interrupt while waiting closes the listening socket and ends the loop |
| AcceptLoop.NotFoundSession | run.py:180-183 | a request for a missing name opens, sends `51 Not Found\r\n` once, and closes, and the loop goes on |
| AcceptLoop.FoundSession | run.py:185-192 | a request for a readable file opens, sends `20 text/gemini\r\n`, then the contents, then closes, and the loop goes on |
| AcceptLoop.EditSeenByNextRequest | run.py:180-192 | the directory is read afresh for every request, so a file edited between two requests is served with its new contents the second time |
| AcceptLoop.Server.SendOn | run.py:182-190 | `conn.send` appends one send on that connection to the trace and changes nothing else |
| AcceptLoop.Server.CloseConnection | run.py:191-192 | `conn.close()` in the `finally` appends the close of that connection |
| AcceptLoop.Server.CloseListeningSocket | run.py:195 | `sock.close()` appends the close of the listening socket |
| AcceptLoop.Server.Handle | run.py:169-192 | the handler appends the writes for the request and then the close, and reports whether an exception escaped |
| AcceptLoop.Server.Serve | run.py:147-196 | the loop leaves exactly the state `Run` gives for its events, and keeps the invariant |

## Left out

- TLS: creating the context, `load_cert_chain` and `wrap_socket` are library calls; a handshake is only an event that succeeds or fails.
- Socket set-up (`bind`, `listen(5)`, `settimeout(1.0)`) and a bind failure at start-up: network plumbing before the loop; `accept` outcomes are input events.
- `gen_cert_key` and `gen_index`: key and certificate generation and writing the starter page are file and crypto I/O outside the loop.
- `recv(1024).decode()`: the request is already decoded text; the 1024-byte cap is not modelled, and a failed read or decode is the `ReadFailed` event.
- Bytes on the wire: sends carry strings; the UTF-8 `.encode()` of the body and the newline translation of text-mode reading are not modelled, and file contents are whatever the map holds.
- `is_file()`, `open` and `read`: the file system is not modelled; each wrapped connection carries the `docs` map as its handler finds it. A name is absent when `is_file()` returns false, `Unreadable` when `is_file()`, `open` or `read` raises (for example a name too long for the file system), and `Readable` otherwise. So a name such as `..` is found only if the map holds it, and the file is taken as unchanged between `is_file()` and `read`.
- A `send` that raises (a client that went away) is not modelled: every send succeeds.
- KeyboardInterrupt is modelled only while waiting in `accept`. One during `wrap_socket` is caught by the bare `except` and acts as a failed handshake. One while handling a request is not modelled.
- A failed handshake sends nothing and `serve()` closes nothing; `wrap_socket` closes the raw socket itself before re-raising, and the trace records only TLS connections that were established.
- After an interrupt, `end()` exits and the `with` block closes the already closed listening socket again; that second close does nothing and is not recorded.
- Logging, `print_exc`, the `input()` prompt and `exit()` in `end()`, and the `argv` content root: side effects with nothing to state.
- The loop never ends on its own; the model runs it over any finite sequence of events.
