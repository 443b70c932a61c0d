# NetworkFileReceiver, modelled in Dafny

This project models the receiving side of a small LAN file-transfer tool:
the class `NetworkFileReceiver` in `receiver/FileReceiver.py`. It covers:

- the handshake that `handle_request` runs on each accepted connection. A
  discovery request is answered with `RECEIVER_READY`. JSON metadata naming
  the file and its size is answered with `RECEIVER_READY` again.
- the bounded receive loop, which reads at most `min(4096, remaining_bytes)`
  at a time until the declared size is reached or the peer closes.
- the completion path, which closes the connection and the listening socket.
- the error paths: zero-byte reads, malformed JSON, missing keys, a request
  type other than `discovery`, and a raising completion collaborator.
- the accept loop of `listen_for_requests`, which stops on an accept
  timeout or once a session has closed the listening socket.

Modules, one per file:

- `Net` (`net.dfy`) models the accepted connection as a class
  `Connection`. Its fields are the input the peer will send (`pending`, a
  list of chunks), the record of everything the receiver did on it
  (`trace`: reads, sends, close) and whether it is open. `recv(n)` is the
  function `NextRead`. It returns at most `n` bytes of the stream and
  leaves the rest buffered. A zero-length chunk, or the end of the script,
  is the peer closing its side.
- `Storage` (`storage.dfy`) models the receive folder as a class `Folder`
  holding a map from file name to contents. It has the two operations the
  handler uses, `open(…, 'wb')` and `write`.
- `FileTransfer` (`transfer.dfy`) specifies the receive loop as a
  function of the input. Its lemmas state what the loop reads, what it
  asks for and when it stops.
- `Session` (`session.dfy`) specifies one `handle_request` as a function
  `Handle` of the input. Its two handshake steps are `RequestExchange`
  and `MetadataExchange`. Its lemmas cover every way a session can end.
- `Lifecycle` (`lifecycle.dfy`) specifies `listen_for_requests` as a
  function `Serve` of the sequence of accept results.
- `FileReceiver` (`receiver.dfy`) holds the class
  `NetworkFileReceiver`, with `receiver_socket` modelled as the boolean
  field `listening`. Its methods are written imperatively: the receive
  loop is a `while` loop writing into the `Folder`, and the accept loop
  is a `while` loop over the arrivals. Each method is proved against the
  specification functions above.

The model follows the code as written, including three behaviours a reader
might not expect:

- A completion collaborator (`playsound`, `open_image`) that raises is
  caught by the generic `except Exception` (lines 103-105). That handler
  closes the connection but not the listening socket. The file has been
  written and reported as received (line 88), yet the server goes on
  accepting instead of stopping as line 96 announces. See
  `Session.CollaboratorFailureKeepsListening` and
  `Lifecycle.ServeStopsOnlyTwoWays`.
- A request whose `type` is not `'discovery'` gets no reply, and the
  connection is neither answered nor closed (the `if` at line 50 has no
  `else`). See `Session.FirstMessageOutcomes`.
- Any integer is accepted as the declared size: a size of 0 or less
  creates an empty file and still takes the completion path. See
  `Session.NonPositiveSize`.

## Model

| member | source | states |
|---|---|---|
| Net.NextRead | receiver/FileReceiver.py:82 | a read of n bytes returns at most n bytes |
| Net.NextReadDelivers | receiver/FileReceiver.py:82-84 | a read of n > 0 bytes returns zero bytes exactly when the peer has closed; otherwise it returns the next bytes of the stream, and the remainder is exactly what later reads deliver (no byte lost or reordered) |
| Net.Connection.constructor | receiver/FileReceiver.py:110 | an accepted connection is open, has done nothing yet, and has the peer's whole input ahead of it |
| Net.Connection.Recv | receiver/FileReceiver.py:82 | `connection.recv(n)` consumes what `NextRead` returns, records the read, and leaves the connection open |
| Net.Connection.Send | receiver/FileReceiver.py:53 | `connection.send(data)` records the send and changes nothing else |
| Net.Connection.Close | receiver/FileReceiver.py:94 | `connection.close()` closes the connection; only the first close is recorded |
| Storage.Folder.Create | receiver/FileReceiver.py:79 | opening a file with `'wb'` leaves it present and empty, and leaves every other file unchanged |
| Storage.Folder.Append | receiver/FileReceiver.py:85 | `f.write(data)` appends data to that file only |
| FileTransfer.ReceiveLoop | receiver/FileReceiver.py:80-86 | the loop performs only reads; with a size of 0 or less it performs none |
| FileTransfer.ReceiveTurn | receiver/FileReceiver.py:82-86 | one turn of the loop performs only reads |
| FileTransfer.ReceiveLoopContent | receiver/FileReceiver.py:80-86 | the bytes the loop reads are the first `filesize` bytes the peer delivers, or all of them if it delivers fewer, and none when `filesize` is 0 or less |
| FileTransfer.ReceiveLoopBounded | receiver/FileReceiver.py:80-86 | the file never grows past the declared size |
| FileTransfer.ReceiveLoopReadAt | receiver/FileReceiver.py:81-82 | read i asks for `min(4096, remaining)`, where `remaining` is the size less the bytes read before it and is still positive; the read returns no more than it asked for |
| FileTransfer.ReceiveLoopReads | receiver/FileReceiver.py:81-82 | every read of the loop asks for `min(4096, remaining_bytes)` with `remaining_bytes` never negative, and returns at most that |
| FileTransfer.ReceiveLoopStops | receiver/FileReceiver.py:81-84 | no read happens iff the size is 0 or less, and the input is then untouched; every read but the last returns bytes; the last returns zero bytes iff the peer delivers fewer bytes than declared |
| Session.RequestExchange | receiver/FileReceiver.py:41-53 | acknowledged means: one non-empty read of 1024 bytes that decodes to a discovery request, followed by exactly one `RECEIVER_READY`; any other first message halts the session without finishing, and leaves the connection open exactly when its type is not `discovery` (otherwise it is read and then closed) |
| Session.MetadataExchange | receiver/FileReceiver.py:55-74 | agreed means: one non-empty read of 1024 bytes naming `filename` and `filesize`, followed by `RECEIVER_READY`; otherwise the session stops with zero bytes, the metadata JSON handler or the generic handler, after a read and a close |
| Session.Handle | receiver/FileReceiver.py:37-105 | the listening socket is closed by a session exactly when the session finished; the connection is left open exactly when the request's type was not `discovery`; no file is removed; a session ending by zero bytes, a type other than `discovery` or a JSON error writes nothing |
| Session.EmptyRequestAbandons | receiver/FileReceiver.py:42-46 | a peer that sends nothing: one read, a close, nothing written, listening socket as it was |
| Session.FirstMessageOutcomes | receiver/FileReceiver.py:48-105 | malformed JSON goes to the request's JSON handler; a non-object or a missing `type` goes to the generic handler, and both close after one read; another type gets no reply and the connection stays open; none of these writes a file or closes the listening socket; a discovery request is answered at once |
| Session.MetadataOutcomes | receiver/FileReceiver.py:56-69 | after the discovery acknowledgement, zero bytes, malformed JSON or a value lacking `filename` or `filesize` each end the session with their own handler, after exactly read, ack, read, close, with no file written and the listening socket as it was |
| Session.DiscoveryAcknowledged | receiver/FileReceiver.py:49-53 | a discovery request arriving whole is acknowledged, and the rest of the input is left unread |
| Session.MetadataAgreed | receiver/FileReceiver.py:62-74 | metadata naming a file, arriving whole, is acknowledged, and the rest of the input is left as the body |
| Session.HandshakeAgrees | receiver/FileReceiver.py:41-74 | a discovery request followed by valid metadata agrees on that file and leaves the body unread |
| Session.TransferWritesPrefix | receiver/FileReceiver.py:74-97 | a complete session finishes, closes both sockets, and leaves the file holding the first `filesize` bytes of the body; its trace is the two acknowledged reads, the loop's reads, then a close |
| Session.FullTransfer | receiver/FileReceiver.py:79-86 | a peer sending exactly the declared size leaves the file equal to its payload, and the server stops |
| Session.ShortTransfer | receiver/FileReceiver.py:81-84 | a peer closing after k bytes, fewer than declared, leaves exactly those k bytes; no error is raised and the server stops |
| Session.NonPositiveSize | receiver/FileReceiver.py:80-81 | a declared size of 0 or less reads no body, writes an empty file and finishes |
| Session.CollaboratorFailureKeepsListening | receiver/FileReceiver.py:90-105 | if a completion collaborator raises, the generic handler closes the connection, the file stays written and the listening socket stays as it was |
| Session.FinishedAcknowledgesTwice | receiver/FileReceiver.py:53-86 | a finished session sends `RECEIVER_READY` exactly twice, as events 2 and 4 of its trace; every later event is a body read until the final close; the file is the bytes of those reads |
| Lifecycle.Serve | receiver/FileReceiver.py:107-117 | the loop handles at most one session per arrival |
| Lifecycle.ServeHandlesConnections | receiver/FileReceiver.py:108-117 | only accepted connections are handled; a loop that stops on the timeout stops at an accept that timed out |
| Lifecycle.ServeEndsInOrder | receiver/FileReceiver.py:108-111 | one session per accepted connection, in arrival order: the i-th recorded end is how the session on the i-th connection ended |
| Lifecycle.ServeStopsOnlyTwoWays | receiver/FileReceiver.py:108-117 | of the modelled accept outcomes (a timeout or a connection), the loop stops either on a timeout, with no session finished, or right after the first session that finished; every other session, whatever its error, lets the loop accept again |
| Lifecycle.ServeTimesOutUnlessFinished | receiver/FileReceiver.py:112-117 | the loop stops on the timeout iff no session finished a transfer |
| Lifecycle.HelloScenario | receiver/FileReceiver.py:107-113 | a peer sending a discovery request, metadata for `a.txt` of 5 bytes and `hello` leaves `a.txt` holding `hello`, and the loop stops after that one session |
| Lifecycle.RetryAfterMalformedRequest | receiver/FileReceiver.py:99-113 | a malformed first attempt writes nothing and keeps the server listening; a valid second attempt receives its file and stops the loop |
| FileReceiver.NetworkFileReceiver.constructor | receiver/FileReceiver.py:23-27 | a new receiver has no listening socket |
| FileReceiver.NetworkFileReceiver.StartServer | receiver/FileReceiver.py:29-34 | after `start_server` the receiver is listening |
| FileReceiver.NetworkFileReceiver.ReceiveFile | receiver/FileReceiver.py:79-86 | the imperative loop performs exactly the reads of `ReceiveLoop`, leaves the connection open, and leaves the file holding exactly the bytes those reads returned |
| FileReceiver.NetworkFileReceiver.AwaitDiscovery | receiver/FileReceiver.py:41-53 | the discovery step does on the connection exactly what `RequestExchange` prescribes, and reports how the session halted if it did |
| FileReceiver.NetworkFileReceiver.AwaitMetadata | receiver/FileReceiver.py:55-74 | the metadata step does on the connection exactly what `MetadataExchange` prescribes, and returns the agreed file name and size |
| FileReceiver.NetworkFileReceiver.HandleRequest | receiver/FileReceiver.py:37-105 | `handle_request` ends as `Handle` prescribes. The connection's trace, unread input and open flag match `Handle`, and so do the folder and the listening socket. All of `Handle`'s proved properties therefore hold for it. |
| FileReceiver.NetworkFileReceiver.ListenForRequests | receiver/FileReceiver.py:107-117 | when every accept either times out or yields a connection, `listen_for_requests` ends with the listening socket closed, having handled the sessions `Serve` prescribes, with their ends, the timeout flag and the folder as `Serve` gives them |
| FileReceiver.ReceiveOnce | receiver/FileReceiver.py:120-123 | the intended use (new receiver, `start_server`, `listen_for_requests`) serves the arrivals exactly as `Serve` prescribes, from a folder holding the initial files |

## Left out

- Real sockets, binding and the listen backlog are not modelled. Accepted connections are scripted inputs, and accept results are a list of arrivals. An accept timeout is an arrival, and running out of arrivals counts as a timeout.
- A `recv` that blocks forever is not modelled. The end of a connection's script is the peer closing its side.
- A `recv` or `send` that raises (connection reset, broken pipe) at lines 42, 53, 56, 74 or 82 is not modelled: a scripted peer can only close cleanly. In the program the error reaches `except Exception` (lines 103-105), which closes the connection and leaves the listening socket open. An error during the receive loop also leaves the file holding the bytes written so far. That is the end state `Handle` gives for a raising collaborator, except that the trace stops at the failed read. The same handler catches a file-system error from `open` at line 79.
- An `accept()` (line 110) that fails with an `OSError` other than a timeout (too many open files, a pending network error) is not modelled: accept results are only a timeout or a connection. In the program the `except` at line 114 catches only `socket.timeout`, so such an error propagates out of `listen_for_requests` with the listening socket still open: a third way for the loop to end, beside the two `Lifecycle.ServeStopsOnlyTwoWays` states.
- JSON parsing and UTF-8 decoding are not modelled; they are a `Decoder` parameter. A `UnicodeDecodeError`, and a JSON value that is not an object, are both the case `NotAnObject`, which the generic handler catches.
- A `filename` or `filesize` of the wrong JSON type is not modelled; metadata is taken to carry a string name and an integer size. In the program:
  - a `filename` that is not a string makes `os.path.join` (line 79) raise `TypeError` before any file is created, and the generic handler closes the connection;
  - for every other `filesize`, line 79 has already created the file, empty, before the size is used;
  - a string or `null` `filesize` makes the comparison `remaining_bytes > 0` (line 81) raise `TypeError`; the generic handler closes the connection, leaves the empty file, and the listening socket stays open;
  - a float `filesize` of 0 or less finishes with an empty file, like an integer one; a larger float asks for 4096 bytes per read while at least 4096 remains, since `min` then returns the integer 4096 (each read may return fewer bytes). If the float reaches exactly 0 that way (such as 8192.0), or the peer closes early, the transfer finishes and the server stops. Otherwise `recv` receives a float below 4096 and raises `TypeError`; the generic handler keeps the partial file and the listening socket;
  - `true` and `false` behave as the sizes 1 and 0.
- The file system is reduced to a map from name to contents. Directory creation (lines 76-78), path joining and file-system errors are left out. Names are used verbatim, as the code does not sanitise them.
- The completion collaborators (`playsound`, `open_image`, lines 10-19 and 90-92) are not modelled. A session only records whether one of them raises.
- Logging with `print`, the peer `address`, and the configuration of host, port and timeout are not modelled.
- A connection left open after a type other than `discovery` is not reclaimed in the model. In the program, garbage collection eventually closes it.
- HandleRequest: requires an open connection but not a started server. In the program, a session finishing before `start_server` would call `close()` on `None`. The generic handler would catch the resulting `AttributeError`. The boolean `listening` field does not distinguish "never started" from "closed", so that case is not modelled.
- ListenForRequests: requires `listening`. Calling it before `start_server` would raise `AttributeError` out of the loop, which is not modelled.
