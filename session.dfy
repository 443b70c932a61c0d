/** One connection handled by `NetworkFileReceiver.handle_request`: the
    two-message handshake, the file-receive loop and the completion path,
    as a function of what the peer sends. */
module Session {
  import opened Net
  import opened FileTransfer

  /** The size of each of the two handshake reads. */
  const HandshakeReadSize: nat := 1024

  /** The literal acknowledgement b'RECEIVER_READY'. */
  const ReceiverReady: Chunk :=
    [0x52, 0x45, 0x43, 0x45, 0x49, 0x56, 0x45, 0x52, 0x5F, 0x52, 0x45, 0x41, 0x44, 0x59]

  /** The value of `type` that starts a transfer. */
  const DiscoveryType: string := "discovery"

  /** What `json.loads(data.decode())` makes of a handshake message, to the
      extent that the handler looks at it. */
  datatype Message =
    | BadJson        // json.loads raises json.JSONDecodeError
    | NotAnObject    // .decode() raises, or the JSON value cannot be indexed by a key
    | Object(kind: Option<string>, filename: Option<string>, filesize: Option<int>)
                     // a JSON object; None for each of 'type', 'filename', 'filesize' it lacks

  /** request['type'] == 'discovery' holds. */
  predicate IsDiscovery(m: Message)
  {
    m.Object? && m.kind == Some(DiscoveryType)
  }

  /** file_info['filename'] and file_info['filesize'] both exist. */
  predicate IsMetadata(m: Message, filename: string, filesize: int)
  {
    m.Object? && m.filename == Some(filename) && m.filesize == Some(filesize)
  }

  /** The parser is not modelled: it is a parameter. */
  type Decoder = Chunk -> Message

  datatype Step = DiscoveryStep | MetadataStep

  /** The `except` clause that caught the error and closed the connection. */
  datatype Handler =
    | RequestJsonHandler    // `except json.JSONDecodeError` around the request
    | MetadataJsonHandler   // `except json.JSONDecodeError` around the metadata
    | GenericHandler        // `except Exception` around the whole session

  /** How a session ended. */
  datatype SessionEnd =
    | NoData(step: Step)    // a handshake read returned zero bytes
    | Caught(handler: Handler)
    | NotDiscovery          // the request's type was not 'discovery'
    | Finished              // file received, collaborators called, server stopped

  /** After the discovery request: acknowledged, or the session stopped. */
  datatype Exchange =
    | Acknowledged(trace: seq<Event>, rest: seq<Chunk>)
    | Halted(end: SessionEnd, trace: seq<Event>, rest: seq<Chunk>, connOpen: bool)

  /** After the metadata: the handshake agreed on a file, or the session stopped. */
  datatype Agreement =
    | Agreed(filename: string, filesize: int, trace: seq<Event>, rest: seq<Chunk>)
    | Stopped(end: SessionEnd, trace: seq<Event>, rest: seq<Chunk>, connOpen: bool)

  /** What one session leaves behind: how it ended, what it did on the
      connection, the input it left unread, whether the connection is still
      open, the receive folder, and whether the listening socket is open. */
  datatype Outcome = Outcome(
    end: SessionEnd, trace: seq<Event>, rest: seq<Chunk>, connOpen: bool,
    files: map<string, Chunk>, listening: bool)

  /** The first step: read the request; stop on zero bytes, on malformed
      JSON, on a value without 'type' and on a type other than 'discovery'
      (the only stop that leaves the connection open); otherwise send
      RECEIVER_READY. */
  function RequestExchange(pending: seq<Chunk>, decode: Decoder): (x: Exchange)
    ensures x.Acknowledged? ==>
      |x.trace| == 2 && x.trace[0].Received? && x.trace[0].asked == HandshakeReadSize &&
      x.trace[0].data != [] && IsDiscovery(decode(x.trace[0].data)) &&
      x.trace[1] == Sent(ReceiverReady)
    ensures x.Halted? ==>
      x.end != Finished && x.end != NoData(MetadataStep) &&
      (x.connOpen <==> x.end == NotDiscovery) && |x.trace| == (if x.connOpen then 1 else 2) &&
      x.trace[0].Received? && (!x.connOpen ==> x.trace[1] == Closed)
  {
    var request := NextRead(pending, HandshakeReadSize);
    var read := [Received(HandshakeReadSize, request.0)];
    if request.0 == [] then Halted(NoData(DiscoveryStep), read + [Closed], request.1, false)
    else match decode(request.0)
      case BadJson => Halted(Caught(RequestJsonHandler), read + [Closed], request.1, false)
      case NotAnObject => Halted(Caught(GenericHandler), read + [Closed], request.1, false)
      case Object(kind, _, _) =>
        if kind.None? then Halted(Caught(GenericHandler), read + [Closed], request.1, false)
        else if kind.value != DiscoveryType then Halted(NotDiscovery, read, request.1, true)
        else Acknowledged(read + [Sent(ReceiverReady)], request.1)
  }

  /** The second step: read the metadata; stop on zero bytes, on malformed
      JSON and on a value lacking 'filename' or 'filesize', always closing
      the connection; otherwise send RECEIVER_READY again and agree on the
      file. */
  function MetadataExchange(pending: seq<Chunk>, decode: Decoder): (h: Agreement)
    ensures h.Agreed? ==>
      |h.trace| == 2 && h.trace[0].Received? && h.trace[0].asked == HandshakeReadSize &&
      h.trace[0].data != [] && IsMetadata(decode(h.trace[0].data), h.filename, h.filesize) &&
      h.trace[1] == Sent(ReceiverReady)
    ensures h.Stopped? ==>
      (h.end == NoData(MetadataStep) || h.end == Caught(MetadataJsonHandler) || h.end == Caught(GenericHandler)) &&
      |h.trace| == 2 && h.trace[0].Received? && h.trace[1] == Closed && !h.connOpen
  {
    var metadata := NextRead(pending, HandshakeReadSize);
    var read := [Received(HandshakeReadSize, metadata.0)];
    if metadata.0 == [] then Stopped(NoData(MetadataStep), read + [Closed], metadata.1, false)
    else match decode(metadata.0)
      case BadJson => Stopped(Caught(MetadataJsonHandler), read + [Closed], metadata.1, false)
      case NotAnObject => Stopped(Caught(GenericHandler), read + [Closed], metadata.1, false)
      case Object(_, filename, filesize) =>
        if filename.None? || filesize.None? then Stopped(Caught(GenericHandler), read + [Closed], metadata.1, false)
        else Agreed(filename.value, filesize.value, read + [Sent(ReceiverReady)], metadata.1)
  }

  /** handle_request: the two handshake steps; then the file is created
      (empty), filled by the receive loop and closed, and the completion
      collaborators run. If one of them raises, the generic handler closes
      the connection and the listening socket stays open; otherwise the
      connection and the listening socket are both closed. */
  function Handle(pending: seq<Chunk>, decode: Decoder, collaboratorsRaise: bool,
                  files: map<string, Chunk>, listening: bool): (s: Outcome)
    ensures s.listening == (listening && s.end != Finished)
    ensures s.connOpen <==> s.end == NotDiscovery
    ensures s.files.Keys >= files.Keys
    ensures s.end.NoData? || s.end == NotDiscovery || (s.end.Caught? && s.end.handler != GenericHandler)
      ==> s.files == files
  {
    match RequestExchange(pending, decode)
    case Halted(end, trace, rest, open) => Outcome(end, trace, rest, open, files, listening)
    case Acknowledged(request, afterRequest) =>
      match MetadataExchange(afterRequest, decode)
      case Stopped(end, trace, rest, open) => Outcome(end, request + trace, rest, open, files, listening)
      case Agreed(filename, filesize, metadata, body) =>
        var transfer := ReceiveLoop(body, filesize);
        var trace := request + metadata + transfer.0 + [Closed];
        var written := files[filename := BytesRead(transfer.0)];
        if collaboratorsRaise then
          Outcome(Caught(GenericHandler), trace, transfer.1, false, written, listening)
        else
          Outcome(Finished, trace, transfer.1, false, written, false)
  }

  /** Handle, read off the two handshake steps: a halted request, a
      stopped metadata step, or an agreed file. */
  lemma HandleSteps(pending: seq<Chunk>, decode: Decoder, collaboratorsRaise: bool,
                    files: map<string, Chunk>, listening: bool)
    ensures var x := RequestExchange(pending, decode);
      var h := MetadataExchange(x.rest, decode);
      var s := Handle(pending, decode, collaboratorsRaise, files, listening);
      (x.Halted? ==> s == Outcome(x.end, x.trace, x.rest, x.connOpen, files, listening)) &&
      (x.Acknowledged? && h.Stopped? ==> s == Outcome(h.end, x.trace + h.trace, h.rest, false, files, listening)) &&
      (x.Acknowledged? && h.Agreed? ==>
        var t := ReceiveLoop(h.rest, h.filesize);
        s == Outcome(if collaboratorsRaise then Caught(GenericHandler) else Finished,
                     x.trace + h.trace + t.0 + [Closed], t.1, false,
                     files[h.filename := BytesRead(t.0)], listening && collaboratorsRaise))
  {
  }

  /** A peer that closes without sending anything: the first read returns
      zero bytes, the connection is closed, nothing is written and the
      listening socket is left as it was. */
  lemma EmptyRequestAbandons(pending: seq<Chunk>, decode: Decoder, collaboratorsRaise: bool,
                             files: map<string, Chunk>, listening: bool)
    requires Delivered(pending) == []
    ensures var s := Handle(pending, decode, collaboratorsRaise, files, listening);
      s.end == NoData(DiscoveryStep) &&
      s.trace == [Received(HandshakeReadSize, []), Closed] &&
      !s.connOpen && s.files == files && s.listening == listening
  {
  }

  /** The first message decides: malformed JSON is caught by the request's
      JSON handler; a value that is not an object, or an object without
      'type', raises an error caught by the generic handler; in both cases
      the connection is closed. A type other than 'discovery' gets no reply
      and the connection is left open. In none of these is a file written or
      the listening socket closed. A discovery request is acknowledged at once. */
  lemma FirstMessageOutcomes(request: Chunk, later: seq<Chunk>, decode: Decoder,
                             collaboratorsRaise: bool, files: map<string, Chunk>, listening: bool)
    requires 0 < |request| <= HandshakeReadSize
    ensures var s := Handle([request] + later, decode, collaboratorsRaise, files, listening);
      var m := decode(request);
      (m == BadJson ==>
        s.end == Caught(RequestJsonHandler) && s.trace == [Received(HandshakeReadSize, request), Closed]) &&
      (m == NotAnObject || (m.Object? && m.kind == None) ==>
        s.end == Caught(GenericHandler) && s.trace == [Received(HandshakeReadSize, request), Closed]) &&
      (m.Object? && m.kind.Some? && m.kind.value != DiscoveryType ==>
        s.end == NotDiscovery && s.trace == [Received(HandshakeReadSize, request)] && s.connOpen) &&
      (!IsDiscovery(m) ==> s.files == files && s.listening == listening) &&
      (IsDiscovery(m) ==>
        |s.trace| >= 3 && s.trace[..2] == [Received(HandshakeReadSize, request), Sent(ReceiverReady)])
  {
    assert ([request] + later)[1..] == later;
  }

  /** After an acknowledged discovery request, the metadata message decides:
      zero bytes abandon the session; malformed JSON is caught by the
      metadata's JSON handler; a value that is not an object, or an object
      lacking 'filename' or 'filesize', raises a KeyError that only the
      generic handler catches. Each closes the connection, writes no file and
      leaves the listening socket as it was, after exactly one
      acknowledgement. */
  lemma MetadataOutcomes(request: Chunk, metadata: Chunk, later: seq<Chunk>, decode: Decoder,
                         collaboratorsRaise: bool, files: map<string, Chunk>, listening: bool)
    requires 0 < |request| <= HandshakeReadSize && IsDiscovery(decode(request))
    requires |metadata| <= HandshakeReadSize
    ensures var s := Handle([request, metadata] + later, decode, collaboratorsRaise, files, listening);
      var m := decode(metadata);
      var handshake := [Received(HandshakeReadSize, request), Sent(ReceiverReady),
                        Received(HandshakeReadSize, metadata), Closed];
      (metadata == [] ==> s.end == NoData(MetadataStep)) &&
      (metadata != [] && m == BadJson ==> s.end == Caught(MetadataJsonHandler)) &&
      (metadata != [] && (m == NotAnObject || (m.Object? && (m.filename == None || m.filesize == None))) ==>
        s.end == Caught(GenericHandler)) &&
      (metadata == [] || !m.Object? || m.filename == None || m.filesize == None ==>
        s.trace == handshake && !s.connOpen && s.files == files && s.listening == listening)
  {
    var pending := [request, metadata] + later;
    assert pending[0] == request;
    assert pending[1..] == [metadata] + later;
    assert ([metadata] + later)[1..] == later;
  }

  /** A discovery request that arrives whole is acknowledged; the rest of
      the input is left for the metadata read. */
  lemma DiscoveryAcknowledged(request: Chunk, later: seq<Chunk>, decode: Decoder)
    requires 0 < |request| <= HandshakeReadSize && IsDiscovery(decode(request))
    ensures RequestExchange([request] + later, decode) ==
      Acknowledged([Received(HandshakeReadSize, request), Sent(ReceiverReady)], later)
  {
    assert ([request] + later)[1..] == later;
  }

  /** Metadata that arrives whole and names a file is acknowledged; the rest
      of the input is the file's body. */
  lemma MetadataAgreed(metadata: Chunk, body: seq<Chunk>, decode: Decoder,
                       filename: string, filesize: int)
    requires 0 < |metadata| <= HandshakeReadSize && IsMetadata(decode(metadata), filename, filesize)
    ensures MetadataExchange([metadata] + body, decode) ==
      Agreed(filename, filesize, [Received(HandshakeReadSize, metadata), Sent(ReceiverReady)], body)
  {
    assert ([metadata] + body)[1..] == body;
  }

  /** The handshake of a peer that sends a discovery request and then the
      metadata of a file agrees on that file, leaving the body unread. */
  lemma HandshakeAgrees(request: Chunk, metadata: Chunk, body: seq<Chunk>, decode: Decoder,
                        filename: string, filesize: int)
    requires 0 < |request| <= HandshakeReadSize && IsDiscovery(decode(request))
    requires 0 < |metadata| <= HandshakeReadSize && IsMetadata(decode(metadata), filename, filesize)
    ensures var x := RequestExchange([request, metadata] + body, decode);
      x == Acknowledged([Received(HandshakeReadSize, request), Sent(ReceiverReady)], [metadata] + body) &&
      MetadataExchange(x.rest, decode) ==
        Agreed(filename, filesize, [Received(HandshakeReadSize, metadata), Sent(ReceiverReady)], body)
  {
    assert [request, metadata] + body == [request] + ([metadata] + body);
    DiscoveryAcknowledged(request, [metadata] + body, decode);
    MetadataAgreed(metadata, body, decode, filename, filesize);
  }

  /** A complete session: both acknowledgements, then the file holds the
      first `filesize` bytes the peer sends after the metadata (all of them
      if it sends fewer), both sockets are closed and the session counts as
      finished whether or not the peer sent the declared size. */
  lemma TransferWritesPrefix(request: Chunk, metadata: Chunk, body: seq<Chunk>, decode: Decoder,
                             filename: string, filesize: int, files: map<string, Chunk>, listening: bool)
    requires 0 < |request| <= HandshakeReadSize && IsDiscovery(decode(request))
    requires 0 < |metadata| <= HandshakeReadSize && IsMetadata(decode(metadata), filename, filesize)
    ensures var s := Handle([request, metadata] + body, decode, false, files, listening);
      s.end == Finished && !s.connOpen && !s.listening &&
      s.files == files[filename := Take(Delivered(body), filesize)] &&
      s.trace == [Received(HandshakeReadSize, request), Sent(ReceiverReady),
                  Received(HandshakeReadSize, metadata), Sent(ReceiverReady)]
                 + ReceiveLoop(body, filesize).0 + [Closed]
  {
    HandshakeAgrees(request, metadata, body, decode, filename, filesize);
    ReceiveLoopContent(body, filesize);
  }

  /** A peer that sends exactly the declared size: the file is its payload. */
  lemma FullTransfer(request: Chunk, metadata: Chunk, body: seq<Chunk>, decode: Decoder,
                     filename: string, files: map<string, Chunk>, listening: bool)
    requires 0 < |request| <= HandshakeReadSize && IsDiscovery(decode(request))
    requires 0 < |metadata| <= HandshakeReadSize && IsMetadata(decode(metadata), filename, |Delivered(body)|)
    ensures var s := Handle([request, metadata] + body, decode, false, files, listening);
      s.end == Finished && s.files == files[filename := Delivered(body)] && !s.listening
  {
    TransferWritesPrefix(request, metadata, body, decode, filename, |Delivered(body)|, files, listening);
  }

  /** A peer that closes after k bytes, fewer than it declared: the file
      holds exactly those k bytes, no error is raised and the completion
      path still runs, stopping the server. */
  lemma ShortTransfer(request: Chunk, metadata: Chunk, body: seq<Chunk>, decode: Decoder,
                      filename: string, filesize: int, files: map<string, Chunk>, listening: bool)
    requires 0 < |request| <= HandshakeReadSize && IsDiscovery(decode(request))
    requires 0 < |metadata| <= HandshakeReadSize && IsMetadata(decode(metadata), filename, filesize)
    requires |Delivered(body)| < filesize
    ensures var s := Handle([request, metadata] + body, decode, false, files, listening);
      s.end == Finished && s.files == files[filename := Delivered(body)] &&
      |s.files[filename]| < filesize && !s.listening
  {
    TransferWritesPrefix(request, metadata, body, decode, filename, filesize, files, listening);
  }

  /** A declared size of 0 or less: no read of the body, an empty file, and
      the completion path taken. */
  lemma NonPositiveSize(request: Chunk, metadata: Chunk, body: seq<Chunk>, decode: Decoder,
                        filename: string, filesize: int, files: map<string, Chunk>, listening: bool)
    requires 0 < |request| <= HandshakeReadSize && IsDiscovery(decode(request))
    requires 0 < |metadata| <= HandshakeReadSize && IsMetadata(decode(metadata), filename, filesize)
    requires filesize <= 0
    ensures var s := Handle([request, metadata] + body, decode, false, files, listening);
      s.end == Finished && s.files == files[filename := []] && s.rest == body &&
      s.trace == [Received(HandshakeReadSize, request), Sent(ReceiverReady),
                  Received(HandshakeReadSize, metadata), Sent(ReceiverReady), Closed]
  {
    HandshakeAgrees(request, metadata, body, decode, filename, filesize);
  }

  /** If a completion collaborator raises, the generic handler closes the
      connection but not the listening socket: the file is on disk, yet the
      server goes on accepting. */
  lemma CollaboratorFailureKeepsListening(request: Chunk, metadata: Chunk, body: seq<Chunk>,
                                          decode: Decoder, filename: string, filesize: int,
                                          files: map<string, Chunk>, listening: bool)
    requires 0 < |request| <= HandshakeReadSize && IsDiscovery(decode(request))
    requires 0 < |metadata| <= HandshakeReadSize && IsMetadata(decode(metadata), filename, filesize)
    ensures var s := Handle([request, metadata] + body, decode, true, files, listening);
      s.end == Caught(GenericHandler) && !s.connOpen && s.listening == listening &&
      s.files == files[filename := Take(Delivered(body), filesize)]
  {
    HandshakeAgrees(request, metadata, body, decode, filename, filesize);
    ReceiveLoopContent(body, filesize);
  }

  /** On a finished session RECEIVER_READY is sent exactly twice, after the
      first and after the second read, and every later event is a read of
      the file body until the final close: both acknowledgements precede the
      first byte of the file, which is made of the bytes of those reads. */
  lemma FinishedAcknowledgesTwice(pending: seq<Chunk>, decode: Decoder,
                                  files: map<string, Chunk>, listening: bool)
    ensures var s := Handle(pending, decode, false, files, listening);
      s.end == Finished ==>
        var h := MetadataExchange(RequestExchange(pending, decode).rest, decode);
        h.Agreed? &&
        |s.trace| >= 5 &&
        s.trace[1] == Sent(ReceiverReady) && s.trace[3] == Sent(ReceiverReady) &&
        (forall i :: 0 <= i < |s.trace| && s.trace[i].Sent? ==> i == 1 || i == 3) &&
        (forall i :: 4 <= i < |s.trace| - 1 ==> s.trace[i].Received?) &&
        s.trace[|s.trace| - 1] == Closed &&
        s.files[h.filename] == BytesRead(s.trace[4..])
  {
    var s := Handle(pending, decode, false, files, listening);
    var x := RequestExchange(pending, decode);
    var h := MetadataExchange(x.rest, decode);
    HandleSteps(pending, decode, false, files, listening);
    if s.end == Finished {
      var evs := ReceiveLoop(h.rest, h.filesize).0;
      var handshake := x.trace + h.trace;
      AppendAssociates(handshake, evs, [Closed]);
      assert handshake[1] == Sent(ReceiverReady) && handshake[3] == Sent(ReceiverReady);
      forall i | 0 <= i < |s.trace|
        ensures s.trace[i].Sent? ==> i == 1 || i == 3
        ensures 4 <= i < |s.trace| - 1 ==> s.trace[i].Received?
      {
        if i >= 4 {
          assert s.trace[i] == (evs + [Closed])[i - 4];
        }
      }
      assert s.trace[4..] == evs + [Closed];
      BytesReadAppend(evs, [Closed]);
      assert BytesRead([Closed]) == [];
    }
  }
}
