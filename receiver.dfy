/** `NetworkFileReceiver`: the listening socket as a field, the session
    handler and the accept loop, each proved against the specification
    functions of Session and Lifecycle. */
module FileReceiver {
  import opened Net
  import opened Storage
  import opened FileTransfer
  import opened Session
  import opened Lifecycle

  class NetworkFileReceiver {
    /** `receiver_socket` is open: created by StartServer, closed after a
        finished transfer or on an accept timeout. */
    var listening: bool

    constructor ()
      ensures !listening
    {
      listening := false;
    }

    /** start_server: bind, listen and arm the idle timeout. */
    method StartServer()
      modifies this
      ensures listening
    {
      listening := true;
    }

    /** The receive loop: open the file for writing, then read at most
        min(4096, remaining_bytes) at a time until remaining_bytes reaches 0
        or a read returns zero bytes, appending each chunk. */
    method ReceiveFile(conn: Connection, folder: Folder, filename: string, filesize: int)
      requires conn.open
      modifies conn, folder
      ensures var transfer := ReceiveLoop(old(conn.pending), filesize);
        conn.trace == old(conn.trace) + transfer.0 && conn.pending == transfer.1 && conn.open &&
        folder.files == old(folder.files)[filename := BytesRead(transfer.0)]
    {
      ghost var start := conn.trace;
      ghost var goal := ReceiveLoop(conn.pending, filesize);
      ghost var done: seq<Event> := [];
      ghost var written: seq<bv8> := [];
      folder.Create(filename);
      var remaining := filesize;
      while remaining > 0
        invariant conn.open
        invariant conn.trace == start + done
        invariant goal.0 == done + ReceiveLoop(conn.pending, remaining).0
        invariant goal.1 == ReceiveLoop(conn.pending, remaining).1
        invariant written == BytesRead(done)
        invariant folder.files == old(folder.files)[filename := written]
        invariant |written| + remaining == filesize
        invariant filesize > 0 ==> remaining >= 0
        decreases remaining
      {
        ghost var before := conn.pending;
        var data := conn.Recv(Min(ChunkSize, remaining));
        ReceiveLoopTurn(goal, done, before, remaining, data, conn.pending);
        done := done + [Received(Min(ChunkSize, remaining), data)];
        if data == [] {
          break;
        }
        written := written + data;
        folder.Append(filename, data);
        remaining := remaining - |data|;
      }
      assert goal.0 == done;
    }

    /** The discovery step of handle_request: read the request, stop on
        zero bytes, malformed JSON, a value without 'type' or a type other
        than 'discovery', and otherwise acknowledge it. */
    method AwaitDiscovery(conn: Connection, decode: Decoder) returns (halt: Option<SessionEnd>)
      requires conn.open
      modifies conn
      ensures var x := RequestExchange(old(conn.pending), decode);
        conn.trace == old(conn.trace) + x.trace && conn.pending == x.rest &&
        if x.Acknowledged? then halt == None && conn.open
        else halt == Some(x.end) && conn.open == x.connOpen
    {
      var data := conn.Recv(HandshakeReadSize);
      if data == [] {
        conn.Close();
        return Some(NoData(DiscoveryStep));
      }
      var request := decode(data);
      if request.BadJson? {
        conn.Close();
        return Some(Caught(RequestJsonHandler));
      }
      if request.NotAnObject? || request.kind.None? {
        conn.Close();
        return Some(Caught(GenericHandler));
      }
      if request.kind.value != DiscoveryType {
        return Some(NotDiscovery);
      }
      conn.Send(ReceiverReady);
      return None;
    }

    /** The metadata step of handle_request: read the metadata, stop on zero
        bytes, malformed JSON or a missing 'filename' or 'filesize', and
        otherwise acknowledge it and name the file. */
    method AwaitMetadata(conn: Connection, decode: Decoder)
      returns (halt: Option<SessionEnd>, filename: string, filesize: int)
      requires conn.open
      modifies conn
      ensures var h := MetadataExchange(old(conn.pending), decode);
        conn.trace == old(conn.trace) + h.trace && conn.pending == h.rest &&
        if h.Agreed? then halt == None && conn.open && filename == h.filename && filesize == h.filesize
        else halt == Some(h.end) && !conn.open
    {
      filename, filesize := "", 0;
      var data := conn.Recv(HandshakeReadSize);
      if data == [] {
        conn.Close();
        return Some(NoData(MetadataStep)), filename, filesize;
      }
      var info := decode(data);
      if info.BadJson? {
        conn.Close();
        return Some(Caught(MetadataJsonHandler)), filename, filesize;
      }
      if info.NotAnObject? || info.filename.None? || info.filesize.None? {
        conn.Close();
        return Some(Caught(GenericHandler)), filename, filesize;
      }
      conn.Send(ReceiverReady);
      return None, info.filename.value, info.filesize.value;
    }

    /** handle_request on an accepted connection. */
    method HandleRequest(conn: Connection, folder: Folder, decode: Decoder, collaboratorsRaise: bool)
      returns (end: SessionEnd)
      requires conn.open
      modifies this, conn, folder
      ensures var s := Handle(old(conn.pending), decode, collaboratorsRaise, old(folder.files), old(listening));
        end == s.end && conn.trace == old(conn.trace) + s.trace && conn.pending == s.rest &&
        conn.open == s.connOpen && folder.files == s.files && listening == s.listening
    {
      ghost var before := conn.trace;
      HandleSteps(conn.pending, decode, collaboratorsRaise, folder.files, listening);
      ghost var x := RequestExchange(conn.pending, decode);
      var halt := AwaitDiscovery(conn, decode);
      if halt.Some? {
        return halt.value;
      }
      ghost var h := MetadataExchange(conn.pending, decode);
      var filename, filesize;
      halt, filename, filesize := AwaitMetadata(conn, decode);
      AppendAssociates(before, x.trace, h.trace);
      if halt.Some? {
        return halt.value;
      }
      ghost var t := ReceiveLoop(conn.pending, filesize).0;
      ReceiveFile(conn, folder, filename, filesize);
      AppendAssociates(before, x.trace + h.trace, t);
      AppendAssociates(before, x.trace + h.trace + t, [Closed]);
      if collaboratorsRaise {
        conn.Close();
        return Caught(GenericHandler);
      }
      conn.Close();
      listening := false;
      return Finished;
    }

    /** listen_for_requests: accept and handle connections until the
        listening socket is closed by a finished transfer or by an accept
        timeout. Returns how each session ended and whether it stopped on
        the timeout. */
    method ListenForRequests(arrivals: seq<Arrival>, folder: Folder, decode: Decoder)
      returns (ends: seq<SessionEnd>, timedOut: bool)
      requires listening
      modifies this, folder
      ensures !listening
      ensures Serve(arrivals, decode, old(folder.files)) == Service(ends, timedOut, folder.files)
    {
      ends, timedOut := [], false;
      var incoming := arrivals;
      while true
        invariant listening
        invariant var r := Serve(incoming, decode, folder.files);
          Serve(arrivals, decode, old(folder.files)) == Service(ends + r.ends, r.timedOut, r.files)
        decreases |incoming|
      {
        if incoming == [] || incoming[0].Timeout? {
          listening := false;
          timedOut := true;
          break;
        }
        var conn := new Connection(incoming[0].chunks);
        ServeAccepts(incoming, decode, folder.files);
        var end := HandleRequest(conn, folder, decode, incoming[0].collaboratorsRaise);
        ghost var r := Serve(incoming[1..], decode, folder.files);
        AppendAssociates(ends, [end], r.ends);
        ends := ends + [end];
        incoming := incoming[1..];
        if !listening {
          break;
        }
      }
    }
  }

  /** The intended use: create a receiver, start its server and listen
      until it stops, receiving into a folder that holds `initial`. */
  method ReceiveOnce(arrivals: seq<Arrival>, decode: Decoder, initial: map<string, Chunk>)
    returns (ends: seq<SessionEnd>, timedOut: bool, files: map<string, Chunk>)
    ensures Serve(arrivals, decode, initial) == Service(ends, timedOut, files)
  {
    var receiver := new NetworkFileReceiver();
    var folder := new Folder(initial);
    receiver.StartServer();
    ends, timedOut := receiver.ListenForRequests(arrivals, folder, decode);
    files := folder.files;
  }
}
