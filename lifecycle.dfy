/** The accept loop of `listen_for_requests`, as a function of what arrives
    at the listening socket: keep accepting and handling connections until an
    accept times out or a session closes the listening socket. */
module Lifecycle {
  import opened Net
  import opened Session

  /** The result of one accept(): the idle timeout expired, or a peer
      connected; the peer's script says what it sends and whether the
      completion collaborators will raise during its session. */
  datatype Arrival =
    | Timeout
    | Connect(chunks: seq<Chunk>, collaboratorsRaise: bool)

  /** How the service ran: the end of each session in order, whether it
      stopped on an accept timeout, and the receive folder afterwards. */
  datatype Service = Service(ends: seq<SessionEnd>, timedOut: bool, files: map<string, Chunk>)

  /** The loop, started with the listening socket open. Running out of
      scripted arrivals stands for no further peer: the accept times out. */
  function Serve(arrivals: seq<Arrival>, decode: Decoder, files: map<string, Chunk>): (r: Service)
    ensures |r.ends| <= |arrivals|
    decreases |arrivals|
  {
    if arrivals == [] || arrivals[0].Timeout? then Service([], true, files)
    else
      var s := Handle(arrivals[0].chunks, decode, arrivals[0].collaboratorsRaise, files, true);
      if !s.listening then Service([s.end], false, s.files)
      else
        var r := Serve(arrivals[1..], decode, s.files);
        Service([s.end] + r.ends, r.timedOut, r.files)
  }

  /** One turn of the loop: the connection accepted first is handled, and
      the loop goes on with the rest only if the listening socket is open. */
  lemma ServeAccepts(arrivals: seq<Arrival>, decode: Decoder, files: map<string, Chunk>)
    requires arrivals != [] && arrivals[0].Connect?
    ensures var s := Handle(arrivals[0].chunks, decode, arrivals[0].collaboratorsRaise, files, true);
      var r := Serve(arrivals[1..], decode, s.files);
      Serve(arrivals, decode, files) ==
        if s.listening then Service([s.end] + r.ends, r.timedOut, r.files) else Service([s.end], false, s.files)
  {
  }

  /** How a session ends depends only on what its peer sends and on whether
      the collaborators raise, not on the folder or the listening socket. */
  lemma SessionEndIgnoresState(pending: seq<Chunk>, decode: Decoder, collaboratorsRaise: bool,
                               files: map<string, Chunk>, listening: bool)
    ensures Handle(pending, decode, collaboratorsRaise, files, listening).end ==
            Handle(pending, decode, collaboratorsRaise, map[], true).end
  {
  }

  /** Only connections are handled, and a loop that stops on the timeout
      stops at an accept that timed out (or when no peer is left). */
  lemma {:induction false} ServeHandlesConnections(arrivals: seq<Arrival>, decode: Decoder,
                                                   files: map<string, Chunk>)
    ensures var r := Serve(arrivals, decode, files);
      (forall i :: 0 <= i < |r.ends| ==> arrivals[i].Connect?) &&
      (r.timedOut ==> |r.ends| == |arrivals| || arrivals[|r.ends|].Timeout?)
    decreases |arrivals|
  {
    if arrivals != [] && arrivals[0].Connect? {
      var s := Handle(arrivals[0].chunks, decode, arrivals[0].collaboratorsRaise, files, true);
      if s.listening {
        ServeHandlesConnections(arrivals[1..], decode, s.files);
        var r := Serve(arrivals[1..], decode, s.files);
        forall i | 1 <= i < 1 + |r.ends|
          ensures arrivals[i].Connect?
        {
          assert arrivals[i] == arrivals[1..][i - 1];
        }
      }
    }
  }

  /** One session per connection, in arrival order: the i-th end is how the
      session on the i-th arrival ended. */
  lemma {:induction false} ServeEndsInOrder(arrivals: seq<Arrival>, decode: Decoder,
                                            files: map<string, Chunk>)
    ensures var r := Serve(arrivals, decode, files);
      forall i :: 0 <= i < |r.ends| ==>
        arrivals[i].Connect? &&
        r.ends[i] == Handle(arrivals[i].chunks, decode, arrivals[i].collaboratorsRaise, map[], true).end
    decreases |arrivals|
  {
    if arrivals != [] && arrivals[0].Connect? {
      ServeAccepts(arrivals, decode, files);
      var s := Handle(arrivals[0].chunks, decode, arrivals[0].collaboratorsRaise, files, true);
      SessionEndIgnoresState(arrivals[0].chunks, decode, arrivals[0].collaboratorsRaise, files, true);
      if s.listening {
        ServeEndsInOrder(arrivals[1..], decode, s.files);
        var r := Serve(arrivals[1..], decode, s.files);
        var ends := [s.end] + r.ends;
        forall i | 1 <= i < |ends|
          ensures arrivals[i].Connect?
          ensures ends[i] == Handle(arrivals[i].chunks, decode, arrivals[i].collaboratorsRaise, map[], true).end
        {
          assert arrivals[i] == arrivals[1..][i - 1];
          assert ends[i] == r.ends[i - 1];
        }
      }
    }
  }

  /** The loop stops in exactly two ways. Either an accept timed out and no
      session finished a transfer; or the last session handled finished a
      transfer (closing the listening socket) and no earlier one did. Every
      other session, whatever error ended it, leaves the loop accepting the
      next connection. */
  lemma {:induction false} ServeStopsOnlyTwoWays(arrivals: seq<Arrival>, decode: Decoder,
                                                 files: map<string, Chunk>)
    ensures var r := Serve(arrivals, decode, files);
      (forall i :: 0 <= i < |r.ends| ==> (r.ends[i] == Finished <==> !r.timedOut && i == |r.ends| - 1)) &&
      (!r.timedOut ==> r.ends != [])
    decreases |arrivals|
  {
    if arrivals != [] && arrivals[0].Connect? {
      var s := Handle(arrivals[0].chunks, decode, arrivals[0].collaboratorsRaise, files, true);
      if s.listening {
        var r := Serve(arrivals[1..], decode, s.files);
        ServeStopsOnlyTwoWays(arrivals[1..], decode, s.files);
        var ends := [s.end] + r.ends;
        assert forall i :: 1 <= i < |ends| ==> ends[i] == r.ends[i - 1];
      }
    }
  }

  /** Hence the loop stopped on the timeout exactly when no session finished
      a transfer. */
  lemma ServeTimesOutUnlessFinished(arrivals: seq<Arrival>, decode: Decoder, files: map<string, Chunk>)
    ensures var r := Serve(arrivals, decode, files);
      r.timedOut <==> Finished !in r.ends
  {
    ServeStopsOnlyTwoWays(arrivals, decode, files);
    var r := Serve(arrivals, decode, files);
    if !r.timedOut {
      assert r.ends[|r.ends| - 1] == Finished;
    }
  }

  /** The bytes b"hello". */
  const Hello: Chunk := [0x68, 0x65, 0x6C, 0x6C, 0x6F]

  /** A peer that sends a discovery request, the metadata of a.txt of 5
      bytes and then b"hello" leaves a.txt holding exactly those 5 bytes,
      and the loop stops after that one session. */
  lemma HelloScenario(request: Chunk, metadata: Chunk, decode: Decoder, files: map<string, Chunk>)
    requires 0 < |request| <= HandshakeReadSize && decode(request) == Object(Some(DiscoveryType), None, None)
    requires 0 < |metadata| <= HandshakeReadSize && decode(metadata) == Object(None, Some("a.txt"), Some(5))
    ensures Serve([Connect([request, metadata, Hello], false)], decode, files) ==
      Service([Finished], false, files["a.txt" := Hello])
  {
    assert Delivered([Hello]) == Hello;
    FullTransfer(request, metadata, [Hello], decode, "a.txt", files, true);
  }

  /** Malformed JSON in a first attempt is harmless: the connection is
      closed, nothing is written, and a well-formed attempt on the next
      connection still receives its file and stops the loop. */
  lemma RetryAfterMalformedRequest(garbage: Chunk, request: Chunk, metadata: Chunk, body: seq<Chunk>,
                                   decode: Decoder, filename: string, files: map<string, Chunk>)
    requires 0 < |garbage| <= HandshakeReadSize && decode(garbage) == BadJson
    requires 0 < |request| <= HandshakeReadSize && IsDiscovery(decode(request))
    requires 0 < |metadata| <= HandshakeReadSize && IsMetadata(decode(metadata), filename, |Delivered(body)|)
    ensures Serve([Connect([garbage], false), Connect([request, metadata] + body, false)], decode, files) ==
      Service([Caught(RequestJsonHandler), Finished], false, files[filename := Delivered(body)])
  {
    var arrivals := [Connect([garbage], false), Connect([request, metadata] + body, false)];
    FirstMessageOutcomes(garbage, [], decode, false, files, true);
    assert [garbage] + [] == [garbage];
    FullTransfer(request, metadata, body, decode, filename, files, true);
    assert arrivals[1..] == [Connect([request, metadata] + body, false)];
  }
}
