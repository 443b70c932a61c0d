/** The accepted TCP connection, as the receiver sees it.
    The peer is a script: `pending` lists the chunks its successive reads
    would return, and a zero-length chunk (or the end of the script) is the
    peer closing its side. Everything the receiver does on the connection is
    recorded, in order, in `trace`. */
module Net {

  /** Bytes on the wire. */
  type Chunk = seq<bv8>

  datatype Option<T> = None | Some(value: T)

  /** One action of the receiver on the connection. */
  datatype Event =
    | Received(asked: nat, data: Chunk)   // connection.recv(asked) returned data
    | Sent(data: Chunk)                   // connection.send(data)
    | Closed                              // connection.close()

  /** The bytes the peer delivers before it closes: its chunks up to the
      first empty one. */
  function Delivered(pending: seq<Chunk>): (r: seq<bv8>)
  {
    if pending == [] || pending[0] == [] then [] else pending[0] + Delivered(pending[1..])
  }

  /** recv(n) on a stream socket: at most n bytes of what the peer sent next;
      the bytes not taken stay buffered for the following read. */
  function NextRead(pending: seq<Chunk>, n: nat): (r: (Chunk, seq<Chunk>))
    ensures |r.0| <= n
  {
    if pending == [] then ([], [])
    else if |pending[0]| <= n then (pending[0], pending[1..])
    else (pending[0][..n], [pending[0][n..]] + pending[1..])
  }

  /** A read of n > 0 bytes returns zero bytes exactly when the peer has
      closed, and otherwise the next bytes of the stream, the rest of which
      is still to be read: reads neither lose nor reorder bytes. */
  lemma NextReadDelivers(pending: seq<Chunk>, n: nat)
    requires n > 0
    ensures var r := NextRead(pending, n);
      (r.0 == [] <==> Delivered(pending) == []) &&
      (r.0 != [] ==> Delivered(pending) == r.0 + Delivered(r.1))
  {
    if pending != [] && |pending[0]| > n {
      var rest := [pending[0][n..]] + pending[1..];
      assert rest[1..] == pending[1..];
      assert pending[0] == pending[0][..n] + pending[0][n..];
    }
  }

  lemma AppendAssociates<T>(a: seq<T>, b: seq<T>, c: seq<T>)
    ensures a + (b + c) == a + b + c
  {
  }

  /** The bytes returned by the reads of a trace, in order. */
  function BytesRead(trace: seq<Event>): (r: seq<bv8>)
  {
    if trace == [] then []
    else (if trace[0].Received? then trace[0].data else []) + BytesRead(trace[1..])
  }

  lemma {:induction false} BytesReadAppend(a: seq<Event>, b: seq<Event>)
    ensures BytesRead(a + b) == BytesRead(a) + BytesRead(b)
  {
    if a != [] {
      assert (a + b)[1..] == a[1..] + b;
      BytesReadAppend(a[1..], b);
    } else {
      assert a + b == b;
    }
  }

  /** An accepted connection. */
  class Connection {
    var pending: seq<Chunk>
    var trace: seq<Event>
    var open: bool

    constructor (script: seq<Chunk>)
      ensures pending == script && trace == [] && open
    {
      pending := script;
      trace := [];
      open := true;
    }

    /** connection.recv(n): blocks for the peer's next bytes, at most n. */
    method Recv(n: nat) returns (data: Chunk)
      requires open
      modifies this
      ensures (data, pending) == NextRead(old(pending), n)
      ensures trace == old(trace) + [Received(n, data)] && open
    {
      var r := NextRead(pending, n);
      data, pending := r.0, r.1;
      trace := trace + [Received(n, data)];
    }

    /** connection.send(data). */
    method Send(data: Chunk)
      requires open
      modifies this
      ensures trace == old(trace) + [Sent(data)]
      ensures pending == old(pending) && open
    {
      trace := trace + [Sent(data)];
    }

    /** connection.close(); closing a closed socket does nothing. */
    method Close()
      modifies this
      ensures !open && pending == old(pending)
      ensures trace == if old(open) then old(trace) + [Closed] else old(trace)
    {
      if open {
        trace := trace + [Closed];
      }
      open := false;
    }
  }
}
