/** The file-receive loop of `handle_request`: with `remaining_bytes` still
    expected, read at most min(4096, remaining_bytes) bytes, stop on a
    zero-length read, otherwise append and subtract what arrived. */
module FileTransfer {
  import opened Net

  /** The largest read the loop asks for. */
  const ChunkSize: nat := 4096

  function Min(a: int, b: int): (r: int)
    ensures r <= a && r <= b && (r == a || r == b)
  {
    if a <= b then a else b
  }

  /** The first n bytes of s, or all of s when s is shorter (none when n <= 0). */
  function Take(s: seq<bv8>, n: int): (r: seq<bv8>)
  {
    if n <= 0 then [] else if n >= |s| then s else s[..n]
  }

  lemma TakeAfter(head: seq<bv8>, tail: seq<bv8>, n: int)
    requires 0 < |head| <= n
    ensures Take(head + tail, n) == head + Take(tail, n - |head|)
  {
    if n - |head| < |tail| {
      assert (head + tail)[..n] == head + tail[..n - |head|];
    }
  }

  /** The reads the loop performs on the scripted input, and the input it
      leaves unread: none once remaining_bytes is 0 or less, otherwise a
      turn of the loop. */
  function ReceiveLoop(pending: seq<Chunk>, remaining: int): (r: (seq<Event>, seq<Chunk>))
    ensures forall i :: 0 <= i < |r.0| ==> r.0[i].Received?
    decreases remaining, 1
  {
    if remaining <= 0 then ([], pending) else ReceiveTurn(pending, remaining)
  }

  /** One turn: read at most min(4096, remaining_bytes); stop on zero
      bytes, otherwise go on with remaining_bytes less what arrived. */
  function ReceiveTurn(pending: seq<Chunk>, remaining: int): (r: (seq<Event>, seq<Chunk>))
    requires remaining > 0
    ensures forall i :: 0 <= i < |r.0| ==> r.0[i].Received?
    decreases remaining, 0
  {
    var ask := Min(ChunkSize, remaining);
    var read := NextRead(pending, ask);
    if read.0 == [] then ([Received(ask, read.0)], read.1)
    else
      var next := ReceiveLoop(read.1, remaining - |read.0|);
      ([Received(ask, read.0)] + next.0, next.1)
  }

  /** One turn of the loop: a read of min(4096, remaining) bytes, then
      either the stop on a zero-length read or the rest of the loop. */
  lemma ReceiveLoopStep(pending: seq<Chunk>, remaining: int)
    requires remaining > 0
    ensures var ask := Min(ChunkSize, remaining);
      var read := NextRead(pending, ask);
      ReceiveLoop(pending, remaining) ==
        if read.0 == [] then ([Received(ask, read.0)], read.1)
        else ([Received(ask, read.0)] + ReceiveLoop(read.1, remaining - |read.0|).0,
              ReceiveLoop(read.1, remaining - |read.0|).1)
  {
  }

  /** One turn of the loop as the imperative loop sees it: the reads so far
      (`done`) followed by the rest of the loop give the whole loop. */
  lemma ReceiveLoopTurn(goal: (seq<Event>, seq<Chunk>), done: seq<Event>, pending: seq<Chunk>,
                        remaining: int, data: Chunk, rest: seq<Chunk>)
    requires remaining > 0 && (data, rest) == NextRead(pending, Min(ChunkSize, remaining))
    requires goal.0 == done + ReceiveLoop(pending, remaining).0 && goal.1 == ReceiveLoop(pending, remaining).1
    ensures var done' := done + [Received(Min(ChunkSize, remaining), data)];
      BytesRead(done') == BytesRead(done) + data &&
      (data == [] ==> goal == (done', rest) && BytesRead(done') == BytesRead(done)) &&
      (data != [] ==> goal.0 == done' + ReceiveLoop(rest, remaining - |data|).0 &&
                      goal.1 == ReceiveLoop(rest, remaining - |data|).1)
  {
    var read := Received(Min(ChunkSize, remaining), data);
    ReceiveLoopStep(pending, remaining);
    BytesReadAppend(done, [read]);
    assert [read][1..] == [];
    if data != [] {
      assert [read] + ReceiveLoop(rest, remaining - |data|).0 == ReceiveLoop(pending, remaining).0;
    }
  }

  /** The file receives a prefix of what the peer delivers: all of it when
      the peer sends no more than the declared size, the first `remaining`
      bytes otherwise, and nothing when the declared size is 0 or less. */
  lemma {:induction false} ReceiveLoopContent(pending: seq<Chunk>, remaining: int)
    ensures BytesRead(ReceiveLoop(pending, remaining).0) == Take(Delivered(pending), remaining)
    decreases remaining
  {
    if remaining > 0 {
      var ask := Min(ChunkSize, remaining);
      var read := NextRead(pending, ask);
      var evs := ReceiveLoop(pending, remaining).0;
      ReceiveLoopStep(pending, remaining);
      NextReadDelivers(pending, ask);
      if read.0 == [] {
        assert BytesRead(evs) == [];
      } else {
        var more := ReceiveLoop(read.1, remaining - |read.0|).0;
        ReceiveLoopContent(read.1, remaining - |read.0|);
        assert evs[1..] == more;
        TakeAfter(read.0, Delivered(read.1), remaining);
      }
    }
  }

  /** The file never grows past the declared size. */
  lemma ReceiveLoopBounded(pending: seq<Chunk>, remaining: int)
    ensures |BytesRead(ReceiveLoop(pending, remaining).0)| <= if remaining <= 0 then 0 else remaining
  {
    ReceiveLoopContent(pending, remaining);
  }

  lemma BytesReadCons(e: Event, m: seq<Event>, i: nat)
    requires 1 <= i <= |m| + 1
    ensures BytesRead(([e] + m)[..i]) == (if e.Received? then e.data else []) + BytesRead(m[..i - 1])
  {
    assert ([e] + m)[..i][1..] == m[..i - 1];
  }

  /** Read i of the loop asks for min(4096, remaining_bytes), where
      remaining_bytes is the declared size less the bytes of the reads before
      it, and is still positive; it returns no more than it asked for. */
  lemma {:induction false} ReceiveLoopReadAt(pending: seq<Chunk>, remaining: int, i: nat)
    requires i < |ReceiveLoop(pending, remaining).0|
    ensures var evs := ReceiveLoop(pending, remaining).0;
      |BytesRead(evs[..i])| < remaining &&
      evs[i].asked == Min(ChunkSize, remaining - |BytesRead(evs[..i])|) &&
      |evs[i].data| <= evs[i].asked
    decreases remaining
  {
    var ask := Min(ChunkSize, remaining);
    var read := NextRead(pending, ask);
    var evs := ReceiveLoop(pending, remaining).0;
    ReceiveLoopStep(pending, remaining);
    if i == 0 {
      assert evs[..0] == [];
    } else {
      var more := ReceiveLoop(read.1, remaining - |read.0|).0;
      ReceiveLoopReadAt(read.1, remaining - |read.0|, i - 1);
      assert evs[i] == more[i - 1];
      BytesReadCons(Received(ask, read.0), more, i);
    }
  }

  /** Every read of the loop asks for min(4096, remaining_bytes), with
      remaining_bytes never negative, and returns no more than it asked for. */
  lemma ReceiveLoopReads(pending: seq<Chunk>, remaining: int)
    ensures var evs := ReceiveLoop(pending, remaining).0;
      forall i :: 0 <= i < |evs| ==>
        0 <= remaining - |BytesRead(evs[..i])| &&
        evs[i].asked == Min(ChunkSize, remaining - |BytesRead(evs[..i])|) &&
        |evs[i].data| <= evs[i].asked
  {
    var evs := ReceiveLoop(pending, remaining).0;
    forall i | 0 <= i < |evs|
      ensures 0 <= remaining - |BytesRead(evs[..i])|
      ensures evs[i].asked == Min(ChunkSize, remaining - |BytesRead(evs[..i])|)
      ensures |evs[i].data| <= evs[i].asked
    {
      ReceiveLoopReadAt(pending, remaining, i);
    }
  }

  /** The loop stops exactly when remaining_bytes reaches 0 or a read returns
      zero bytes: a size of 0 or less reads nothing and leaves the input as
      it was; otherwise every read but the last returns bytes, and the last
      returns none exactly when the peer delivers fewer bytes than declared. */
  lemma {:induction false} ReceiveLoopStops(pending: seq<Chunk>, remaining: int)
    ensures var evs := ReceiveLoop(pending, remaining).0;
      (remaining <= 0 <==> evs == []) &&
      (remaining <= 0 ==> ReceiveLoop(pending, remaining).1 == pending) &&
      (forall i :: 0 <= i < |evs| - 1 ==> evs[i].data != []) &&
      (evs != [] ==> (evs[|evs| - 1].data == [] <==> |Delivered(pending)| < remaining))
    decreases remaining
  {
    if remaining > 0 {
      var ask := Min(ChunkSize, remaining);
      var read := NextRead(pending, ask);
      var evs := ReceiveLoop(pending, remaining).0;
      ReceiveLoopStep(pending, remaining);
      NextReadDelivers(pending, ask);
      if read.0 != [] {
        var more := ReceiveLoop(read.1, remaining - |read.0|).0;
        ReceiveLoopStops(read.1, remaining - |read.0|);
        if more != [] {
          assert evs[|evs| - 1] == more[|more| - 1];
          forall i | 1 <= i < |evs| - 1
            ensures evs[i].data != []
          {
            assert evs[i] == more[i - 1];
          }
        }
      }
    }
  }
}
