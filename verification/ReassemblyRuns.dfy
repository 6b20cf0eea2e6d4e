// What the receive side guarantees: which bytes the queue holds, and, over every
// run, that exactly the stream's prefix is delivered.
module ReassemblyRuns {
  import opened Words
  import opened Reassembly
  import opened ReassemblyTheorems

  /** The queue invariant holds after any segment at all. */
  lemma QueueStaysOrdered(st: State, s0: Seg, copyOk: bool, ackOk: bool)
    requires Ordered(st.ooseq, st.rcv)
    ensures Ordered(Receive(st, s0, copyOk, ackOk).ooseq, Receive(st, s0, copyOk, ackOk).rcv)
  {
    hide Ordered, Deliver, Enqueue;
    if !st.closed && s0.TcpLen() > 0 {
      var s := TrimLeft(s0, st.rcv);
      if st.rcv == s.pos < st.rcv + st.wnd {
        DeliverOrdered(st, s);
      } else if st.rcv < s.pos < st.rcv + st.wnd && copyOk {
        EnqueueOrdered(st.ooseq, s, st.rcv + st.wnd, st.rcv);
      }
    }
  }

  // ------------------------------------------------------ what the queue holds

  lemma HoldsAppend(a: seq<Seg>, b: seq<Seg>, p: int)
    ensures Holds(a + b, p) <==> Holds(a, p) || Holds(b, p)
  {
    var q := a + b;
    if Holds(a, p) {
      var i :| 0 <= i < |a| && a[i].pos <= p < a[i].End();
      assert q[i] == a[i];
    }
    if Holds(b, p) {
      var i :| 0 <= i < |b| && b[i].pos <= p < b[i].End();
      assert q[|a| + i] == b[i];
    }
    if Holds(q, p) {
      var i :| 0 <= i < |q| && q[i].pos <= p < q[i].End();
      assert if i < |a| then q[i] == a[i] else q[i] == b[i - |a|];
    }
  }

  lemma {:induction false} OosInsertHolds(c: Seg, rest: seq<Seg>, p: int)
    requires Ordered(rest, c.pos - 1)
    ensures Holds(OosInsert(c, rest), p) <==> c.pos <= p < c.End() || (Holds(rest, p) && !c.fin)
    decreases |rest|
  {
    if rest == [] || c.fin {
      assert OosInsert(c, rest)[0] == c;
    } else {
      assert rest == [rest[0]] + rest[1..];
      HoldsAppend([rest[0]], rest[1..], p);
      assert Holds([rest[0]], p) <==> rest[0].pos <= p < rest[0].End() by {
        assert [rest[0]][0] == rest[0];
      }
      if c.End() >= rest[0].End() {
        OosInsertHolds(c.(fin := rest[0].fin), rest[1..], p);
      } else {
        var c' := CutAt(c, rest[0].pos);
        HoldsAppend([c'], rest, p);
        assert Holds([c'], p) <==> c'.pos <= p < c'.End() by { assert [c'][0] == c'; }
      }
    }
  }

  /** The segment that starts before s, if it reaches beyond the end of s. */
  ghost predicate LosesTail(q: seq<Seg>, s: Seg, p: int) {
    exists i :: 0 <= i < |q| && q[i].pos < s.pos && s.End() <= p < q[i].End()
  }

  /** Insertion between front and rest. */
  lemma InsertHolds(front: seq<Seg>, s: Seg, rest: seq<Seg>, rcv: int, p: int)
    requires Ordered(front, rcv) && Ordered(rest, s.pos - 1)
    requires forall i :: 0 <= i < |front| ==> front[i].pos < s.pos
    ensures Holds(CutLast(front, s.pos) + OosInsert(s, rest), p) <==>
            (Holds(front, p) && p < s.pos) || s.pos <= p < s.End() || (Holds(rest, p) && !s.fin)
    ensures Holds(front + OosInsert(s, rest), p) <==>
            Holds(front, p) || s.pos <= p < s.End() || (Holds(rest, p) && !s.fin)
  {
    OosInsertHolds(s, rest, p);
    CutLastHolds(front, s.pos, rcv, p);
    HoldsAppend(CutLast(front, s.pos), OosInsert(s, rest), p);
    HoldsAppend(front, OosInsert(s, rest), p);
  }

  /** Only the last segment of front can reach to s or beyond. */
  lemma LosesTailIsLast(front: seq<Seg>, s: Seg, rest: seq<Seg>, rcv: int, p: int)
    requires Ordered(front + rest, rcv) && Ordered(front, rcv) && Ordered(rest, s.pos - 1)
    requires forall i :: 0 <= i < |front| ==> front[i].pos < s.pos
    ensures LosesTail(front + rest, s, p) <==> Holds(front, p) && s.End() <= p
    ensures LosesTail(front + rest, s, p) ==> !Holds(rest, p)
    ensures rest != [] && rest[0].pos == s.pos ==> !LosesTail(front + rest, s, p)
    ensures rest != [] && rest[0].pos == s.pos && Holds(front, p) ==> p < s.pos
  {
    var q := front + rest;
    forall k, m | 0 <= k < |front| && 0 <= m < |rest|
      ensures front[k].End() <= rest[m].pos
    {
      assert q[k] == front[k] && q[|front| + m] == rest[m];
    }
    if LosesTail(q, s, p) {
      var k :| 0 <= k < |q| && q[k].pos < s.pos && s.End() <= p < q[k].End();
      assert k < |front|;
      assert front[k].pos <= p < front[k].End();
    }
    if Holds(front, p) && s.End() <= p {
      var k :| 0 <= k < |front| && front[k].pos <= p < front[k].End();
      assert q[k] == front[k];
    }
  }

  lemma InsertLoses(front: seq<Seg>, s: Seg, rest: seq<Seg>, rcv: int, p: int)
    requires Ordered(front + rest, rcv) && Ordered(front, rcv) && Ordered(rest, s.pos - 1)
    requires forall i :: 0 <= i < |front| ==> front[i].pos < s.pos
    ensures var kept := s.pos <= p < s.End()
                        || (Holds(front + rest, p) && (p < s.pos || (!s.fin && !LosesTail(front + rest, s, p))));
            && (Holds(CutLast(front, s.pos) + OosInsert(s, rest), p) <==> kept)
            && (rest != [] && rest[0].pos == s.pos ==> (Holds(front + OosInsert(s, rest), p) <==> kept))
  {
    InsertHolds(front, s, rest, rcv, p);
    HoldsAppend(front, rest, p);
    LosesTailIsLast(front, s, rest, rcv, p);
  }

  /** s is appended behind q. */
  lemma AppendHolds(q: seq<Seg>, s: Seg, edge: int, rcv: int, p: int)
    requires Ordered(q, rcv) && q != [] && s.pos < edge && forall i :: 0 <= i < |q| ==> q[i].pos < s.pos
    ensures Holds(CutLast(q, s.pos) + [CutAtEdge(s, edge)], p) <==>
            s.pos <= p < Min(s.End(), edge) || (Holds(q, p) && p < s.pos)
  {
    var c := CutAtEdge(s, edge);
    CutLastHolds(q, s.pos, rcv, p);
    HoldsAppend(CutLast(q, s.pos), [c], p);
    assert Holds([c], p) <==> c.pos <= p < c.End() by { assert [c][0] == c; }
  }

  /** Is the byte at p on the queue once s has been taken?  Behind a FIN nothing
      changes, and neither does it if a segment that long is queued at the same
      place.  Behind everything else s is cut at the edge.  Otherwise s brings all
      of its bytes, but a segment with a FIN ends the queue, and a queued segment
      that contains s from the left is cut at s and loses what lay beyond. */
  ghost predicate HeldAfter(q: seq<Seg>, s: Seg, edge: int, p: int) {
    var i := Before(q, s.pos);
    if i == |q| > 0 then
      if q[i - 1].fin then Holds(q, p) else s.pos <= p < Min(s.End(), edge) || (Holds(q, p) && p < s.pos)
    else if i < |q| && q[i].pos == s.pos && |s.data| <= |q[i].data| then Holds(q, p)
    else s.pos <= p < s.End() || (Holds(q, p) && (p < s.pos || (!s.fin && !LosesTail(q, s, p))))
  }

  /** Which bytes are on the queue after any out-of-order segment. */
  lemma EnqueueHolds(q: seq<Seg>, s: Seg, edge: int, rcv: int, p: int)
    requires Ordered(q, rcv) && rcv < s.pos < edge && 0 < s.TcpLen()
    ensures Holds(Enqueue(q, s, edge), p) <==> HeldAfter(q, s, edge, p)
  {
    hide OosInsert, CutLast, Holds, LosesTail, CutAtEdge, Ordered;
    SplitOrdered(q, s.pos, rcv);
    var i := Before(q, s.pos);
    var front, rest := q[..i], q[i..];
    assert q == front + rest;
    if i == |q| > 0 {
      assert q[..i] == q;
      AppendHolds(q, s, edge, rcv, p);
    } else {
      InsertLoses(front, s, rest, rcv, p);
    }
  }

  /** The last queued segment carries the FIN and starts before s. */
  predicate FinBefore(q: seq<Seg>, s: Seg) { q != [] && q[|q| - 1].fin && q[|q| - 1].pos < s.pos }

  /** If all segments repeat one stream, the queue holds inside the window what it
      held and what s brings, with or without a FIN.  The one loss: a queued
      segment that contains s from the left is cut at s. */
  lemma EnqueueKeepsSlices(stream: seq<byte>, q: seq<Seg>, s: Seg, edge: int, rcv: int, p: int)
    requires Ordered(q, rcv) && rcv < s.pos < edge && 0 < s.TcpLen() && p < edge
    requires Slices(stream, q) && IsSlice(stream, s)
    ensures Holds(Enqueue(q, s, edge), p) <==>
            s.pos <= p < s.End() || (Holds(q, p) && (!LosesTail(q, s, p) || FinBefore(q, s)))
  {
    hide OosInsert, CutLast, Enqueue, Ordered, LosesTail, Holds, IsSlice, Slices;
    EnqueueHolds(q, s, edge, rcv, p);
    HeldInStream(stream, q, s, p);
    TailIs(q, s, rcv, p);
    var i := Before(q, s.pos);
    if i == |q| > 0 {
      if q[i - 1].fin { CoveredByFin(stream, q, s, p); }
    } else if i < |q| && q[i].pos == s.pos && s.pos <= p < q[i].End() {
      HeldAt(q, i, p);
    }
  }

  /** What is lost, by the place at which s goes. */
  lemma TailIs(q: seq<Seg>, s: Seg, rcv: int, p: int)
    requires Ordered(q, rcv)
    ensures var i := Before(q, s.pos);
            && (LosesTail(q, s, p) ==> Holds(q, p) && s.End() <= p)
            && (i == |q| ==> (LosesTail(q, s, p) <==> Holds(q, p) && s.End() <= p))
            && (i < |q| && q[i].pos == s.pos ==> !LosesTail(q, s, p))
            && (q != [] && i < |q| ==> !FinBefore(q, s)) && (i == |q| > 0 ==> q[i - 1].pos < s.pos)
  {
    hide Before;
    SplitOrdered(q, s.pos, rcv);
    BeforeSplits(q, s.pos, rcv);
    var i := Before(q, s.pos);
    assert q[..i] + q[i..] == q;
    hide Ordered, LosesTail, Holds;
    LosesTailIsLast(q[..i], s, q[i..], rcv, p);
    HoldsAppend(q[..i], q[i..], p);
    assert i == |q| ==> q[..i] == q;
  }

  lemma HeldAt(q: seq<Seg>, i: nat, p: int)
    requires i < |q| && q[i].pos <= p < q[i].End()
    ensures Holds(q, p)
  {
  }

  lemma HeldInStream(stream: seq<byte>, q: seq<Seg>, s: Seg, p: int)
    requires Slices(stream, q) && IsSlice(stream, s)
    ensures Holds(q, p) ==> p < |stream|
    ensures s.fin ==> s.End() == |stream|
  {
  }

  lemma CoveredByFin(stream: seq<byte>, q: seq<Seg>, s: Seg, p: int)
    requires Slices(stream, q) && IsSlice(stream, s) && FinBefore(q, s)
    ensures s.pos <= p < s.End() ==> Holds(q, p)
  {
    assert q[|q| - 1].End() == |stream|;
  }

  /** Cutting the last segment of a run that starts before p removes exactly
      the bytes from p on. */
  lemma CutLastHolds(q: seq<Seg>, cut: int, rcv: int, p: int)
    requires Ordered(q, rcv)
    requires forall i :: 0 <= i < |q| ==> q[i].pos < cut
    ensures Holds(CutLast(q, cut), p) <==> Holds(q, p) && p < cut
  {
    if q != [] {
      var l := |q| - 1;
      assert q == q[..l] + [q[l]];
      HoldsAppend(q[..l], [q[l]], p);
      HoldsAppend(q[..l], [CutAt(q[l], cut)], p);
      assert Holds([q[l]], p) <==> q[l].pos <= p < q[l].End() by { assert [q[l]][0] == q[l]; }
      var c := CutAt(q[l], cut);
      assert Holds([c], p) <==> c.pos <= p < c.End() by { assert [c][0] == c; }
      if Holds(q[..l], p) {
        var k :| 0 <= k < l && q[..l][k].pos <= p < q[..l][k].End();
        assert q[k].End() <= q[l].pos;
      }
    }
  }

  // ------------------------------------------------- slices of one peer stream

  /** Every queued segment is a slice. */
  ghost predicate Slices(stream: seq<byte>, q: seq<Seg>) {
    forall i :: 0 <= i < |q| ==> IsSlice(stream, q[i])
  }

  lemma {:induction false} OosInsertSlices(stream: seq<byte>, c: Seg, rest: seq<Seg>, edge: int)
    requires IsSlice(stream, c) && Slices(stream, rest)
    requires Ordered(rest, c.pos - 1) && Fits(rest, edge)
    ensures Slices(stream, OosInsert(c, rest))
    ensures Fits(OosInsert(c, rest), edge) <==> c.Next() <= edge
    decreases |rest|
  {
    if rest == [] || c.fin {
      assert OosInsert(c, rest)[0] == c;
    } else if c.End() >= rest[0].End() {
      CoverSlices(stream, c, rest, edge);
      OosInsertSlices(stream, c.(fin := rest[0].fin), rest[1..], edge);
    } else {
      assert OosInsert(c, rest) == [CutAt(c, rest[0].pos)] + rest;
      InFrontSlices(stream, c, rest, edge);
    }
  }

  /** c covers the first segment, whose FIN it takes over. */
  lemma CoverSlices(stream: seq<byte>, c: Seg, rest: seq<Seg>, edge: int)
    requires IsSlice(stream, c) && Slices(stream, rest) && rest != [] && !c.fin
    requires Ordered(rest, c.pos - 1) && Fits(rest, edge) && c.End() >= rest[0].End()
    ensures IsSlice(stream, c.(fin := rest[0].fin)) && Slices(stream, rest[1..])
    ensures Ordered(rest[1..], c.pos - 1) && Fits(rest[1..], edge)
    ensures rest[0].fin ==> c.End() == rest[0].End() && c.End() + 1 <= edge
  {
    assert IsSlice(stream, rest[0]);
    assert forall i :: 0 <= i < |rest| - 1 ==> rest[1..][i] == rest[i + 1];
  }

  lemma InFrontSlices(stream: seq<byte>, c: Seg, rest: seq<Seg>, edge: int)
    requires IsSlice(stream, c) && Slices(stream, rest) && rest != [] && !c.fin
    requires Ordered(rest, c.pos - 1) && Fits(rest, edge) && c.End() < rest[0].End()
    ensures Slices(stream, [CutAt(c, rest[0].pos)] + rest)
    ensures Fits([CutAt(c, rest[0].pos)] + rest, edge) && c.Next() <= edge
  {
    var h := CutAt(c, rest[0].pos);
    assert IsSlice(stream, h) && h.Next() <= c.Next() <= rest[0].Next() <= edge;
    hide IsSlice;
  }

  /** d delivers the stream from rcv up to the first gap, at most to edge. */
  ghost predicate Delivers(stream: seq<byte>, rcv: int, edge: int, d: Drained) {
    && 0 <= rcv && rcv + |d.data| <= |stream|
    && d.data == stream[rcv..rcv + |d.data|]
    && d.rcv == rcv + |d.data| + ToInt(d.fin) <= edge
    && (d.fin ==> rcv + |d.data| == |stream| && d.rest == [])
    && Queued(stream, d.rest, d.rcv, edge)
  }

  ghost predicate Queued(stream: seq<byte>, q: seq<Seg>, rcv: int, edge: int) {
    Ordered(q, rcv) && Slices(stream, q) && Fits(q, edge)
  }

  lemma PrependDelivers(stream: seq<byte>, s: Seg, edge: int, d: Drained)
    requires IsSlice(stream, s) && !s.fin && Delivers(stream, s.End(), edge, d)
    ensures Delivers(stream, s.pos, edge, Drained(s.data + d.data, d.rcv, d.rest, d.fin))
  {
  }

  lemma QueuedTail(stream: seq<byte>, q: seq<Seg>, rcv: int, edge: int)
    requires Queued(stream, q, rcv - 1, edge) && q != []
    ensures Queued(stream, q[1..], q[0].Next() - 1, edge)
    ensures q[0].fin ==> q[1..] == []
  {
    OrderedTail(q, rcv);
  }

  lemma EmptyQueued(stream: seq<byte>, rcv: int, edge: int)
    ensures Queued(stream, [], rcv, edge)
  {
  }

  lemma {:induction false} DrainDelivers(stream: seq<byte>, q: seq<Seg>, rcv: int, edge: int)
    requires Queued(stream, q, rcv - 1, edge) && 0 <= rcv <= edge && rcv <= |stream|
    ensures Delivers(stream, rcv, edge, Drain(q, rcv))
    decreases |q|
  {
    hide Ordered;
    if q == [] || q[0].pos != rcv {
      OrderedBeyond(q, rcv);
    } else {
      QueuedTail(stream, q, rcv, edge);
      if !q[0].fin {
        DrainDelivers(stream, q[1..], q[0].End(), edge);
        PrependDelivers(stream, q[0], edge, Drain(q[1..], q[0].End()));
      } else {
        EmptyQueued(stream, q[0].Next(), edge);
      }
    }
  }

  /** Nothing that is contiguous with rcv stays on the queue. */
  lemma {:induction false} DrainReaches(q: seq<Seg>, rcv: int, p: int)
    requires Ordered(q, rcv - 1)
    requires forall x :: rcv <= x < p ==> Holds(q, x)
    ensures Drain(q, rcv).rcv >= p
    decreases |q|
  {
    if rcv < p {
      assert Holds(q, rcv);
      assert forall i :: 0 < i < |q| ==> q[0].End() <= q[i].pos;
      assert q[0].pos == rcv;
      forall x | q[0].Next() <= x < p
        ensures Holds(q[1..], x)
      {
        assert Holds(q, x);
        var i :| 0 <= i < |q| && q[i].pos <= x < q[i].End();
        assert q[1..][i - 1] == q[i];
      }
      DrainReaches(q[1..], q[0].Next(), p);
    } else {
      DrainForward(q, rcv);
    }
  }

  // ------------------------------------------------------------ runs of events

  /** The connection invariant. */
  ghost predicate Good(stream: seq<byte>, st: State) {
    && Consistent(stream, st)
    // announced edges
    && 0 <= st.annWnd <= st.wnd && st.annEdge <= st.rcv + st.annWnd
  }

  ghost predicate Consistent(stream: seq<byte>, st: State) {
    // the queue
    && Queued(stream, st.ooseq, st.rcv, st.rcv + st.wnd)
    // delivery: exactly the prefix of the stream that ends at rcv
    && |st.delivered| <= |stream| && st.delivered == stream[..|st.delivered|]
    && st.rcv == |st.delivered| + ToInt(st.closed)
    && (st.closed ==> |st.delivered| == |stream| && st.ooseq == [])
    // the window: what is free, delivered but unread, or owed for the FIN
    && st.read <= |st.delivered| && (st.finOwed ==> st.closed)
    && 0 <= st.wnd && st.wnd + (|st.delivered| - st.read) + ToInt(st.finOwed) == st.ownWnd
  }

  /** The one way past the right window edge: an out-of-order segment that
      reaches beyond it is trimmed only when it goes behind a queued one. */
  predicate Overruns(st: State, s: Seg) {
    var i := Before(st.ooseq, s.pos);
    && !st.closed
    && st.rcv < s.pos < st.rcv + st.wnd < s.Next()
    && !(i == |st.ooseq| && i > 0)
    && !(i < |st.ooseq| && st.ooseq[i].pos == s.pos && |s.data| <= |st.ooseq[i].data|)
  }

  ghost predicate Legal(stream: seq<byte>, st: State, e: Event) {
    match e
    case Segment(s, copyOk, _) => IsSlice(stream, s) && !(copyOk && Overruns(st, s))
    case Recved(len) => st.read + len <= |st.delivered|
    case _ => true
  }

  ghost predicate LegalRun(stream: seq<byte>, st: State, es: seq<Event>)
    decreases |es|
  {
    es == [] || (Legal(stream, st, es[0]) && LegalRun(stream, Step(st, es[0]), es[1..]))
  }

  lemma CutSlice(stream: seq<byte>, s: Seg, edge: int)
    requires IsSlice(stream, s) && s.pos <= edge && 0 < s.TcpLen()
    ensures IsSlice(stream, CutAtEdge(s, edge)) && CutAtEdge(s, edge).Next() <= edge
    ensures s.pos < edge ==> 0 < CutAtEdge(s, edge).TcpLen()
    ensures CutAtEdge(s, edge).pos == s.pos
  {
  }

  lemma TrimSlice(stream: seq<byte>, s: Seg, rcv: int)
    requires IsSlice(stream, s)
    ensures IsSlice(stream, TrimLeft(s, rcv))
    ensures TrimLeft(s, rcv).Next() == s.Next()
    ensures 0 < s.TcpLen() ==> 0 < TrimLeft(s, rcv).TcpLen()
    ensures TrimLeft(s, rcv).pos > rcv ==> TrimLeft(s, rcv) == s
  {
  }

  /** Recomputing the window to announce restores the announced-edge part. */
  lemma UpdateAnnWndGood(stream: seq<byte>, st: State)
    requires Consistent(stream, st) && st.annEdge <= st.rcv + st.wnd
    ensures Good(stream, UpdateAnnWnd(st))
    ensures UpdateAnnWnd(st).annEdge == st.annEdge
  {
  }

  lemma DeliverGood(stream: seq<byte>, st: State, s: Seg)
    requires Good(stream, st) && !st.closed && IsSlice(stream, s) && 0 < s.TcpLen()
    requires s.pos == st.rcv < st.rcv + st.wnd
    ensures Good(stream, Deliver(st, s))
    ensures Deliver(st, s).annEdge == st.annEdge
  {
    hide Ordered, Slices, Fits, IsSlice, Queued, Delivers, CutAtEdge, OosInsert, Drain, AnnWnd;
    var edge := st.rcv + st.wnd;
    var c := CutAtEdge(s, edge);
    CutSlice(stream, s, edge);
    InsertQueued(stream, c, st.ooseq, edge);
    var d := Drain(OosInsert(c, st.ooseq), st.rcv);
    DrainDelivers(stream, OosInsert(c, st.ooseq), st.rcv, edge);
    TakeDrained(stream, st, d);
    UpdateAnnWndGood(stream, WithDrained(st, d));
  }

  lemma InsertQueued(stream: seq<byte>, c: Seg, q: seq<Seg>, edge: int)
    requires IsSlice(stream, c) && 0 < c.TcpLen() && c.Next() <= edge
    requires Queued(stream, q, c.pos, edge)
    ensures Queued(stream, OosInsert(c, q), c.pos - 1, edge)
  {
    hide Ordered, Slices, IsSlice, Fits, OosInsert;
    OrderedEarlier(q, c.pos);
    OosInsertOrdered(c, q);
    OosInsertSlices(stream, c, q, edge);
  }

  lemma OrderedEarlier(q: seq<Seg>, p: int)
    requires Ordered(q, p)
    ensures Ordered(q, p - 1) && (q != [] ==> p < q[0].pos)
  {
  }

  lemma TakeDrained(stream: seq<byte>, st: State, d: Drained)
    requires Consistent(stream, st) && !st.closed
    requires Delivers(stream, st.rcv, st.rcv + st.wnd, d)
    ensures Consistent(stream, WithDrained(st, d))
  {
    assert st.delivered + d.data == stream[..st.rcv + |d.data|];
  }

  /** With s out of order and within the window, the queue stays inside the
      window exactly when s does not overrun it. */
  lemma EnqueueFits(stream: seq<byte>, st: State, s: Seg)
    requires Good(stream, st) && !st.closed && IsSlice(stream, s) && 0 < s.TcpLen()
    requires st.rcv < s.pos < st.rcv + st.wnd
    ensures Slices(stream, Enqueue(st.ooseq, s, st.rcv + st.wnd))
    ensures Fits(Enqueue(st.ooseq, s, st.rcv + st.wnd), st.rcv + st.wnd) <==> !Overruns(st, s)
  {
    hide Enqueue, Before;
    var q, edge := st.ooseq, st.rcv + st.wnd;
    EnqueueQueue(stream, q, s, edge, st.rcv);
  }

  lemma EnqueueQueue(stream: seq<byte>, q: seq<Seg>, s: Seg, edge: int, rcv: int)
    requires Queued(stream, q, rcv, edge) && IsSlice(stream, s) && 0 < s.TcpLen()
    requires rcv < s.pos < edge
    ensures Slices(stream, Enqueue(q, s, edge))
    ensures var i := Before(q, s.pos);
            Fits(Enqueue(q, s, edge), edge) <==>
              || s.Next() <= edge
              || (i == |q| && i > 0)
              || (i < |q| && q[i].pos == s.pos && |s.data| <= |q[i].data|)
  {
    hide OosInsert, CutLast, Before;
    SplitOrdered(q, s.pos, rcv);
    var i := Before(q, s.pos);
    var front, rest := q[..i], q[i..];
    if i == |q| && i > 0 {
      AppendLastFits(stream, q, s, edge, rcv);
    } else if i == |q| || q[i].pos != s.pos || |s.data| > |q[i].data| {
      InsertFits(stream, front, s, rest, edge);
    }
  }

  lemma AppendLastFits(stream: seq<byte>, q: seq<Seg>, s: Seg, edge: int, rcv: int)
    requires Ordered(q, rcv) && Slices(stream, q) && Fits(q, edge) && q != []
    requires IsSlice(stream, s) && s.pos < edge && 0 < s.TcpLen()
    requires forall i :: 0 <= i < |q| ==> q[i].pos < s.pos
    ensures Slices(stream, AppendLast(q, s, edge)) && Fits(AppendLast(q, s, edge), edge)
  {
    if !q[|q| - 1].fin {
      assert forall k :: 0 <= k < |q| ==> !q[k].fin;
      CutSlice(stream, s, edge);
      CutLastSlices(stream, q, s.pos, edge);
    }
  }

  lemma InsertFits(stream: seq<byte>, front: seq<Seg>, s: Seg, rest: seq<Seg>, edge: int)
    requires Slices(stream, front) && Fits(front, edge)
    requires forall i :: 0 <= i < |front| ==> front[i].pos < s.pos && !front[i].fin
    requires Slices(stream, rest) && Fits(rest, edge) && Ordered(rest, s.pos - 1)
    requires IsSlice(stream, s)
    ensures Slices(stream, CutLast(front, s.pos) + OosInsert(s, rest))
    ensures Slices(stream, front + OosInsert(s, rest))
    ensures Fits(CutLast(front, s.pos) + OosInsert(s, rest), edge) <==> s.Next() <= edge
    ensures Fits(front + OosInsert(s, rest), edge) <==> s.Next() <= edge
  {
    CutLastSlices(stream, front, s.pos, edge);
    OosInsertSlices(stream, s, rest, edge);
    AppendFits(CutLast(front, s.pos), OosInsert(s, rest), edge);
    AppendFits(front, OosInsert(s, rest), edge);
  }

  lemma AppendFits(a: seq<Seg>, b: seq<Seg>, edge: int)
    requires Fits(a, edge)
    ensures Fits(a + b, edge) <==> Fits(b, edge)
  {
    if Fits(a + b, edge) {
      assert forall i :: 0 <= i < |b| ==> b[i] == (a + b)[|a| + i];
    }
  }

  lemma CutLastSlices(stream: seq<byte>, q: seq<Seg>, p: int, edge: int)
    requires Slices(stream, q) && Fits(q, edge)
    requires forall i :: 0 <= i < |q| ==> q[i].pos < p
    requires forall i :: 0 <= i < |q| ==> !q[i].fin
    ensures Slices(stream, CutLast(q, p)) && Fits(CutLast(q, p), edge)
  {
  }

  // ------------------------------------------------------- invariant over runs

  lemma ReceiveGood(stream: seq<byte>, st: State, s0: Seg, copyOk: bool, ackOk: bool)
    requires Good(stream, st) && Legal(stream, st, Segment(s0, copyOk, ackOk))
    ensures Good(stream, Receive(st, s0, copyOk, ackOk))
    ensures Receive(st, s0, copyOk, ackOk).annEdge >= st.annEdge
  {
    if !st.closed && s0.TcpLen() > 0 {
      var s := TrimLeft(s0, st.rcv);
      TrimSlice(stream, s0, st.rcv);
      if st.rcv == s.pos < st.rcv + st.wnd {
        DeliverGood(stream, st, s);
      } else if st.rcv < s.pos < st.rcv + st.wnd && copyOk {
        EnqueueOrdered(st.ooseq, s, st.rcv + st.wnd, st.rcv);
        EnqueueFits(stream, st, s);
      }
    }
  }

  /** Every step keeps the invariant, and no step moves the announced right edge
      to the left. */
  lemma StepGood(stream: seq<byte>, st: State, e: Event)
    requires Good(stream, st) && Legal(stream, st, e)
    ensures Good(stream, Step(st, e))
    ensures Step(st, e).annEdge >= st.annEdge
  {
    match e
    case Segment(s, copyOk, ackOk) => ReceiveGood(stream, st, s, copyOk, ackOk);
    case Recved(len) => RecvedGood(stream, st, len);
    case CreditFin => OtherGood(stream, st, e);
    case Transmit => OtherGood(stream, st, e);
    case PurgeOoseq => OtherGood(stream, st, e);
  }

  lemma RecvedGood(stream: seq<byte>, st: State, len: nat)
    requires Good(stream, st) && Legal(stream, st, Recved(len))
    ensures Good(stream, Step(st, Recved(len)))
    ensures Step(st, Recved(len)).annEdge == st.annEdge
  {
    WiderGood(stream, st, len);
    UpdateAnnWndGood(stream, st.(wnd := st.wnd + len, read := st.read + len));
  }

  lemma WiderGood(stream: seq<byte>, st: State, len: nat)
    requires Good(stream, st) && st.read + len <= |st.delivered|
    ensures Consistent(stream, st.(wnd := st.wnd + len, read := st.read + len))
  {
  }

  lemma OtherGood(stream: seq<byte>, st: State, e: Event)
    requires Good(stream, st) && (e.CreditFin? || e.Transmit? || e.PurgeOoseq?)
    ensures Good(stream, Step(st, e))
    ensures Step(st, e).annEdge >= st.annEdge
  {
    assert Queued(stream, Step(st, e).ooseq, st.rcv, st.rcv + Step(st, e).wnd);
  }

  /** Reassembly is exact.  Whatever order, overlap, loss and duplication the
      slices of the peer's stream arrive with, what the application has been
      given is the stream's prefix that ends at rcv_nxt; the window accounts for
      every byte; and the announced right edge has never moved left nor passed
      the real one. */
  lemma {:induction false} RunGood(stream: seq<byte>, st: State, es: seq<Event>)
    requires Good(stream, st) && LegalRun(stream, st, es)
    ensures Good(stream, Run(st, es))
    ensures st.annEdge <= Run(st, es).annEdge <= Run(st, es).rcv + Run(st, es).wnd
    decreases |es|
  {
    if es != [] {
      StepGood(stream, st, es[0]);
      RunGood(stream, Step(st, es[0]), es[1..]);
    }
  }

  lemma ReassemblyIsExact(stream: seq<byte>, ownWnd: nat, mss: nat, es: seq<Event>)
    requires LegalRun(stream, Initial(ownWnd, mss), es)
    ensures var st := Run(Initial(ownWnd, mss), es);
            && |st.delivered| <= |stream| && st.delivered == stream[..|st.delivered|]
            && st.rcv == |st.delivered| + ToInt(st.closed)
            && (st.closed ==> st.delivered == stream)
            && st.wnd == st.ownWnd - (|st.delivered| - st.read) - ToInt(st.finOwed)
            && st.annEdge <= st.rcv + st.annWnd <= st.rcv + st.wnd
  {
    assert Good(stream, Initial(ownWnd, mss));
    RunGood(stream, Initial(ownWnd, mss), es);
  }

  /** Nothing is held back: once a segment fills the gap at rcv_nxt, everything
      up to the first missing byte has been delivered. */
  lemma GapFilled(stream: seq<byte>, st: State, s0: Seg, copyOk: bool, ackOk: bool, p: int)
    requires Good(stream, st) && !st.closed && IsSlice(stream, s0)
    requires s0.pos <= st.rcv < s0.Next() && p <= st.rcv + st.wnd && 0 < st.wnd
    requires forall x :: st.rcv <= x < p ==> s0.pos <= x < s0.End() || Holds(st.ooseq, x)
    ensures Receive(st, s0, copyOk, ackOk).rcv >= p
  {
    var s := TrimLeft(s0, st.rcv);
    TrimSlice(stream, s0, st.rcv);
    DeliverReaches(stream, st, s, p);
    assert Receive(st, s0, copyOk, ackOk) == Deliver(st, s);
  }

  lemma DeliverReaches(stream: seq<byte>, st: State, s: Seg, p: int)
    requires Good(stream, st) && !st.closed && IsSlice(stream, s) && 0 < s.TcpLen()
    requires s.pos == st.rcv < st.rcv + st.wnd && p <= st.rcv + st.wnd
    requires forall x :: st.rcv <= x < p ==> s.pos <= x < s.End() || Holds(st.ooseq, x)
    ensures Deliver(st, s).rcv >= p
  {
    hide Good, Queued, Ordered, Slices, Fits, IsSlice, Holds, CutAtEdge, OosInsert, Drain, AnnWnd;
    var q, edge := st.ooseq, st.rcv + st.wnd;
    var c := CutAtEdge(s, edge);
    QueueOf(stream, st);
    CutSlice(stream, s, edge);
    InsertQueued(stream, c, q, edge);
    QueuedOrdered(stream, OosInsert(c, q), st.rcv - 1, edge);
    forall x | st.rcv <= x < p
      ensures Holds(OosInsert(c, q), x)
    {
      CutKeeps(s, edge, x);
      OosInsertHolds(c, q, x);
      if c.fin && Holds(q, x) { FinEndsQueue(stream, c, q, x); }
    }
    DrainReaches(OosInsert(c, q), st.rcv, p);
  }

  lemma QueueOf(stream: seq<byte>, st: State)
    requires Good(stream, st)
    ensures Queued(stream, st.ooseq, st.rcv, st.rcv + st.wnd)
    ensures Slices(stream, st.ooseq) && Ordered(st.ooseq, st.rcv - 1)
  {
  }

  lemma QueuedOrdered(stream: seq<byte>, q: seq<Seg>, rcv: int, edge: int)
    requires Queued(stream, q, rcv, edge)
    ensures Ordered(q, rcv)
  {
  }

  lemma CutKeeps(s: Seg, edge: int, x: int)
    requires s.pos <= edge
    ensures s.pos <= x < s.End() && x < edge ==> CutAtEdge(s, edge).pos <= x < CutAtEdge(s, edge).End()
  {
  }

  /** A FIN in sequence leaves no byte behind on the queue. */
  lemma FinEndsQueue(stream: seq<byte>, c: Seg, q: seq<Seg>, x: int)
    requires IsSlice(stream, c) && c.fin && Slices(stream, q) && c.pos <= x && Holds(q, x)
    ensures c.pos <= x < c.End()
  {
  }

  // ------------------------------------------------------------------ the FIN

  /** A queued segment carries the FIN. */
  ghost predicate FinQueued(q: seq<Seg>) {
    exists i :: 0 <= i < |q| && q[i].fin
  }

  lemma FinCons(s: Seg, q: seq<Seg>)
    ensures FinQueued([s] + q) <==> s.fin || FinQueued(q)
  {
    var r := [s] + q;
    assert r[0] == s && forall i :: 0 <= i < |q| ==> r[i + 1] == q[i];
  }

  lemma {:induction false} InsertKeepsFin(c: Seg, rest: seq<Seg>)
    requires c.fin || FinQueued(rest)
    ensures FinQueued(OosInsert(c, rest))
    decreases |rest|
  {
    if rest == [] || c.fin {
      assert OosInsert(c, rest)[0].fin;
    } else {
      assert rest == [rest[0]] + rest[1..];
      FinCons(rest[0], rest[1..]);
      if c.End() >= rest[0].End() {
        InsertKeepsFin(c.(fin := rest[0].fin), rest[1..]);
      } else {
        FinCons(CutAt(c, rest[0].pos), rest);
      }
    }
  }

  /** A FIN on the queue is taken, or stays there. */
  lemma {:induction false} DrainKeepsFin(q: seq<Seg>, rcv: int)
    requires FinQueued(q)
    ensures Drain(q, rcv).fin || FinQueued(Drain(q, rcv).rest)
    decreases |q|
  {
    if q != [] && q[0].pos == rcv && !q[0].fin {
      assert q == [q[0]] + q[1..];
      FinCons(q[0], q[1..]);
      DrainKeepsFin(q[1..], q[0].Next());
    }
  }

  /** On the queue a FIN lies at the end of the stream, and everything there lies
      beyond rcv. */
  lemma FinBeyond(stream: seq<byte>, q: seq<Seg>, rcv: int, edge: int)
    requires Queued(stream, q, rcv, edge) && FinQueued(q)
    ensures rcv < |stream|
  {
    var i :| 0 <= i < |q| && q[i].fin;
    assert q[i].End() == |stream|;
  }

  lemma DeliverTakesFin(stream: seq<byte>, st: State, s: Seg)
    requires Good(stream, st) && IsSlice(stream, s) && 0 < s.TcpLen() && s.pos == st.rcv
    requires |stream| + 1 <= st.rcv + st.wnd && (s.fin || FinQueued(st.ooseq))
    ensures var d := Drain(OosInsert(s, st.ooseq), st.rcv);
            Deliver(st, s).closed == d.fin && Deliver(st, s).rcv == d.rcv && Deliver(st, s).ooseq == d.rest
    ensures Deliver(st, s).closed || FinQueued(Deliver(st, s).ooseq)
  {
    hide OosInsert, Drain, AnnWnd, Queued;
    InsertKeepsFin(s, st.ooseq);
    DrainKeepsFin(OosInsert(s, st.ooseq), st.rcv);
  }

  /** The FIN is taken as soon as nothing is missing in front of it: when a segment
      fills the gap at rcv_nxt up to the end of the stream, and it or a queued one
      carries the FIN, the connection closes with all of the stream delivered. */
  lemma FinTaken(stream: seq<byte>, st: State, s0: Seg, copyOk: bool, ackOk: bool)
    requires Good(stream, st) && !st.closed && IsSlice(stream, s0)
    requires s0.pos <= st.rcv < s0.Next() && |stream| + 1 <= st.rcv + st.wnd
    requires forall x :: st.rcv <= x < |stream| ==> s0.pos <= x < s0.End() || Holds(st.ooseq, x)
    requires s0.fin || exists i :: 0 <= i < |st.ooseq| && st.ooseq[i].fin
    ensures var st' := Receive(st, s0, copyOk, ackOk);
            st'.closed && st'.delivered == stream && st'.rcv == |stream| + 1
  {
    hide OosInsert, Drain, AnnWnd, Queued, Holds, Deliver;
    var s := TrimLeft(s0, st.rcv);
    TrimSlice(stream, s0, st.rcv);
    var st' := Receive(st, s0, copyOk, ackOk);
    assert st.rcv <= |stream| && st' == Deliver(st, s);
    GapFilled(stream, st, s0, copyOk, ackOk, |stream|);
    DeliverTakesFin(stream, st, s);
    ReceiveGood(stream, st, s0, copyOk, ackOk);
    if !st'.closed {
      FinBeyond(stream, st'.ooseq, st'.rcv, st'.rcv + st'.wnd);
    }
  }

  // -------------------------------------------------------- the window announced

  /** What tcp_recved makes of the window: all of it is announced if that moves the
      right edge by half of it or by one segment; otherwise the edge stays, unless
      the peer has passed it. */
  lemma RecvedAnnounces(st: State, len: nat)
    ensures var st' := Step(st, Recved(len));
            && st'.wnd == Min(st.wnd + len, st.ownWnd) && st'.rcv == st.rcv && st'.annEdge == st.annEdge
            && st'.read == st.read + len && st'.delivered == st.delivered && st'.finOwed == st.finOwed
            && st'.annWnd == (if st.rcv + st'.wnd >= st.annEdge + Min(st.ownWnd / 2, st.mss) then st'.wnd
                              else Max(0, st.annEdge - st.rcv))
    ensures var st' := Step(st, Recved(len));
            Inflation(st') == if st.rcv + st'.wnd >= st.annEdge + Min(st.ownWnd / 2, st.mss)
                              then st.rcv + st'.wnd - st.annEdge else 0
  {
  }

  /** The same when data are delivered. */
  lemma DeliveryAnnounces(st: State, s0: Seg, copyOk: bool, ackOk: bool)
    requires !st.closed && s0.pos <= st.rcv < s0.Next() && 0 < st.wnd
    ensures var st' := Receive(st, s0, copyOk, ackOk);
            && st'.rcv + st'.wnd == st.rcv + st.wnd && st'.annEdge == st.annEdge
            && st'.annWnd == (if st.rcv + st.wnd >= st.annEdge + Min(st.ownWnd / 2, st.mss) then st'.wnd
                              else Max(0, st.annEdge - st'.rcv))
  {
    hide OosInsert, Drain;
  }

  /** After any run: once the application has read all that was delivered, and no
      FIN is owed, the next header announces the whole window if that moves the edge
      far enough, and otherwise leaves the edge where it was. */
  lemma ReadAllReopens(stream: seq<byte>, ownWnd: nat, mss: nat, es: seq<Event>, len: nat)
    requires LegalRun(stream, Initial(ownWnd, mss), es)
    requires var st := Run(Initial(ownWnd, mss), es); st.read + len == |st.delivered| && !st.finOwed
    ensures var st := Run(Initial(ownWnd, mss), es);
            var st' := Step(Step(st, Recved(len)), Transmit);
            st'.annEdge == if st.rcv + ownWnd >= st.annEdge + Min(ownWnd / 2, mss) then st.rcv + ownWnd
                           else Max(st.annEdge, st.rcv)
  {
    var st0 := Initial(ownWnd, mss);
    assert Good(stream, st0);
    RunGood(stream, st0, es);
    RunSettings(st0, es);
    var st := Run(st0, es);
    hide Run, LegalRun;
    RecvedAnnounces(st, len);
  }

  /** So a window that was shut opens: when all has been read, the update that
      announces all of it is due at once. */
  lemma ShutWindowOpens(stream: seq<byte>, st: State, len: nat, tcpMss: nat)
    requires Good(stream, st) && st.read + len == |st.delivered| && !st.finOwed && st.annEdge <= st.rcv
    ensures var st1 := Step(st, Recved(len));
            var st2 := Step(st1, Transmit);
            && Inflation(st1) >= Min(st.ownWnd / 4, tcpMss * 4)
            && st1.annWnd == st.ownWnd && st2.annEdge == st.rcv + st.ownWnd
  {
    RecvedAnnounces(st, len);
  }

  lemma {:induction false} RunSettings(st: State, es: seq<Event>)
    ensures Run(st, es).ownWnd == st.ownWnd && Run(st, es).mss == st.mss
    decreases |es|
  {
    if es != [] {
      StepSettings(st, es[0]);
      hide Step;
      RunSettings(Step(st, es[0]), es[1..]);
    }
  }

  lemma StepSettings(st: State, e: Event)
    ensures Step(st, e).ownWnd == st.ownWnd && Step(st, e).mss == st.mss
  {
    hide OosInsert, Drain, Enqueue;
  }

  // ----------------------------------------------------------- the other events

  /** After the queue was given up only what comes again is delivered: a segment in
      sequence hands over its own new bytes inside the window and nothing more. */
  lemma PurgeForgets(st: State, s: Seg, copyOk: bool, ackOk: bool)
    requires !st.closed && s.pos <= st.rcv < s.Next() && 0 < st.wnd
    ensures var st' := Receive(Step(st, PurgeOoseq), s, copyOk, ackOk);
            var k := st.rcv - s.pos;
            && st'.delivered == st.delivered + s.data[k..Min(|s.data|, k + st.wnd)] && st'.ooseq == []
            && (st'.closed <==> s.fin && |s.data| < k + st.wnd)
  {
    var c := CutAtEdge(TrimLeft(s, st.rcv), st.rcv + st.wnd);
    assert c.pos == st.rcv && c.data == s.data[st.rcv - s.pos..Min(|s.data|, st.rcv - s.pos + st.wnd)];
    assert [c][1..] == [];
    assert Drain([c], st.rcv) == Drained(c.data + [], c.Next(), [], c.fin || false);
  }

  /** An out-of-order segment inside the window is queued, if memory for a copy is
      found, and nothing is delivered; the immediate acknowledgment announces the
      edge. */
  lemma OutOfOrderQueued(stream: seq<byte>, st: State, s: Seg, copyOk: bool, ackOk: bool, p: int)
    requires Good(stream, st) && !st.closed && IsSlice(stream, s) && 0 < s.TcpLen()
    requires st.rcv < s.pos < st.rcv + st.wnd && p < st.rcv + st.wnd
    ensures var st' := Receive(st, s, copyOk, ackOk);
            && st'.delivered == st.delivered && st'.rcv == st.rcv && st'.wnd == st.wnd && !st'.closed
            && st'.annEdge == (if ackOk then st.rcv + st.annWnd else st.annEdge)
            && (Holds(st'.ooseq, p) <==>
                  (copyOk && s.pos <= p < s.End())
                  || (Holds(st.ooseq, p) && (!copyOk || !LosesTail(st.ooseq, s, p) || FinBefore(st.ooseq, s))))
  {
    hide Enqueue, Holds, LosesTail, FinBefore;
    EnqueueKeepsSlices(stream, st.ooseq, s, st.rcv + st.wnd, st.rcv, p);
  }

  /** A segment that lies outside the window, or behind rcv_nxt, changes nothing but
      the edge that its acknowledgment announces. */
  lemma OutsideIgnored(st: State, s: Seg, copyOk: bool, ackOk: bool)
    requires !st.closed && 0 < s.TcpLen() && 0 <= st.wnd && (s.Next() <= st.rcv || st.rcv + st.wnd <= s.pos)
    ensures Receive(st, s, copyOk, ackOk) == st.(annEdge := if ackOk then st.rcv + st.annWnd else st.annEdge)
  {
  }

  /** The FIN's sequence number is credited once. */
  lemma FinCreditedOnce(stream: seq<byte>, st: State)
    requires Good(stream, st)
    ensures var st' := Step(st, CreditFin);
            !st'.finOwed && st'.wnd == st.wnd + ToInt(st.finOwed) && Step(st', CreditFin) == st'
  {
  }

  // ------------------------------------------------ where the promise ends

  /** The condition in Legal is exact: a slice of the stream keeps the invariant
      if and only if it does not overrun the window edge untrimmed. */
  lemma GoodIffNotOverrun(stream: seq<byte>, st: State, s: Seg, ackOk: bool)
    requires Good(stream, st) && IsSlice(stream, s)
    ensures Good(stream, Receive(st, s, true, ackOk)) <==> !Overruns(st, s)
  {
    if Overruns(st, s) {
      EnqueueFits(stream, st, s);
    } else {
      ReceiveGood(stream, st, s, true, ackOk);
    }
  }

  /** And it does happen: the first out-of-order segment is queued whole though
      only two of its three bytes are inside the window. */
  lemma OverrunExample()
    ensures var st := Initial(3, 1);
            var s := Seg(1, [7, 7, 7], false);
            && Good([7, 7, 7, 7], st) && IsSlice([7, 7, 7, 7], s)
            && Overruns(st, s)
            && Receive(st, s, true, true).ooseq == [s]
            && !Good([7, 7, 7, 7], Receive(st, s, true, true))
  {
    var st, s := Initial(3, 1), Seg(1, [7, 7, 7], false);
    assert Good([7, 7, 7, 7], st);
    assert OosInsert(s, []) == [s];
    assert Receive(st, s, true, true).ooseq[0].Next() == 4;
  }
}
