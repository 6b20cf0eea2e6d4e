// The queue invariant of Reassembly, kept by insertion, trimming and draining for
// arbitrary segments.
module ReassemblyTheorems {
  import opened Words
  import opened Reassembly

  // --------------------------------------------------------- queue invariant

  /** Insertion keeps the queue ordered, and its first segment starts where c
      does. */
  lemma {:induction false} OosInsertOrdered(c: Seg, rest: seq<Seg>)
    requires 0 < c.TcpLen()
    requires Ordered(rest, c.pos - 1)
    requires rest != [] && rest[0].pos == c.pos ==> |rest[0].data| < |c.data|
    ensures Ordered(OosInsert(c, rest), c.pos - 1)
    decreases |rest|
  {
    if rest != [] && !c.fin {
      if c.End() >= rest[0].End() {
        TailBehind(c, rest);
        OosInsertOrdered(c.(fin := rest[0].fin), rest[1..]);
      } else {
        CutInFront(c, rest);
      }
    }
  }

  /** Behind a covered segment the rest still starts where c may not. */
  lemma TailBehind(c: Seg, rest: seq<Seg>)
    requires rest != [] && Ordered(rest, c.pos - 1) && c.End() >= rest[0].End()
    requires rest[0].pos == c.pos ==> |rest[0].data| < |c.data|
    ensures Ordered(rest[1..], c.pos - 1)
    ensures |rest| > 1 && rest[1].pos == c.pos ==> |rest[1].data| < |c.data|
    ensures rest[0].fin ==> |rest| == 1
  {
    assert forall k :: 0 <= k < |rest| ==> c.pos <= rest[k].pos;
    SuffixOrdered(rest, 1, c.pos - 1, c.pos);
    if |rest| > 1 {
      assert rest[0].End() <= rest[1].pos && !rest[0].fin && 0 < rest[0].TcpLen();
    }
  }

  lemma CutInFront(c: Seg, rest: seq<Seg>)
    requires rest != [] && Ordered(rest, c.pos - 1) && c.End() < rest[0].End() && !c.fin && 0 < c.TcpLen()
    requires rest[0].pos == c.pos ==> |rest[0].data| < |c.data|
    ensures Ordered([CutAt(c, rest[0].pos)] + rest, c.pos - 1)
  {
    var h := CutAt(c, rest[0].pos);
    var q := [h] + rest;
    assert c.pos < rest[0].pos && h.pos == c.pos && h.End() <= rest[0].pos && 0 < h.TcpLen() && !h.fin;
    forall j | 0 < j < |q|
      ensures h.End() <= q[j].pos && c.pos <= q[j].pos && 0 < q[j].TcpLen()
    {
      assert q[j] == rest[j - 1] && (j > 1 ==> rest[0].End() <= rest[j - 1].pos);
    }
    forall i, j | 0 <= i < j < |q|
      ensures q[i].End() <= q[j].pos && !q[i].fin
    {
      if i > 0 { assert q[i] == rest[i - 1] && q[j] == rest[j - 1]; }
    }
  }

  lemma {:induction false} BeforeSplits(q: seq<Seg>, p: int, rcv: int)
    requires Ordered(q, rcv)
    ensures forall i :: 0 <= i < Before(q, p) ==> q[i].pos < p
    ensures forall i :: Before(q, p) <= i < |q| ==> p <= q[i].pos
  {
    if q != [] && q[0].pos < p {
      BeforeSplits(q[1..], p, rcv);
    }
  }

  lemma CutLastOrdered(q: seq<Seg>, p: int, rcv: int)
    requires Ordered(q, rcv)
    requires forall i :: 0 <= i < |q| ==> q[i].pos < p && !q[i].fin
    ensures Ordered(CutLast(q, p), rcv)
    ensures forall i :: 0 <= i < |q| ==>
              CutLast(q, p)[i].End() <= p && !CutLast(q, p)[i].fin
  {
    var r := CutLast(q, p);
    forall i | 0 <= i < |q|
      ensures r[i].End() <= p && !r[i].fin && r[i].pos == q[i].pos && r[i].End() <= q[i].End()
    {
      if i < |q| - 1 {
        assert q[i].End() <= q[|q| - 1].pos;
      }
    }
  }

  /** Two ordered runs, the first FIN-free and ending before the second starts. */
  lemma AppendOrdered(a: seq<Seg>, b: seq<Seg>, p: int, rcv: int)
    requires Ordered(a, rcv) && Ordered(b, p - 1) && rcv < p
    requires forall i :: 0 <= i < |a| ==> a[i].End() <= p && !a[i].fin
    ensures Ordered(a + b, rcv)
  {
    var q := a + b;
    forall i, j | 0 <= i < j < |q|
      ensures q[i].End() <= q[j].pos && !q[i].fin
    {
      if i < |a| <= j { assert p <= b[j - |a|].pos; }
    }
  }

  lemma AppendLastOrdered(q: seq<Seg>, s: Seg, edge: int, rcv: int)
    requires Ordered(q, rcv) && rcv < s.pos < edge && 0 < s.TcpLen() && q != []
    requires forall i :: 0 <= i < |q| ==> q[i].pos < s.pos
    ensures Ordered(AppendLast(q, s, edge), rcv)
  {
    if !q[|q| - 1].fin {
      CutLastOrdered(q, s.pos, rcv);
      AppendOrdered(CutLast(q, s.pos), [CutAtEdge(s, edge)], s.pos, rcv);
    }
  }

  lemma InsertOrdered(front: seq<Seg>, s: Seg, rest: seq<Seg>, rcv: int)
    requires Ordered(front, rcv) && Ordered(rest, s.pos - 1) && rcv < s.pos && 0 < s.TcpLen()
    requires forall i :: 0 <= i < |front| ==> front[i].pos < s.pos && !front[i].fin
    requires rest != [] && rest[0].pos == s.pos ==> |rest[0].data| < |s.data|
    ensures Ordered(CutLast(front, s.pos) + OosInsert(s, rest), rcv)
    ensures (forall i :: 0 <= i < |front| ==> front[i].End() <= s.pos) ==>
              Ordered(front + OosInsert(s, rest), rcv)
  {
    OosInsertOrdered(s, rest);
    CutLastOrdered(front, s.pos, rcv);
    AppendOrdered(CutLast(front, s.pos), OosInsert(s, rest), s.pos, rcv);
    if forall i :: 0 <= i < |front| ==> front[i].End() <= s.pos {
      AppendOrdered(front, OosInsert(s, rest), s.pos, rcv);
    }
  }

  lemma SplitOrdered(q: seq<Seg>, p: int, rcv: int)
    requires Ordered(q, rcv)
    ensures var i := Before(q, p);
            && Ordered(q[..i], rcv)
            && Ordered(q[i..], p - 1)
            && (forall k :: 0 <= k < i ==> q[..i][k].pos < p)
            && (i < |q| ==> forall k :: 0 <= k < i ==> q[..i][k].End() <= q[i].pos && !q[..i][k].fin)
  {
    BeforeSplits(q, p, rcv);
    hide Before, Ordered;
    PrefixOrdered(q, Before(q, p), rcv);
    SuffixOrdered(q, Before(q, p), rcv, p);
  }

  lemma PrefixOrdered(q: seq<Seg>, i: nat, rcv: int)
    requires Ordered(q, rcv) && i <= |q|
    ensures Ordered(q[..i], rcv)
    ensures i < |q| ==> forall k :: 0 <= k < i ==> q[..i][k].End() <= q[i].pos && !q[..i][k].fin
  {
    forall k | 0 <= k < i
      ensures q[..i][k] == q[k]
    {
    }
  }

  lemma SuffixOrdered(q: seq<Seg>, i: nat, rcv: int, p: int)
    requires Ordered(q, rcv) && i <= |q| && forall k :: i <= k < |q| ==> p <= q[k].pos
    ensures Ordered(q[i..], p - 1)
  {
    var t := q[i..];
    forall x, y | 0 <= x < y < |t|
      ensures t[x].End() <= t[y].pos && !t[x].fin
    {
      assert t[x] == q[i + x] && t[y] == q[i + y];
    }
  }

  /** Whatever an in-window segment overlaps, the queue stays sorted, disjoint,
      beyond rcv_nxt, with a FIN only at its end. */
  lemma EnqueueOrdered(q: seq<Seg>, s: Seg, edge: int, rcv: int)
    requires Ordered(q, rcv) && rcv < s.pos < edge && 0 < s.TcpLen()
    ensures Ordered(Enqueue(q, s, edge), rcv)
  {
    SplitOrdered(q, s.pos, rcv);
    var i := Before(q, s.pos);
    if i == |q| && i > 0 {
      assert q[..i] == q;
      AppendLastOrdered(q, s, edge, rcv);
    } else if i == |q| || q[i].pos != s.pos || |s.data| > |q[i].data| {
      InsertOrdered(q[..i], s, q[i..], rcv);
    }
  }

  lemma {:induction false} DrainOrdered(q: seq<Seg>, rcv: int, edge: int)
    requires Ordered(q, rcv - 1) && Fits(q, edge) && rcv <= edge
    ensures Ordered(Drain(q, rcv).rest, Drain(q, rcv).rcv)
    ensures rcv <= Drain(q, rcv).rcv <= edge
    decreases |q|
  {
    if q == [] || q[0].pos != rcv {
      OrderedBeyond(q, rcv);
    } else {
      assert forall i :: 0 < i < |q| ==> q[0].End() <= q[i].pos && !q[0].fin;
      OrderedTail(q, rcv);
      DrainOrdered(q[1..], q[0].Next(), edge);
    }
  }

  lemma OrderedTail(q: seq<Seg>, rcv: int)
    requires Ordered(q, rcv - 1) && q != []
    ensures Ordered(q[1..], q[0].Next() - 1)
    ensures q[0].fin ==> q[1..] == []
  {
    assert |q| > 1 ==> q[0].End() <= q[1].pos && !q[0].fin;
    var t := q[1..];
    forall i | 0 <= i < |t|
      ensures q[0].End() <= t[i].pos && 0 < t[i].TcpLen()
    {
      assert t[i] == q[i + 1];
    }
  }

  lemma OrderedBeyond(q: seq<Seg>, rcv: int)
    requires Ordered(q, rcv - 1) && (q != [] ==> q[0].pos != rcv)
    ensures Ordered(q, rcv)
  {
    assert forall i :: 0 < i < |q| ==> q[0].End() <= q[i].pos;
  }

  lemma DeliverOrdered(st: State, s: Seg)
    requires Ordered(st.ooseq, st.rcv) && 0 < s.TcpLen() && st.rcv == s.pos < st.rcv + st.wnd
    ensures Ordered(Deliver(st, s).ooseq, Deliver(st, s).rcv)
  {
    hide OosInsert, Drain;
    var edge := st.rcv + st.wnd;
    var c := CutAtEdge(s, edge);
    var q := OosInsert(c, st.ooseq);
    OosInsertOrdered(c, st.ooseq);
    DrainOrdered(q, st.rcv, MaxNext(q, st.rcv));
  }

  lemma DeliverNear(st: State, s: Seg)
    requires s.pos == st.rcv < st.rcv + st.wnd
    requires forall i :: 0 <= i < |st.ooseq| ==> st.ooseq[i].pos < st.rcv + 0x1_0000
    ensures st.rcv <= Deliver(st, s).rcv
    ensures forall i :: 0 <= i < |Deliver(st, s).ooseq| ==>
              Deliver(st, s).ooseq[i].pos < Deliver(st, s).rcv + 0x1_0000
    ensures Deliver(st, s).annEdge == st.annEdge
    ensures Deliver(st, s).rcv + Deliver(st, s).wnd == st.rcv + st.wnd
  {
    var c := CutAtEdge(s, st.rcv + st.wnd);
    OosInsertBelow(c, st.ooseq, st.rcv + 0x1_0000);
    DrainBelow(OosInsert(c, st.ooseq), st.rcv, st.rcv + 0x1_0000);
  }

  lemma {:induction false} DrainBelow(q: seq<Seg>, rcv: int, bound: int)
    requires forall i :: 0 <= i < |q| ==> q[i].pos < bound
    ensures rcv <= Drain(q, rcv).rcv
    ensures forall i :: 0 <= i < |Drain(q, rcv).rest| ==> Drain(q, rcv).rest[i].pos < bound
    decreases |q|
  {
    if q != [] && q[0].pos == rcv {
      DrainBelow(q[1..], q[0].Next(), bound);
    }
  }

  /** Positions on the queue stay below any bound that s respects. */
  lemma {:induction false} OosInsertBelow(c: Seg, rest: seq<Seg>, bound: int)
    requires c.pos < bound && forall i :: 0 <= i < |rest| ==> rest[i].pos < bound
    ensures forall i :: 0 <= i < |OosInsert(c, rest)| ==> OosInsert(c, rest)[i].pos < bound
    decreases |rest|
  {
    if rest != [] && !c.fin && c.End() >= rest[0].End() {
      OosInsertBelow(c.(fin := rest[0].fin), rest[1..], bound);
    }
  }

  lemma EnqueueBelow(q: seq<Seg>, s: Seg, edge: int, bound: int)
    requires s.pos < bound && forall i :: 0 <= i < |q| ==> q[i].pos < bound
    ensures forall i :: 0 <= i < |Enqueue(q, s, edge)| ==> Enqueue(q, s, edge)[i].pos < bound
  {
    OosInsertBelow(s, q[Before(q, s.pos)..], bound);
  }

  ghost function MaxNext(q: seq<Seg>, lo: int): (m: int)
    ensures lo <= m && forall i :: 0 <= i < |q| ==> q[i].Next() <= m
  {
    if q == [] then lo
    else
      var m := MaxNext(q[1..], lo);
      assert forall i :: 0 < i < |q| ==> q[i] == q[1..][i - 1];
      if q[0].Next() > m then q[0].Next() else m
  }

  /** s repeats what the peer's stream has at its position; a FIN ends it. */
  ghost predicate IsSlice(stream: seq<byte>, s: Seg) {
    && 0 <= s.pos && s.End() <= |stream|
    && s.data == stream[s.pos..s.End()]
    && (s.fin ==> s.End() == |stream|)
  }

  lemma {:induction false} DrainForward(q: seq<Seg>, rcv: int)
    ensures Drain(q, rcv).rcv >= rcv
    decreases |q|
  {
    if q != [] && q[0].pos == rcv {
      DrainForward(q[1..], q[0].Next());
    }
  }
}
