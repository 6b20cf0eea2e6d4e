// The receive half of tcp_in.c and the window bookkeeping of tcp.c, on wrapping
// 32-bit sequence numbers and 16-bit windows.  Every method is proved to take
// the step that Reassembly describes on unbounded positions.
module TcpReceiver {
  import opened Words
  import opened SeqArith
  import opened Reassembly
  import opened ReassemblyTheorems

  /** A segment on a queue: struct tcp_seg with its payload flattened. */
  datatype TcpSeg = TcpSeg(seqno: u32, data: seq<byte>, fin: bool) {
    function TcpLen(): nat { |data| + if fin then 1 else 0 }
  }

  /** t is the segment v, when irs is the sequence number of position 0. */
  ghost predicate RepSeg(irs: int, t: TcpSeg, v: Seg) {
    t.seqno == Wrap(irs + v.pos) && t.data == v.data && t.fin == v.fin && |t.data| < 0xffff
  }

  ghost predicate RepQueue(irs: int, q: seq<TcpSeg>, v: seq<Seg>) {
    |q| == |v| && forall i :: 0 <= i < |q| ==> RepSeg(irs, q[i], v[i])
  }

  /** Positions within reach of the comparison macros. */
  ghost predicate Close(p: int, q: int) {
    -0x7fff_0000 < p - q < 0x7fff_0000
  }

  ghost predicate AllClose(p: int, v: seq<Seg>) {
    forall i :: 0 <= i < |v| ==> Close(p, v[i].pos)
  }

  /** How the code compares two segments. */
  lemma CompareSegs(irs: int, t: TcpSeg, c: Seg, u: TcpSeg, v: Seg)
    requires RepSeg(irs, t, c) && RepSeg(irs, u, v) && Close(c.pos, v.pos)
    ensures SeqGeq(t.seqno + |t.data|, u.seqno + |u.data|) <==> c.End() >= v.End()
    ensures SeqGt(t.seqno + |t.data|, u.seqno) <==> c.End() > v.pos
    ensures c.pos <= v.pos ==> Wrap(u.seqno - t.seqno) == v.pos - c.pos
    ensures SeqLt(t.seqno, u.seqno) <==> c.pos < v.pos
    ensures SeqGt(t.seqno, u.seqno) <==> c.pos > v.pos
    ensures t.seqno == u.seqno <==> c.pos == v.pos
  {
    hide Wrap, SeqLt, SeqGt, SeqGeq;
    Compare(irs + c.pos, |c.data|, irs + v.pos, |v.data|);
    Compare(irs + c.pos, |c.data|, irs + v.pos, 0);
    Compare(irs + c.pos, 0, irs + v.pos, 0);
    SignedDistance(irs + v.pos, irs + c.pos);
  }

  /** tcp_oos_insert_segment: link cseg in front of rest. */
  method OosInsertSegment(cseg: TcpSeg, rest: seq<TcpSeg>, ghost irs: int, ghost c: Seg, ghost v: seq<Seg>)
    returns (q: seq<TcpSeg>)
    requires RepSeg(irs, cseg, c) && RepQueue(irs, rest, v)
    requires Ordered(v, c.pos - 1) && AllClose(c.pos, v)
    ensures RepQueue(irs, q, OosInsert(c, v))
  {
    hide Wrap, SeqGeq, SeqGt, OosInsert;
    InsertAlone(c, v);
    var seqno, cs, k := cseg.seqno, cseg, 0;
    if cs.fin {
      k := |rest|;
      q := [cs];
    } else {
      ghost var c' := c;
      assert v[0..] == v;
      while k < |rest| && SeqGeq(seqno + |cs.data|, rest[k].seqno + |rest[k].data|)
        invariant 0 <= k <= |rest| && RepSeg(irs, cs, c')
        invariant c' == c.(fin := c'.fin) && seqno == cs.seqno
        invariant c'.fin ==> k == |rest|
        invariant OosInsert(c', v[k..]) == OosInsert(c, v)
      {
        CompareSegs(irs, cs, c', rest[k], v[k]);
        Covers(c', v, k);
        if rest[k].fin {
          cs := cs.(fin := true);
        }
        c' := c'.(fin := v[k].fin);
        k := k + 1;
      }
      if k < |rest| {
        CompareSegs(irs, cs, c', rest[k], v[k]);
        if SeqGt(seqno + |cs.data|, rest[k].seqno) {
          cs := cs.(data := cs.data[..Wrap(rest[k].seqno - seqno)]);
        }
      }
      Stops(c', v, k);
      q := [cs] + rest[k..];
      RepCons(irs, cs, if k < |v| then CutAt(c', v[k].pos) else c', rest, v, k);
    }
  }

  lemma RepCons(irs: int, t: TcpSeg, c: Seg, rest: seq<TcpSeg>, v: seq<Seg>, k: nat)
    requires RepSeg(irs, t, c) && RepQueue(irs, rest, v) && k <= |v|
    ensures RepQueue(irs, [t] + rest[k..], [c] + v[k..])
  {
  }

  lemma InsertAlone(c: Seg, v: seq<Seg>)
    ensures v == [] || c.fin ==> OosInsert(c, v) == [c]
  {
  }

  /** One round of the loop above. */
  lemma Covers(c: Seg, v: seq<Seg>, k: nat)
    requires k < |v| && !c.fin && c.End() >= v[k].End() && Ordered(v, c.pos - 1)
    ensures OosInsert(c, v[k..]) == OosInsert(c.(fin := v[k].fin), v[k + 1..])
    ensures v[k].fin ==> k + 1 == |v|
  {
    assert v[k..][1..] == v[k + 1..];
    assert k + 1 < |v| ==> v[k].End() <= v[k + 1].pos && !v[k].fin;
  }

  /** The end of the loop above. */
  lemma Stops(c: Seg, v: seq<Seg>, k: nat)
    requires k <= |v| && (c.fin ==> k == |v|) && (k < |v| ==> c.End() < v[k].End())
    ensures OosInsert(c, v[k..]) == [if k < |v| then CutAt(c, v[k].pos) else c] + v[k..]
  {
  }

  /** tcp_receive, a segment in sequence: remove what it covers from the queue,
      take over a FIN found there, and trim its right side where the first
      remaining segment starts. */
  method MergeQueued(inseg0: TcpSeg, queue: seq<TcpSeg>, ghost irs: int, ghost c: Seg, ghost v: seq<Seg>)
    returns (inseg: TcpSeg, rest: seq<TcpSeg>)
    requires RepSeg(irs, inseg0, c) && RepQueue(irs, queue, v)
    requires Ordered(v, c.pos - 1) && AllClose(c.pos, v)
    ensures RepSeg(irs, inseg, OosInsert(c, v)[0])
    ensures RepQueue(irs, rest, OosInsert(c, v)[1..])
  {
    hide Wrap, SeqGeq, SeqGt, OosInsert;
    InsertAlone(c, v);
    inseg, rest := inseg0, queue;
    if queue == [] {
      return;
    }
    if inseg.fin {
      rest := [];
    } else {
      ghost var m := c;
      var seqno, tcplen, k := inseg.seqno, inseg.TcpLen(), 0;
      assert v[0..] == v;
      while k < |queue| && SeqGeq(seqno + tcplen, queue[k].seqno + |queue[k].data|)
        invariant 0 <= k <= |queue| && RepSeg(irs, inseg, m)
        invariant m == c.(fin := m.fin) && seqno == inseg.seqno && tcplen == inseg.TcpLen()
        invariant m.fin ==> k == |queue|
        invariant OosInsert(m, v[k..]) == OosInsert(c, v)
      {
        CompareSegs(irs, inseg, m, queue[k], v[k]);
        Covers(m, v, k);
        if queue[k].fin {
          inseg := inseg.(fin := true);
          tcplen := inseg.TcpLen();
        }
        m := m.(fin := v[k].fin);
        k := k + 1;
      }
      if k < |queue| {
        CompareSegs(irs, inseg, m, queue[k], v[k]);
        if SeqGt(seqno + tcplen, queue[k].seqno) {
          inseg := inseg.(data := inseg.data[..Wrap(queue[k].seqno - seqno)]);
        }
      }
      Stops(m, v, k);
      rest := queue[k..];
    }
  }

  lemma BetweenSegs(irs: int, u: TcpSeg, a: Seg, t: TcpSeg, c: Seg, w: TcpSeg, b: Seg)
    requires RepSeg(irs, u, a) && RepSeg(irs, t, c) && RepSeg(irs, w, b)
    requires Close(a.pos, c.pos) && Close(c.pos, b.pos)
    ensures SeqBetween(t.seqno, u.seqno + 1, w.seqno - 1) <==> a.pos < c.pos < b.pos
  {
    Compare(irs + c.pos, 0, irs + a.pos, 1);
    Compare(irs + c.pos, 0, irs + b.pos, -1);
  }

  /** Comparison with the right edge of the window, and the distance to it. */
  lemma CompareEdge(irs: int, pos: int, len: int, rcv: int, wnd: int)
    requires Close(pos, rcv) && 0 <= len < 0x1_0000 && 0 <= wnd < 0x1_0000
    ensures SeqGt(len + Wrap(irs + pos), Wrap(irs + rcv) + wnd) <==> pos + len > rcv + wnd
    ensures pos <= rcv + wnd ==> Wrap(Wrap(irs + rcv) + wnd - Wrap(irs + pos)) == rcv + wnd - pos
    ensures SeqBetween(Wrap(irs + pos), Wrap(irs + rcv), Wrap(irs + rcv) + wnd - 1)
            <==> rcv <= pos <= rcv + wnd - 1
  {
    hide Wrap, SeqLeq, SeqGt, SeqGeq;
    Compare(irs + pos, len, irs + rcv, wnd);
    Compare(irs + pos, 0, irs + rcv, 0);
    Compare(irs + pos, 0, irs + rcv, wnd - 1);
    WrapDifference(irs + rcv, wnd, irs + pos, 0);
    SignedDistance(irs + rcv + wnd, irs + pos);
  }

  /** Comparisons with the announced right edge. */
  lemma CompareAnnounced(irs: int, st: State, d: int)
    requires st.annEdge <= st.rcv + st.wnd && st.rcv - st.annEdge <= 0x5000_0000
    requires 0 <= st.wnd < 0x1_0000 && 0 <= d < 0x1_0000
    ensures var rcv, edge := Wrap(irs + st.rcv), Wrap(irs + st.annEdge);
            && (SeqGeq(Wrap(rcv + st.wnd), edge + d) <==> st.rcv + st.wnd >= st.annEdge + d)
            && (SeqGt(rcv, edge) <==> st.rcv > st.annEdge)
            && Wrap(Wrap(rcv + st.wnd) - edge) == st.rcv + st.wnd - st.annEdge
            && (st.rcv <= st.annEdge ==> Wrap(edge - rcv) == st.annEdge - st.rcv)
  {
    hide Wrap, SeqGt, SeqGeq;
    WrapAdd(irs + st.rcv, st.wnd);
    Compare(irs + st.rcv + st.wnd, 0, irs + st.annEdge, d);
    Compare(irs + st.rcv, 0, irs + st.annEdge, 0);
    SignedDistance(irs + st.rcv + st.wnd, irs + st.annEdge);
    if st.rcv <= st.annEdge {
      SignedDistance(irs + st.annEdge, irs + st.rcv);
    }
  }

  /** The place the walk along ooseq stops at. */
  lemma {:induction false} BeforeIs(v: seq<Seg>, p: int, i: nat)
    requires i <= |v| && (forall k :: 0 <= k < i ==> v[k].pos < p) && (i < |v| ==> p <= v[i].pos)
    ensures Before(v, p) == i
  {
    if i > 0 {
      assert v[0].pos < p;
      BeforeIs(v[1..], p, i - 1);
    }
  }

  /** prev->len is cut where the new segment starts, if it reaches that far. */
  method TrimPrev(q: seq<TcpSeg>, seqno: u32, ghost irs: int, ghost v: seq<Seg>, ghost s: Seg)
    returns (r: seq<TcpSeg>)
    requires RepQueue(irs, q, v) && seqno == Wrap(irs + s.pos) && q != []
    requires v[|v| - 1].pos < s.pos && Close(v[|v| - 1].pos, s.pos)
    ensures RepQueue(irs, r, CutLast(v, s.pos))
  {
    var prev := q[|q| - 1];
    ghost var pv := v[|v| - 1];
    CompareSegs(irs, prev, pv, TcpSeg(seqno, [], false), Seg(s.pos, [], false));
    r := q;
    if SeqGt(prev.seqno + |prev.data|, seqno) {
      r := q[..|q| - 1] + [prev.(data := prev.data[..Wrap(seqno - prev.seqno)])];
    }
  }

  /** The walk has found i: everything before it starts before s. */
  ghost predicate Reached(irs: int, q: seq<TcpSeg>, inseg: TcpSeg, v: seq<Seg>, s: Seg, rcv: int, i: nat) {
    && RepQueue(irs, q, v) && RepSeg(irs, inseg, s) && 0 < s.TcpLen()
    && Ordered(v, rcv) && AllClose(s.pos, v)
    && i < |q| && forall k :: 0 <= k < i ==> v[k].pos < s.pos
  }

  /** The incoming segment starts where a queued one does: the longer wins. */
  method InsertSame(q: seq<TcpSeg>, inseg: TcpSeg, i: nat,
                    ghost irs: int, ghost v: seq<Seg>, ghost s: Seg, ghost rcv: int, ghost edge: int)
    returns (r: seq<TcpSeg>)
    requires Reached(irs, q, inseg, v, s, rcv, i) && v[i].pos == s.pos
    ensures RepQueue(irs, r, Enqueue(v, s, edge))
  {
    hide Wrap, OosInsert, Before, CutLast, AppendLast;
    BeforeIs(v, s.pos, i);
    SplitOrdered(v, s.pos, rcv);
    if |inseg.data| > |q[i].data| {
      r := OosInsertSegment(inseg, q[i..], irs, s, v[i..]);
      r := q[..i] + r;
    } else {
      r := q;
    }
  }

  /** It starts before q[i]: cut what is in front of it and link it in. */
  method InsertBefore(q: seq<TcpSeg>, inseg: TcpSeg, i: nat,
                      ghost irs: int, ghost v: seq<Seg>, ghost s: Seg, ghost rcv: int, ghost edge: int)
    returns (r: seq<TcpSeg>)
    requires Reached(irs, q, inseg, v, s, rcv, i) && s.pos < v[i].pos
    ensures RepQueue(irs, r, Enqueue(v, s, edge))
  {
    hide Wrap, OosInsert, Before, AppendLast;
    BeforeIs(v, s.pos, i);
    SplitOrdered(v, s.pos, rcv);
    r := OosInsertSegment(inseg, q[i..], irs, s, v[i..]);
    if i > 0 {
      var front := TrimPrev(q[..i], inseg.seqno, irs, v[..i], s);
      r := front + r;
    }
  }

  /** It starts behind the last queued segment. */
  method InsertLast(q: seq<TcpSeg>, inseg: TcpSeg, trimmed: TcpSeg, i: nat,
                    ghost irs: int, ghost v: seq<Seg>, ghost s: Seg, ghost rcv: int, ghost edge: int)
    returns (r: seq<TcpSeg>)
    requires Reached(irs, q, inseg, v, s, rcv, i) && i + 1 == |q| && v[i].pos < s.pos
    requires RepSeg(irs, trimmed, CutAtEdge(s, edge))
    ensures RepQueue(irs, r, Enqueue(v, s, edge))
  {
    BeforeIs(v, s.pos, i + 1);
    if q[i].fin {
      r := q;
    } else {
      r := TrimPrev(q, inseg.seqno, irs, v, s);
      r := r + [trimmed];
    }
  }

  /** The walk along a queue that is not empty. */
  method InsertByWalking(q: seq<TcpSeg>, inseg: TcpSeg, trimmed: TcpSeg,
                         ghost irs: int, ghost v: seq<Seg>, ghost s: Seg, ghost rcv: int, ghost edge: int)
    returns (r: seq<TcpSeg>)
    requires Reached(irs, q, inseg, v, s, rcv, 0)
    requires RepSeg(irs, trimmed, CutAtEdge(s, edge))
    ensures RepQueue(irs, r, Enqueue(v, s, edge))
  {
    var seqno := inseg.seqno;
    var i := 0;
    while true
      invariant Reached(irs, q, inseg, v, s, rcv, i)
      decreases |q| - i
    {
      var next := q[i];
      CompareSegs(irs, inseg, s, next, v[i]);
      if seqno == next.seqno {
        r := InsertSame(q, inseg, i, irs, v, s, rcv, edge);
        return;
      }
      if i == 0 {
        if SeqLt(seqno, next.seqno) {
          r := InsertBefore(q, inseg, i, irs, v, s, rcv, edge);
          return;
        }
      } else {
        var prev := q[i - 1];
        BetweenSegs(irs, prev, v[i - 1], inseg, s, next, v[i]);
        if SeqBetween(seqno, prev.seqno + 1, next.seqno - 1) {
          r := InsertBefore(q, inseg, i, irs, v, s, rcv, edge);
          return;
        }
      }
      if i + 1 == |q| && SeqGt(seqno, next.seqno) {
        r := InsertLast(q, inseg, trimmed, i, irs, v, s, rcv, edge);
        return;
      }
      i := i + 1;
    }
  }

  class Pcb {
    const ownWnd: u16
    const mss: u16
    const tcpMss: u16           // TCP_MSS
    var rcvNxt: u32
    var rcvWnd: u16
    var rcvAnnWnd: u16
    var rcvAnnRightEdge: u32
    var ooseq: seq<TcpSeg>
    var closed: bool            // state >= CLOSE_WAIT: the peer's FIN was received

    ghost const irs: int        // sequence number of stream position 0
    ghost var view: State       // the same pcb on unbounded positions

    /** The sequence numbers and windows stand for those of st. */
    ghost predicate Numbers(st: State)
      reads this
    {
      && st.ownWnd == ownWnd && st.mss == mss
      && rcvNxt == Wrap(irs + st.rcv) && rcvWnd == st.wnd
      && rcvAnnRightEdge == Wrap(irs + st.annEdge)
    }

    ghost predicate Valid()
      reads this
    {
      && Numbers(view) && rcvAnnWnd == view.annWnd && closed == view.closed
      && RepQueue(irs, ooseq, view.ooseq)
      && Ordered(view.ooseq, view.rcv) && Near(view.ooseq, view.rcv)
      && view.annEdge <= view.rcv + view.annWnd <= view.rcv + view.wnd && view.wnd <= ownWnd
    }

    ghost predicate Near(q: seq<Seg>, rcv: int) {
      forall i :: 0 <= i < |q| ==> q[i].pos < rcv + 0x1_0000
    }

    /** Less than 2^30 bytes were received since a segment last left. */
    ghost predicate Announced()
      reads this
    {
      view.rcv - view.annEdge <= 0x4000_0000
    }

    /** As tcp_listen_input, tcp_process and tcp_alloc leave the receive side
        of a connection that enters ESTABLISHED. */
    constructor (rcvNxt: u32, ownWnd: u16, mss: u16, tcpMss: u16)
      ensures Valid() && view == Initial(ownWnd, mss) && irs == rcvNxt
      ensures this.ownWnd == ownWnd && this.mss == mss && this.tcpMss == tcpMss
    {
      this.ownWnd, this.mss, this.tcpMss := ownWnd, mss, tcpMss;
      this.rcvNxt, this.rcvAnnRightEdge := rcvNxt, rcvNxt;
      this.rcvWnd, this.rcvAnnWnd := ownWnd, ownWnd;
      this.ooseq, this.closed := [], false;
      this.irs, this.view := rcvNxt, Initial(ownWnd, mss);
    }

    /** tcp_update_rcv_ann_wnd */
    method UpdateRcvAnnWnd(ghost st: State) returns (inflation: u32)
      requires Numbers(st) && st.annEdge <= st.rcv + st.wnd
      requires st.rcv - st.annEdge <= 0x5000_0000
      modifies this`rcvAnnWnd
      ensures rcvAnnWnd == UpdateAnnWnd(st).annWnd
      ensures inflation == Inflation(st)
    {
      hide Wrap, SeqGeq, SeqGt;
      CompareAnnounced(irs, st, Min(ownWnd / 2, mss));
      var newRightEdge := Wrap(rcvNxt + rcvWnd);
      if SeqGeq(newRightEdge, rcvAnnRightEdge + Min(ownWnd / 2, mss)) {
        rcvAnnWnd := rcvWnd;
        inflation := Wrap(newRightEdge - rcvAnnRightEdge);
      } else {
        if SeqGt(rcvNxt, rcvAnnRightEdge) {
          rcvAnnWnd := 0;
        } else {
          var newRcvAnnWnd := Wrap(rcvAnnRightEdge - rcvNxt);
          assert newRcvAnnWnd <= 0xffff;  // LWIP_ASSERT
          rcvAnnWnd := newRcvAnnWnd;
        }
        inflation := 0;
      }
    }

    /** tcp_output_alloc_header, tcp_output_segment: the header carries
        rcv_ann_wnd, and the right edge announced is remembered. */
    method TransmitHeader() returns (wnd: u16)
      requires Valid()
      modifies `rcvAnnRightEdge, `view
      ensures Valid() && view == Step(old(view), Transmit)
      ensures wnd == view.annWnd
    {
      wnd := rcvAnnWnd;
      WrapAdd(irs + view.rcv, rcvAnnWnd);
      rcvAnnRightEdge := Wrap(rcvNxt + rcvAnnWnd);
      view := Announce(view);
    }

    /** tcp_recved.  Acknowledging more than was delivered would wrap the 16-bit
        window, which the source asserts against. */
    method TcpRecved(len: u16) returns (updateNow: bool)
      requires Valid() && Announced()
      requires 0 < view.wnd + len <= 0xffff
      modifies `rcvWnd, `rcvAnnWnd, `view
      ensures Valid() && view == Step(old(view), Recved(len))
      ensures updateNow <==> Inflation(view) >= Min(ownWnd / 4, tcpMss * 4)
    {
      assert Step(view, Recved(len)) == UpdateAnnWnd(Freed(view, len));
      hide Wrap, Step, Ordered;
      rcvWnd := rcvWnd + len;
      if rcvWnd > ownWnd {
        rcvWnd := ownWnd;
      }
      ghost var st := Freed(view, len);
      var wndInflation := UpdateRcvAnnWnd(st);
      view := UpdateAnnWnd(st);
      updateNow := wndInflation >= Min(ownWnd / 4, tcpMss * 4);
    }

    /** tcp_input: the FIN's sequence number will not be acknowledged with
        tcp_recved. */
    method CreditFin()
      requires Valid() && view.finOwed
      modifies this
      ensures Valid() && view == Step(old(view), Event.CreditFin)
    {
      if rcvWnd != ownWnd {
        rcvWnd := rcvWnd + 1;
      }
      view := FinCredited(view);
    }

    /** pbuf_free_ooseq, and tcp_slowtmr's out-of-sequence timeout. */
    method PurgeOoseq()
      requires Valid()
      modifies this
      ensures Valid() && view == Step(old(view), Event.PurgeOoseq)
    {
      ooseq := [];
      view := view.(ooseq := []);
    }
  
    /** The queueing half of tcp_receive: find the place of a segment that is
        out of sequence and put it there, if memory for the copy is found. */
    method QueueOutOfOrder(inseg: TcpSeg, copyOk: bool, ghost s: Seg)
      requires Valid() && RepSeg(irs, inseg, s) && 0 < s.TcpLen()
      requires view.rcv < s.pos < view.rcv + view.wnd
      modifies `ooseq
      ensures RepQueue(irs, ooseq,
                       if copyOk then Enqueue(view.ooseq, s, view.rcv + view.wnd) else view.ooseq)
    {
      hide Wrap, CutLast, AppendLast;
      if ooseq == [] {
        assert OosInsert(s, []) == [s];
        ooseq := if copyOk then [inseg] else [];
      } else {
        hide Enqueue, CutAtEdge;
        var last := TrimToWindow(inseg, s);
        var q := InsertByWalking(ooseq, inseg, last, irs, view.ooseq, s, view.rcv, view.rcv + view.wnd);
        ooseq := if copyOk then q else ooseq;
      }
    }

    /** The other end overran the receive window: what lies beyond the right
        edge, and the FIN, is cut off. */
    method TrimToWindow(inseg: TcpSeg, ghost s: Seg) returns (r: TcpSeg)
      requires Numbers(view) && RepSeg(irs, inseg, s) && view.rcv <= s.pos <= view.rcv + view.wnd
      ensures RepSeg(irs, r, CutAtEdge(s, view.rcv + view.wnd))
    {
      r := inseg;
      CompareEdge(irs, s.pos, s.TcpLen(), view.rcv, view.wnd);
      if SeqGt(inseg.TcpLen() + inseg.seqno, rcvNxt + rcvWnd) {
        r := TcpSeg(inseg.seqno, inseg.data[..Wrap(rcvNxt + rcvWnd - inseg.seqno)], false);
      }
    }
  
    /** The delivery half of tcp_receive: a segment that is in sequence.  The
        window must not be exceeded, as the source asserts. */
    method DeliverInSequence(inseg0: TcpSeg, ghost s: Seg) returns (recvData: seq<byte>, gotFin: bool)
      requires Valid() && Announced() && !closed && RepSeg(irs, inseg0, s) && 0 < s.TcpLen()
      requires s.pos == view.rcv < view.rcv + view.wnd
      requires 0 <= Deliver(view, s).wnd
      modifies `rcvNxt, `rcvWnd, `rcvAnnWnd, `ooseq
      ensures Numbers(Deliver(view, s)) && rcvAnnWnd == Deliver(view, s).annWnd
      ensures RepQueue(irs, ooseq, Deliver(view, s).ooseq)
      ensures view.delivered + recvData == Deliver(view, s).delivered
      ensures gotFin == Deliver(view, s).closed
    {
      hide Wrap, Drain, OosInsert, AnnWnd, RepSeg, Ordered, Near, Within, CutAtEdge, Deliver;
      var inseg := TrimToWindow(inseg0, s);
      HeadTaken(view, s);
      ghost var c, q, st := CutAtEdge(s, view.rcv + view.wnd), Merged(view, s), AfterHead(view, s);
      MergeReady(view, s);
      inseg, ooseq := MergeQueued(inseg, ooseq, irs, c, view.ooseq);
      LenOfRep(inseg, q[0]);
      // the segment itself
      Consume(inseg, view, st);
      // and what is in sequence now
      recvData, gotFin := ConsumeQueue(st, view.rcv);
      recvData, gotFin := inseg.data + recvData, inseg.fin || gotFin;
    }

    lemma LenOfRep(t: TcpSeg, c: Seg)
      requires RepSeg(irs, t, c)
      ensures t.data == c.data && t.fin == c.fin && t.TcpLen() == c.TcpLen()
    {
    }

    ghost function Merged(st: State, s: Seg): (q: seq<Seg>)
      ensures q != []
    {
      OosInsert(CutAtEdge(s, st.rcv + st.wnd), st.ooseq)
    }

    ghost function AfterHead(st: State, s: Seg): State {
      var q := Merged(st, s);
      WithDrained(st, Drained(q[0].data, q[0].Next(), q[1..], q[0].fin))
    }

    ghost predicate Deliverable(st: State, s: Seg) {
      && Ordered(st.ooseq, st.rcv) && Near(st.ooseq, st.rcv) && s.pos == st.rcv < st.rcv + st.wnd
      && st.wnd < 0x1_0000 && st.annEdge <= st.rcv + st.wnd && st.rcv - st.annEdge <= 0x4000_0000
    }

    lemma MergeReady(st: State, s: Seg)
      requires Deliverable(st, s)
      ensures var c := CutAtEdge(s, st.rcv + st.wnd);
        Ordered(st.ooseq, c.pos - 1) && AllClose(c.pos, st.ooseq) && c.pos == st.rcv
    {
      var q := st.ooseq;
      CutStart(s, st.rcv + st.wnd);
      hide CutAtEdge, OosInsert;
      forall i | 0 <= i < |q|
        ensures Close(st.rcv, q[i].pos)
      {
        assert st.rcv < q[i].pos < st.rcv + 0x1_0000;
      }
    }

    lemma CutStart(s: Seg, edge: int)
      ensures CutAtEdge(s, edge).pos == s.pos
    {
    }

    /** The state between the two halves of the delivery. */
    lemma HeadTaken(st: State, s: Seg)
      requires Deliverable(st, s) && 0 <= Deliver(st, s).wnd && 0 < s.TcpLen()
      ensures var mid := AfterHead(st, s);
        && mid.rcv == st.rcv + Merged(st, s)[0].TcpLen() && 0 <= mid.wnd
        && Within(mid, st.rcv) && Drain(mid.ooseq, mid.rcv).rcv <= mid.rcv + mid.wnd
        && Deliver(st, s) == UpdateAnnWnd(WithDrained(st, Drain(Merged(st, s), st.rcv)))
        && DrainedTwice(st, mid, Merged(st, s))
    {
      hide Drain, OosInsert, AnnWnd;
      var c, q := CutAtEdge(s, st.rcv + st.wnd), Merged(st, s);
      OosInsertOrdered(c, st.ooseq);
      OosInsertBelow(c, st.ooseq, st.rcv + 0x1_0000);
      DrainHead(q, st.rcv);
    }

    ghost predicate DrainedTwice(st: State, mid: State, q: seq<Seg>)
      requires q != []
    {
      var d, r := Drain(q, st.rcv), Drain(mid.ooseq, mid.rcv);
      d == Drained(q[0].data + r.data, r.rcv, r.rest, q[0].fin || r.fin)
    }

    /** Take the segments off ooseq that are in sequence. */
    method ConsumeQueue(ghost st0: State, ghost base: int) returns (recvData: seq<byte>, gotFin: bool)
      requires Numbers(st0) && rcvAnnWnd == UpdateAnnWnd(st0).annWnd && RepQueue(irs, ooseq, st0.ooseq)
      requires Within(st0, base) && st0.annEdge <= st0.rcv + st0.wnd
      requires Drain(st0.ooseq, st0.rcv).rcv <= st0.rcv + st0.wnd
      modifies `rcvNxt, `rcvWnd, `rcvAnnWnd, `ooseq
      ensures var d := Drain(st0.ooseq, st0.rcv);
              var st := WithDrained(st0, d);
              && Numbers(st) && rcvAnnWnd == UpdateAnnWnd(st).annWnd
              && RepQueue(irs, ooseq, d.rest) && recvData == d.data && gotFin == d.fin
    {
      ghost var all := Drain(st0.ooseq, st0.rcv);
      ghost var st := st0;
      recvData, gotFin := [], false;
      hide Wrap, Drain, AnnWnd;
      while ooseq != [] && ooseq[0].seqno == rcvNxt
        invariant Numbers(st) && rcvAnnWnd == UpdateAnnWnd(st).annWnd
        invariant RepQueue(irs, ooseq, st.ooseq)
        invariant Within(st, base) && SameSetting(st, st0)
        invariant Continues(all, recvData, gotFin, st.ooseq, st.rcv)
        decreases |ooseq|
      {
        SameSeqno(irs, ooseq[0], st.ooseq[0], st.rcv);
        ContinuesNext(all, recvData, gotFin, st.ooseq, st.rcv);
        ghost var next := Taken(st);
        TakenWithin(st, base, all.rcv);
        Consume(ooseq[0], st, next);
        recvData, gotFin := recvData + ooseq[0].data, gotFin || ooseq[0].fin;
        ooseq := ooseq[1..];
        st := next;
      }
      if ooseq != [] {
        SameSeqno(irs, ooseq[0], st.ooseq[0], st.rcv);
      }
      DrainStops(st.ooseq, st.rcv);
    }

    /** tcp_receive for the text and FIN of a segment, and the state change of
        tcp_process that a FIN causes.  inseg0 is the segment s0, which starts
        less than half the sequence space away from rcv_nxt.  The other two
        demands are assertions of the source: an offset to trim is below
        0x7fff, and no more is consumed than the window allows. */
    method TcpReceive(inseg0: TcpSeg, copyOk: bool, ackOk: bool, ghost s0: Seg)
      returns (recvData: seq<byte>, gotFin: bool)
      requires Valid() && Announced() && RepSeg(irs, inseg0, s0)
      requires Close(s0.pos, view.rcv)
      requires s0.pos < view.rcv < s0.Next() ==> view.rcv - s0.pos < 0x7fff
      requires 0 <= Receive(view, s0, copyOk, ackOk).wnd
      modifies this
      ensures Valid() && view == Step(old(view), Segment(s0, copyOk, ackOk))
      ensures view.delivered == old(view).delivered + recvData
      ensures gotFin <==> view.closed && !old(view).closed
    {
      assert Step(view, Segment(s0, copyOk, ackOk)) == Receive(view, s0, copyOk, ackOk);
      NumbersOfValid();
      hide Step, Receive, Valid;
      recvData, gotFin := [], false;
      if inseg0.TcpLen() > 0 && !closed {
        recvData, gotFin := ReceiveText(inseg0, copyOk, ackOk, s0);
      } else {
        ReceiveCases(view, s0, copyOk, ackOk);
      }
    }

    lemma NumbersOfValid()
      requires Valid()
      ensures Numbers(view) && closed == view.closed
      ensures view.annEdge <= view.rcv + view.wnd
    {
    }

    method ReceiveText(inseg0: TcpSeg, copyOk: bool, ackOk: bool, ghost s0: Seg)
      returns (recvData: seq<byte>, gotFin: bool)
      requires Valid() && Announced() && RepSeg(irs, inseg0, s0) && !closed && 0 < s0.TcpLen()
      requires Close(s0.pos, view.rcv)
      requires 0 <= Receive(view, s0, copyOk, ackOk).wnd
      modifies this
      ensures Valid() && view == Receive(old(view), s0, copyOk, ackOk)
      ensures view.delivered == old(view).delivered + recvData && gotFin == view.closed
    {
      hide Valid, Wrap, Deliver, Enqueue, Receive, SeqBetween, TrimLeft, AnnWnd;
      NumbersOfValid();
      recvData, gotFin := [], false;
      var inseg := TrimFront(inseg0, s0);
      ghost var s := TrimLeft(s0, view.rcv);
      ReceiveCases(view, s0, copyOk, ackOk);
      CompareEdge(irs, s.pos, 0, view.rcv, view.wnd);
      SameSeqno(irs, inseg, s, view.rcv);
      if SeqBetween(inseg.seqno, rcvNxt, rcvNxt + rcvWnd - 1) {
        if rcvNxt == inseg.seqno {
          recvData, gotFin := AcceptInSequence(inseg, s);
        } else {
          AcceptOutOfOrder(inseg, copyOk, ackOk, s);
        }
      } else {
        SendEmptyAck(ackOk);
      }
    }

    /** tcp_send_empty_ack; ok: the header could be allocated. */
    method SendEmptyAck(ok: bool)
      requires Valid()
      modifies `rcvAnnRightEdge, `view
      ensures Valid() && view == if ok then Announce(old(view)) else old(view)
    {
      if ok {
        var _ := TransmitHeader();
      }
    }

    method AcceptInSequence(inseg: TcpSeg, ghost s: Seg) returns (recvData: seq<byte>, gotFin: bool)
      requires Valid() && Announced() && !closed && RepSeg(irs, inseg, s) && 0 < s.TcpLen()
      requires s.pos == view.rcv < view.rcv + view.wnd
      requires 0 <= Deliver(view, s).wnd
      modifies this
      ensures Valid() && view == Deliver(old(view), s)
      ensures view.delivered == old(view).delivered + recvData && gotFin == view.closed
    {
      DeliverOrdered(view, s);
      DeliverNear(view, s);
      recvData, gotFin := DeliverInSequence(inseg, s);
      hide Wrap, AnnWnd, Drain, OosInsert;
      view := Deliver(view, s);
      closed := gotFin;
    }

    method AcceptOutOfOrder(inseg: TcpSeg, copyOk: bool, ackOk: bool, ghost s: Seg)
      requires Valid() && RepSeg(irs, inseg, s) && 0 < s.TcpLen()
      requires view.rcv < s.pos < view.rcv + view.wnd
      modifies this
      ensures Valid()
      ensures var acked := if ackOk then Announce(old(view)) else old(view);
              view == if copyOk then acked.(ooseq := Enqueue(acked.ooseq, s, acked.rcv + acked.wnd)) else acked
    {
      hide Wrap, Enqueue;
      SendEmptyAck(ackOk);
      QueueOutOfOrder(inseg, copyOk, s);
      if copyOk {
        EnqueueOrdered(view.ooseq, s, view.rcv + view.wnd, view.rcv);
        EnqueueBelow(view.ooseq, s, view.rcv + view.wnd, view.rcv + 0x1_0000);
        view := view.(ooseq := Enqueue(view.ooseq, s, view.rcv + view.wnd));
      }
    }

    /** Push the start of the segment up to rcv_nxt if rcv_nxt lies inside. */
    method TrimFront(inseg0: TcpSeg, ghost s0: Seg) returns (inseg: TcpSeg)
      requires Numbers(view) && RepSeg(irs, inseg0, s0) && s0.TcpLen() > 0
      requires Close(s0.pos, view.rcv)
      ensures RepSeg(irs, inseg, TrimLeft(s0, view.rcv))
    {
      inseg := inseg0;
      var seqno: int, tcplen: int := inseg.seqno, inseg.TcpLen();
      Compare(irs + view.rcv, 0, irs + s0.pos, 1);
      Compare(irs + view.rcv, 0, irs + s0.pos, tcplen - 1);
      if SeqBetween(rcvNxt, seqno + 1, seqno + tcplen - 1) {
        SignedDistance(irs + view.rcv, irs + s0.pos);
        var off := Wrap(rcvNxt - seqno);
        inseg := TcpSeg(rcvNxt, inseg.data[off..], inseg.fin);
      }
    }

    /** rcv_nxt and rcv_wnd move over a segment. */
    method Consume(t: TcpSeg, ghost st: State, ghost st': State)
      requires Numbers(st) && st'.rcv == st.rcv + t.TcpLen() && st'.wnd == st.wnd - t.TcpLen()
      requires st'.ownWnd == st.ownWnd && st'.mss == st.mss && st'.annEdge == st.annEdge
      requires 0 <= st'.wnd && st'.annEdge <= st'.rcv + st'.wnd && st'.rcv - st'.annEdge <= 0x5000_0000
      modifies `rcvNxt, `rcvWnd, `rcvAnnWnd
      ensures Numbers(st') && rcvAnnWnd == UpdateAnnWnd(st').annWnd
    {
      WrapAdd(irs + st.rcv, t.TcpLen());
      rcvNxt := Wrap(rcvNxt + t.TcpLen());
      rcvWnd := rcvWnd - t.TcpLen();
      hide Wrap;
      var _ := UpdateRcvAnnWnd(st');
    }
  }

  /** The queue and rcv lie in a stretch that starts at base. */
  ghost predicate Within(st: State, base: int) {
    && base <= st.rcv && st.rcv + st.wnd <= base + 0x1_0000 && base - st.annEdge <= 0x4000_0000
    && forall i :: 0 <= i < |st.ooseq| ==> base <= st.ooseq[i].pos < base + 0x1_0000
  }

  ghost predicate SameSetting(a: State, b: State) {
    && a.ownWnd == b.ownWnd && a.mss == b.mss && a.annEdge == b.annEdge
    && a.rcv + a.wnd == b.rcv + b.wnd
  }

  /** st after its first queued segment was consumed. */
  ghost function Taken(st: State): State
    requires st.ooseq != []
  {
    st.(rcv := st.ooseq[0].Next(), wnd := st.wnd - (st.ooseq[0].Next() - st.rcv), ooseq := st.ooseq[1..])
  }

  lemma TakenWithin(st: State, base: int, reach: int)
    requires st.ooseq != [] && st.ooseq[0].pos == st.rcv && Within(st, base)
    requires st.ooseq[0].Next() <= reach <= st.rcv + st.wnd
    ensures Within(Taken(st), base) && 0 <= Taken(st).wnd
  {
  }

  lemma ContinuesNext(d: Drained, data: seq<byte>, fin: bool, q: seq<Seg>, rcv: int)
    requires q != [] && q[0].pos == rcv && Continues(d, data, fin, q, rcv)
    ensures Continues(d, data + q[0].data, fin || q[0].fin, q[1..], q[0].Next())
    ensures q[0].Next() <= d.rcv
  {
    DrainHead(q, rcv);
  }

  /** The cases of Receive, spelled out. */
  lemma ReceiveCases(st: State, s0: Seg, copyOk: bool, ackOk: bool)
    ensures var r, s := Receive(st, s0, copyOk, ackOk), TrimLeft(s0, st.rcv);
            var acked := if ackOk then Announce(st) else st;
            if st.closed || s0.TcpLen() == 0 then r == st
            else if st.rcv == s.pos < st.rcv + st.wnd then r == Deliver(st, s)
            else if st.rcv < s.pos < st.rcv + st.wnd && copyOk then
              r == acked.(ooseq := Enqueue(st.ooseq, s, st.rcv + st.wnd))
            else r == acked
    ensures 0 < s0.TcpLen() ==> 0 < TrimLeft(s0, st.rcv).TcpLen()
    ensures TrimLeft(s0, st.rcv).pos == s0.pos || TrimLeft(s0, st.rcv).pos == st.rcv
  {
  }

  lemma SameSeqno(irs: int, t: TcpSeg, c: Seg, rcv: int)
    requires RepSeg(irs, t, c) && Close(c.pos, rcv)
    ensures t.seqno == Wrap(irs + rcv) <==> c.pos == rcv
  {
    SignedDistance(irs + c.pos, irs + rcv);
  }

  lemma DrainHead(q: seq<Seg>, rcv: int)
    requires q != [] && q[0].pos == rcv
    ensures var d, r := Drain(q, rcv), Drain(q[1..], q[0].Next());
            d == Drained(q[0].data + r.data, r.rcv, r.rest, q[0].fin || r.fin)
    ensures q[0].Next() <= Drain(q, rcv).rcv
  {
    DrainForward(q[1..], q[0].Next());
  }

  lemma DrainStops(q: seq<Seg>, rcv: int)
    requires q == [] || q[0].pos != rcv
    ensures Drain(q, rcv) == Drained([], rcv, q, false)
  {
  }

  /** What has been taken so far, followed by draining the rest, is d. */
  ghost predicate Continues(d: Drained, data: seq<byte>, fin: bool, q: seq<Seg>, rcv: int) {
    var r := Drain(q, rcv);
    d == Drained(data + r.data, r.rcv, r.rest, fin || r.fin)
  }
}
