// How large the queued segments get: no larger than mss_local, which is half the
// largest window the peer ever offered, and when that fails.
module SendQueueSizes {
  import opened Words
  import opened SendQueue
  import opened SendQueueTheorems

  ghost predicate Within(q: seq<Seg>, m: int) {
    forall i :: 0 <= i < |q| ==> |q[i].data| <= m
  }

  /** The last unsent segment, spare room included, may still grow to m bytes. */
  predicate RoomWithin(st: State, m: int) {
    st.open && st.unsent != [] ==> |st.unsent[|st.unsent| - 1].data| + st.oversize <= m
  }

  function Limit(st: State): nat { MssLocal(st.cfg.mss, st.sndWndMax) }

  /** No queued segment, and not the last one with its spare room either, is
      larger than mss_local. */
  ghost predicate Fits(st: State) {
    Within(Queue(st), Limit(st)) && RoomWithin(st, Limit(st))
  }

  // -------------------------------------------------------------------- write

  /** tcp_write makes no segment larger than mss_local, spare room included. */
  lemma CommitFits(st: State, data: seq<byte>, copy: bool, more: bool)
    requires 0 < st.cfg.mss && Fits(st) && st.open
    ensures Fits(Commit(st, data, copy, more))
  {
    var fill, extra, segs := CommitIs(st, data, copy, more);
    var st' := Commit(st, data, copy, more);
    var mss := MssLocal(st.cfg.mss, st.sndWndMax);
    var mid := AppendToLast(st.unsent, data[..fill], extra);
    AppendToLastAt(st.unsent, data[..fill], extra);
    TailFits(st, data, copy, more);
    Assoc(st.unacked, mid, segs);
    hide Chop, AppendToLast, Spare, PlanWrite, PlanTail, NewOversize, MssLocal, Commit;
    assert forall i :: 0 <= i < |segs| ==> |segs[i].data| <= mss;
    assert |mid| == |st.unsent| && st'.unsent == mid + segs;
    forall i | 0 <= i < |Queue(st')|
      ensures |Queue(st')[i].data| <= mss
    {
      if i < |st.unacked| + |st.unsent| {
        assert |Queue(st)[i].data| <= mss;
      }
    }
  }

  /** The room used and kept at the end of the unsent queue. */
  lemma TailFits(st: State, data: seq<byte>, copy: bool, more: bool)
    requires 0 < st.cfg.mss && Fits(st) && st.open
    ensures var st', mss := Commit(st, data, copy, more), MssLocal(st.cfg.mss, st.sndWndMax);
            var t := PlanTail(st, |data|, copy, more);
            && st'.cfg == st.cfg && st'.sndWndMax == st.sndWndMax
            && (st.unsent != [] ==> |st.unsent[|st.unsent| - 1].data| + t.used + t.chained <= mss)
            && (st'.unsent != [] ==> |st'.unsent[|st'.unsent| - 1].data| + st'.oversize <= mss)
  {
    hide Chop, AppendToLast, Spare, PlanTail, MssLocal;
    var p := PlanWrite(st, data, copy, more);
    PlanFits(st, |data|, copy, more);
    AppendToLastAt(st.unsent, data[..p.tail.used + p.tail.chained], ToInt(p.tail.chained > 0));
  }

  lemma PlanFits(st: State, len: nat, copy: bool, more: bool)
    requires Fits(st) && st.open && 0 < st.cfg.mss
    ensures var t := PlanTail(st, len, copy, more);
            st.unsent != [] ==> |st.unsent[|st.unsent| - 1].data| + t.used + t.chained + t.oversize
                                <= MssLocal(st.cfg.mss, st.sndWndMax)
    ensures PlanTail(st, len, copy, more).used + PlanTail(st, len, copy, more).chained < len ==>
              PlanTail(st, len, copy, more).oversize == 0
  {
    hide MssLocal;
  }

  lemma WriteFits(st: State, data: seq<byte>, copy: bool, more: bool, mem: nat)
    requires 0 < st.cfg.mss && Fits(st)
    ensures Fits(Write(st, data, copy, more, mem))
  {
    hide Commit, PlanWrite;
    if WriteErr(st, data, Copies(st.cfg, copy), more, mem) == ERR_OK {
      CommitFits(st, data, Copies(st.cfg, copy), more);
    } else {
      assert Queue(Write(st, data, copy, more, mem)) == Queue(st);
    }
  }

  /** What tcp_write asserts about the last unsent segment holds as long as the
      queues fit. */
  lemma FitsPasses(st: State)
    requires Fits(st) && st.open
    ensures TailSmall(st)
  {
    assert st.unsent != [] ==> Queue(st)[|Queue(st)| - 1] == st.unsent[|st.unsent| - 1];
  }

  /** All but the last of the segments cut off are of full size. */
  lemma {:induction false} ChopFull(pos: int, data: seq<byte>, mss: nat, clen: nat)
    requires 0 < mss
    ensures forall i :: 0 <= i < |Chop(pos, data, mss, clen)| ==>
              Chop(pos, data, mss, clen)[i].clen == clen
              && (i < |Chop(pos, data, mss, clen)| - 1 ==> |Chop(pos, data, mss, clen)[i].data| == mss)
    decreases |data|
  {
    if data != [] {
      var n := Min(mss, |data|);
      var s, rest := Seg(pos, data[..n], false, clen), Chop(pos + n, data[n..], mss, clen);
      ChopFull(pos + n, data[n..], mss, clen);
      assert Chop(pos, data, mss, clen) == [s] + rest;
      assert rest != [] ==> n == mss;
      hide Chop;
    }
  }

  /** tcp_write leaves no short segment in the middle: those it adds are full but
      for the last, and it adds none before the last unsent one is full. */
  lemma WriteFills(st: State, data: seq<byte>, copy: bool, more: bool)
    requires 0 < st.cfg.mss < 0x1_0000 && Fits(st) && st.open
    ensures var st', n := Commit(st, data, copy, more), |st.unsent|;
            var half := Min(st.cfg.mss, st.sndWndMax / 2);
            var full := if half == 0 then st.cfg.mss else half;
            && |st'.unsent| >= n && (forall i :: n <= i < |st'.unsent| - 1 ==> |st'.unsent[i].data| == full)
            && (|st'.unsent| > n > 0 && st.unsent[n - 1].data != [] ==> |st'.unsent[n - 1].data| == full)
            && (forall i :: n <= i < |st'.unsent| ==> st'.unsent[i].clen == if copy then 1 else 2)
            && (|st'.unsent| > n && copy && st.cfg.singlePbuf ==>
                  |st'.unsent[|st'.unsent| - 1].data| + st'.oversize == full)
  {
    var fill, extra, segs := CommitIs(st, data, copy, more);
    var mss := MssLocal(st.cfg.mss, st.sndWndMax);
    ChopFull(st.lbb + fill, data[fill..], mss, SegClen(copy));
    AppendToLastAt(st.unsent, data[..fill], extra);
    var st' := Commit(st, data, copy, more);
    assert segs != [] ==> fill < |data|;
    if st.unsent != [] { TailFull(st, |data|, copy, more); }
    if st.cfg.singlePbuf && copy { RoomLeft(st, data, copy, more); }
    hide Chop, AppendToLast, Commit, PlanWrite, PlanTail, Spare, Fits;
  }

  lemma TailFull(st: State, len: nat, copy: bool, more: bool)
    requires 0 < st.cfg.mss < 0x1_0000 && Fits(st) && st.open && st.unsent != []
    ensures var t, last := PlanTail(st, len, copy, more), st.unsent[|st.unsent| - 1];
            last.data != [] && t.used + t.chained < len ==>
              |last.data| + t.used + t.chained == MssLocal(st.cfg.mss, st.sndWndMax)
  {
    hide MssLocal, Spare;
  }

  /** Without LWIP_NETIF_TX_SINGLE_PBUF, a new pbuf that Nagle's algorithm may hold
      back, or behind which more is announced, is the smallest multiple of 4 with
      room for TCP_OVERSIZE more bytes, cut off at max; any other is full. */
  lemma OversizeIsLeast(cfg: Config, idle: bool, length: nat, max: nat, more: bool, firstSeg: bool)
    requires length <= max && !cfg.singlePbuf
    ensures var size := length + Spare(cfg, idle, length, max, more, firstSeg);
            if more || (!cfg.noDelay && !(firstSeg && idle)) then
              && (size == max || (size % 4 == 0 && size < max))
              && size >= Min(max, length + cfg.overUnit)
              && (forall k :: length + cfg.overUnit <= k && k % 4 == 0 ==> size <= k)
            else size == length
  {
    var k0 := (length + cfg.overUnit + 3) / 4 * 4;
    forall k | length + cfg.overUnit <= k && k % 4 == 0
      ensures k0 <= k
    {
    }
  }

  lemma RoomLeft(st: State, data: seq<byte>, copy: bool, more: bool)
    requires 0 < st.cfg.mss && st.cfg.singlePbuf && copy
    ensures var p := PlanWrite(st, data, copy, more);
            p.segs != [] ==> |p.segs[|p.segs| - 1].data| + Commit(st, data, copy, more).oversize
                             == MssLocal(st.cfg.mss, st.sndWndMax)
  {
    hide PlanTail, MssLocal, AppendToLast;
    var p := PlanWrite(st, data, copy, more);
    var fill := p.tail.used + p.tail.chained;
    assert p.segs == Chop(st.lbb + fill, data[fill..], MssLocal(st.cfg.mss, st.sndWndMax), SegClen(copy));
    hide Chop;
    if p.segs != [] {
      assert |p.segs[|p.segs| - 1].data| <= MssLocal(st.cfg.mss, st.sndWndMax);
      assert NewOversize(st, p, copy, more) == Spare(st.cfg, Idle(st), |p.segs[|p.segs| - 1].data|,
                                                     MssLocal(st.cfg.mss, st.sndWndMax), more, |p.segs| == 1);
    }
  }

  // ---------------------------------------------------------- the other steps

  lemma WithinFin(a: seq<Seg>, b: seq<Seg>, m: int)
    requires b != [] && Within(a + b, m)
    ensures Within(a + (b[..|b| - 1] + [b[|b| - 1].(fin := true)]), m)
  {
    var q := a + b;
    var r := a + (b[..|b| - 1] + [b[|b| - 1].(fin := true)]);
    assert forall i :: 0 <= i < |q| ==> r[i].data == q[i].data;
  }

  lemma WithinAdd(a: seq<Seg>, b: seq<Seg>, s: Seg, m: int)
    requires Within(a + b, m) && |s.data| <= m
    ensures Within(a + (b + [s]), m)
  {
    assert a + (b + [s]) == (a + b) + [s];
  }

  lemma CloseFits(st: State, mem: nat)
    requires Fits(st)
    ensures Fits(Close(st, mem))
  {
    hide Within, MssLocal;
    if st.open && st.unsent != [] {
      WithinFin(st.unacked, st.unsent, Limit(st));
    }
    WithinAdd(st.unacked, st.unsent, Seg(st.lbb, [], true, 1), Limit(st));
  }

  lemma {:induction false} LoopRoom(st: State, wnd: nat, sends: nat)
    requires RoomWithin(st, Limit(st))
    ensures RoomWithin(SendLoop(st, wnd, sends), Limit(st)) && Limit(SendLoop(st, wnd, sends)) == Limit(st)
    decreases sends
  {
    hide InsertUnacked, InWindow, MaySend, MssLocal;
    if st.unsent != [] && sends > 0 {
      assert |st.unsent| > 1 ==> st.unsent[1..][|st.unsent| - 2] == st.unsent[|st.unsent| - 1];
      LoopRoom(SendHead(st), wnd, sends - 1);
    }
  }

  lemma LoopFits(st: State, total: nat, wnd: nat, sends: nat)
    requires Core(st, total) && Fits(st)
    ensures Fits(SendLoop(st, wnd, sends))
  {
    hide Core, SendLoop, Queue, Within, RoomWithin, Limit, InWindow, MaySend;
    LoopGood(st, total, wnd, sends);
    LoopRoom(st, wnd, sends);
  }

  lemma OutputFits(st: State, total: nat, wnd: nat, ackNow: bool, sends: nat)
    requires Inv(st, total) && Fits(st)
    ensures Fits(Output(st, wnd, ackNow, sends))
  {
    hide Core, SendLoop, Fits, InWindow;
    LoopFits(st, total, wnd, sends);
  }

  lemma RequeueFits(st: State)
    requires Fits(st) && (st.unsent == [] ==> st.oversize == 0)
    ensures Fits(Requeue(st))
  {
    hide MssLocal;
    var q := Queue(st);
    RequeueQueue(st);
    assert q != [] ==> q[|q| - 1] == Requeue(st).unsent[|q| - 1];
    assert st.unsent != [] ==> q[|q| - 1] == st.unsent[|st.unsent| - 1];
  }

  lemma RtoFits(st: State, total: nat, wnd: nat, ackNow: bool, sends: nat)
    requires Inv(st, total) && Fits(st)
    ensures Fits(RexmitRto(st, wnd, ackNow, sends))
  {
    RequeueFits(st);
    RequeueGood(st, total);
    hide Inv, Fits, Output;
    OutputFits(Requeue(st), total, wnd, ackNow, sends);
  }

  lemma AckFits(st: State, total: nat, p: int)
    requires Inv(st, total) && Fits(st)
    ensures Fits(Ack(st, p))
  {
    if st.lastack < p <= st.nxt {
      ChainOf(st, total);
      hide Inv, Chain, Clens, Reported, Ack, MssLocal;
      var n, m := NewAckParts(st, p);
      SuffixFits(st, Ack(st, p), n, m);
    } else if p <= st.lastack {
      OldAck(st, total, p);
    }
  }

  lemma SuffixFits(st: State, st': State, n: nat, m: nat)
    requires Fits(st) && n <= |st.unacked| && m <= |st.unsent| && n + m <= |Queue(st)|
    requires Queue(st') == Queue(st)[n + m..] && st'.unsent == st.unsent[m..]
    requires st'.cfg == st.cfg && st'.sndWndMax == st.sndWndMax && st'.open == st.open
    requires st'.oversize == (if m > 0 && m == |st.unsent| then 0 else st.oversize)
    ensures Fits(st')
  {
    assert st'.unsent != [] ==> st'.unsent[|st'.unsent| - 1] == st.unsent[|st.unsent| - 1];
  }

  lemma FastFits(st: State, total: nat, wnd: nat, ackNow: bool, sends: nat)
    requires Inv(st, total) && Fits(st) && Legal(st, ThirdDupAck(wnd, ackNow, sends))
    ensures Fits(FastRetransmit(st, wnd, ackNow, sends))
  {
    if st.unacked == [] || st.inFr {
      OutputFits(st, total, wnd, ackNow, sends);
    } else if Resent(st, wnd, sends) {
      ResentFits(st, total, wnd, ackNow, sends);
    } else {
      AloneFits(st, total, wnd, ackNow, sends);
    }
  }

  lemma ResentFits(st: State, total: nat, wnd: nat, ackNow: bool, sends: nat)
    requires Inv(st, total) && Fits(st) && st.unacked != [] && !st.inFr && Resent(st, wnd, sends)
    ensures Fits(FastRetransmit(st, wnd, ackNow, sends))
  {
    hide Inv, Core, Fits, SendLoop, FastRetransmit, RexmitFast, SendHead;
    var st1 := st.(inFr := true, wire := st.wire + [st.unacked[0].Wire()]);
    ResentOutput(st, total, wnd, ackNow, sends);
    ResentGood(st, total);
    CoreOf(st1, total);
    SameFits(st, st1);
    LoopFits(st1, total, wnd, sends - 1);
  }

  lemma SameFits(st: State, st': State)
    requires Fits(st) && st'.unacked == st.unacked && st'.unsent == st.unsent && st'.oversize == st.oversize
    requires st'.cfg == st.cfg && st'.sndWndMax == st.sndWndMax && (st'.open ==> st.open)
    ensures Fits(st')
  {
    assert Queue(st') == Queue(st);
  }

  lemma AloneFits(st: State, total: nat, wnd: nat, ackNow: bool, sends: nat)
    requires Inv(st, total) && Fits(st) && |st.unacked| == 1 && !st.inFr
    ensures Fits(FastRetransmit(st, wnd, ackNow, sends))
  {
    OnlyOne(st, total);
    RexmitIs(st, total);
    RequeueFits(st);
    hide Inv, Rexmit, Output, MssLocal;
    assert st.unacked == [st.unacked[0]] && st.unacked[1..] == [];
    var st1 := RexmitFast(st);
    assert st1.unsent == Requeue(st).unsent && st1.unacked == Requeue(st).unacked;
    OutputFits(st1, total, wnd, ackNow, sends);
  }

  // -------------------------------------------------------- without any window

  /** However the window changes, no segment outgrows the segment size and the
      send buffer, as long as tcp_write's assertion holds. */
  ghost predicate Sized(st: State, total: nat) {
    Within(Queue(st), st.cfg.mss + total)
  }

  /** The assertion that the step passes. */
  predicate Asserts(st: State, e: Event) {
    e.DoWrite? && Admitted(st, e.data) ==> TailSmall(st)
  }

  lemma CommitSized(st: State, total: nat, data: seq<byte>, copy: bool, more: bool)
    requires 0 < st.cfg.mss && Sized(st, total) && TailSmall(st) && |data| <= total
    ensures Sized(Commit(st, data, copy, more), total)
  {
    var fill, extra, segs := CommitIs(st, data, copy, more);
    var mid := AppendToLast(st.unsent, data[..fill], extra);
    AppendToLastAt(st.unsent, data[..fill], extra);
    Assoc(st.unacked, mid, segs);
    var st', q := Commit(st, data, copy, more), Queue(st);
    assert st'.cfg == st.cfg && Queue(st') == st.unacked + mid + segs;
    hide Commit, Chop, AppendToLast, PlanWrite, PlanTail;
    assert forall i :: 0 <= i < |segs| ==> |segs[i].data| <= st.cfg.mss;
    hide MssLocal;
    forall i | 0 <= i < |Queue(st')|
      ensures |Queue(st')[i].data| <= st.cfg.mss + total
    {
      if i < |q| { assert |q[i].data| <= st.cfg.mss + total; }
    }
  }

  lemma WriteSized(st: State, total: nat, data: seq<byte>, copy: bool, more: bool, mem: nat)
    requires Inv(st, total) && Sized(st, total) && Asserts(st, DoWrite(data, copy, more, mem))
    ensures Sized(Write(st, data, copy, more, mem), total)
  {
    OpenRoom(st, total);
    hide Inv, Commit, PlanWrite, Within;
    if WriteErr(st, data, Copies(st.cfg, copy), more, mem) == ERR_OK {
      CommitSized(st, total, data, Copies(st.cfg, copy), more);
    } else {
      assert Queue(Write(st, data, copy, more, mem)) == Queue(st);
    }
  }

  lemma OpenRoom(st: State, total: nat)
    requires Inv(st, total)
    ensures 0 < st.cfg.mss && (st.open ==> st.buf <= total)
  {
    hide Chained, Wired;
  }

  lemma StepSized(st: State, total: nat, e: Event)
    requires Inv(st, total) && Sized(st, total) && 0 < st.cfg.mss && Legal(st, e) && Asserts(st, e)
    ensures Sized(Step(st, e), total)
  {
    StepKeepsCfg(st, e);
    hide Inv, Write, Output, Ack, RexmitRto, FastRetransmit, Asserts, Legal;
    match e
    case DoWrite(data, copy, more, mem) => WriteSized(st, total, data, copy, more, mem);
    case DoClose(mem) => CloseSized(st, total, mem);
    case DoOutput(wnd, ackNow, sends) => OutputGood(st, total, wnd, ackNow, sends);
    case DoAck(p) => AckSized(st, total, p);
    case Timeout(wnd, ackNow, sends) => RexmitRtoGood(st, total, wnd, ackNow, sends);
    case ThirdDupAck(wnd, ackNow, sends) => FastQueue(st, total, wnd, ackNow, sends);
    case OfferWindow(wnd) => assert Queue(Step(st, e)) == Queue(st);
  }

  lemma CloseSized(st: State, total: nat, mem: nat)
    requires Sized(st, total)
    ensures Sized(Close(st, mem), total)
  {
    hide Within;
    if st.open && st.unsent != [] {
      WithinFin(st.unacked, st.unsent, st.cfg.mss + total);
    }
    WithinAdd(st.unacked, st.unsent, Seg(st.lbb, [], true, 1), st.cfg.mss + total);
  }

  lemma AckSized(st: State, total: nat, p: int)
    requires Inv(st, total) && Sized(st, total)
    ensures Sized(Ack(st, p), total)
  {
    if st.lastack < p <= st.nxt {
      ChainOf(st, total);
      hide Inv, Chain, Clens, Reported, Ack, Queue;
      var n, m := NewAckParts(st, p);
    } else if p <= st.lastack {
      OldAck(st, total, p);
    }
  }

  /** Fast retransmit and its output leave the whole queue as it is. */
  lemma FastQueue(st: State, total: nat, wnd: nat, ackNow: bool, sends: nat)
    requires Inv(st, total) && Legal(st, ThirdDupAck(wnd, ackNow, sends))
    ensures Queue(FastRetransmit(st, wnd, ackNow, sends)) == Queue(st)
  {
    if st.unacked == [] || st.inFr {
      OutputGood(st, total, wnd, ackNow, sends);
    } else if Resent(st, wnd, sends) {
      ResentQueue(st, total, wnd, ackNow, sends);
    } else {
      OnlyOne(st, total);
      RexmitIs(st, total);
      hide Inv, Rexmit, Output;
      assert st.unacked == [st.unacked[0]] && st.unacked[1..] == [];
      assert Queue(RexmitFast(st)) == Queue(st);
      OutputGood(RexmitFast(st), total, wnd, ackNow, sends);
    }
  }

  lemma ResentQueue(st: State, total: nat, wnd: nat, ackNow: bool, sends: nat)
    requires Inv(st, total) && st.unacked != [] && !st.inFr && Resent(st, wnd, sends)
    ensures Queue(FastRetransmit(st, wnd, ackNow, sends)) == Queue(st)
  {
    hide Inv, Core, SendLoop, FastRetransmit, RexmitFast, SendHead;
    var st1 := st.(inFr := true, wire := st.wire + [st.unacked[0].Wire()]);
    ResentOutput(st, total, wnd, ackNow, sends);
    ResentGood(st, total);
    CoreOf(st1, total);
    LoopGood(st1, total, wnd, sends - 1);
  }

  // --------------------------------------------------------- the peer's window

  /** A larger window never makes segments smaller, except that a peer which
      first offered less than 2 bytes is sent whole segments until it offers
      more. */
  lemma MssLocalGrows(mss: nat, w: nat, w': nat)
    requires w <= w' && 0 < mss
    ensures MssLocal(mss, w) <= MssLocal(mss, w') <==> w >= 2 || w' < 2 || w' / 2 >= mss
  {
  }

  /** A larger window leaves queues that fit fitting if and only if it makes no
      segment size smaller, or nothing queued is larger than half of it. */
  predicate OfferFits(st: State, wnd: nat) {
    || st.sndWndMax >= 2 || wnd < 2 || wnd / 2 >= st.cfg.mss
    || ((forall s :: s in st.unacked + st.unsent ==> |s.data| <= wnd / 2) && RoomWithin(st, wnd / 2))
  }

  lemma OfferFitsIff(st: State, wnd: nat)
    requires Fits(st) && 0 < st.cfg.mss
    ensures Fits(Step(st, OfferWindow(wnd))) <==> OfferFits(st, wnd)
  {
    var st' := Step(st, OfferWindow(wnd));
    MssLocalGrows(st.cfg.mss, st.sndWndMax, st'.sndWndMax);
    assert Queue(st') == Queue(st) == st.unacked + st.unsent;
    if st.sndWndMax < 2 <= wnd && wnd / 2 < st.cfg.mss {
      assert Limit(st') == wnd / 2;
    }
  }

  /** Every step keeps the sizes, an offer if and only if it meets its condition. */
  lemma StepFits(st: State, total: nat, e: Event)
    requires Inv(st, total) && Fits(st) && 0 < st.cfg.mss && Legal(st, e)
    ensures Fits(Step(st, e)) <==> (e.OfferWindow? ==> OfferFits(st, e.wnd))
  {
    hide Inv, Fits, Write, Close, Output, Ack, RexmitRto, FastRetransmit, Legal, OfferFits;
    match e
    case DoWrite(data, copy, more, mem) => WriteFits(st, data, copy, more, mem);
    case DoClose(mem) => CloseFits(st, mem);
    case DoOutput(wnd, ackNow, sends) => OutputFits(st, total, wnd, ackNow, sends);
    case DoAck(p) => AckFits(st, total, p);
    case Timeout(wnd, ackNow, sends) => RtoFits(st, total, wnd, ackNow, sends);
    case ThirdDupAck(wnd, ackNow, sends) => FastFits(st, total, wnd, ackNow, sends);
    case OfferWindow(wnd) => OfferFitsIff(st, wnd);
  }

  /** And it does fail: a peer that first offered no window, was sent a segment of
      four bytes, and then offers two.  The next tcp_write fails its assertion. */
  lemma ShrinkExample()
    ensures var st0 := Initial(Config(4, 16, 4, true, true), 100, 0);
            var st1 := Write(st0, [1, 2, 3, 4], true, false, 9);
            var st2 := Step(st1, OfferWindow(2));
            && st1.unsent == [Seg(0, [1, 2, 3, 4], false, 1)]
            && Fits(st1) && !OfferFits(st1, 2) && !Fits(st2) && !TailSmall(st2)
  {
    hide Fits, Write;
    var st0 := Initial(Config(4, 16, 4, true, true), 100, 0);
    assert Fits(st0) by { EmptyFits(st0); }
    FourWritten();
    WriteFits(st0, [1, 2, 3, 4], true, false, 9);
    var st1 := Write(st0, [1, 2, 3, 4], true, false, 9);
    assert st1.unsent[0] in st1.unacked + st1.unsent;
    OfferFitsIff(st1, 2);
  }

  lemma EmptyFits(st: State)
    requires st.unacked == [] && st.unsent == []
    ensures Fits(st)
  {
  }

  lemma FourWritten()
    ensures var st1 := Write(Initial(Config(4, 16, 4, true, true), 100, 0), [1, 2, 3, 4], true, false, 9);
            st1.unsent == [Seg(0, [1, 2, 3, 4], false, 1)] && st1.sndWndMax == 0 && st1.cfg.mss == 4
  {
    var st0, data := Initial(Config(4, 16, 4, true, true), 100, 0), [1, 2, 3, 4];
    var segs := FourChopped();
    assert PlanTail(st0, 4, true, false) == Tail(0, 0, 0);
    assert data[0..] == data;
    var p := PlanWrite(st0, data, true, false);
    assert p.segs == segs;
    hide Chop, PlanWrite;
    var fill, extra, q := CommitIs(st0, data, true, false);
    assert AppendToLast(st0.unsent, data[..fill], extra) + q == q;
  }

  lemma FourChopped() returns (segs: seq<Seg>)
    ensures segs == [Seg(0, [1, 2, 3, 4], false, 1)] == Chop(0, [1, 2, 3, 4], 4, 1)
  {
    var data := [1, 2, 3, 4];
    assert data[..4] == data && data[4..] == [];
    segs := [Seg(0, data, false, 1)];
    assert Chop(4, data[4..], 4, 1) == [];
  }
}
