// Whole runs of the send side: the queues tile sequence space, a write is all or
// nothing, and what is due is sent.
module SendQueueRuns {
  import opened Words
  import opened SendQueue
  import opened SendQueueSizes
  import opened SendQueueTheorems
  import R = Reassembly
  import RT = ReassemblyTheorems

  // ------------------------------------------------------------- what is sent

  function Wires(q: seq<Seg>): (w: seq<R.Seg>)
    ensures |w| == |q| && forall i :: 0 <= i < |q| ==> w[i] == q[i].Wire()
  {
    if q == [] then [] else [q[0].Wire()] + Wires(q[1..])
  }

  /** The first k segments of unsent were sent, in order, and nothing else. */
  ghost predicate SentFirst(st: State, st': State, k: nat) {
    && k <= |st.unsent| && st'.unsent == st.unsent[k..] && st'.wire == st.wire + Wires(st.unsent[..k])
    && st'.lastack == st.lastack && st'.inFr == st.inFr && (k == 0 ==> st'.unacked == st.unacked)
  }

  lemma WiresCons(s: Seg, q: seq<Seg>)
    ensures Wires([s] + q) == [s.Wire()] + Wires(q)
  {
    assert ([s] + q)[1..] == q;
  }

  lemma DropOne(q: seq<Seg>, n: nat)
    requires q != [] && n < |q|
    ensures q[n + 1..] == q[1..][n..] && q[..n + 1] == [q[0]] + q[1..][..n]
  {
  }

  lemma SentOneMore(st: State, st': State, n: nat)
    requires st.unsent != [] && SentFirst(SendHead(st), st', n)
    ensures SentFirst(st, st', n + 1)
  {
    hide InsertUnacked, Wires;
    var s, q := st.unsent[0], st.unsent[1..];
    DropOne(st.unsent, n);
    WiresCons(s, q[..n]);
    assert st.wire + ([s.Wire()] + Wires(q[..n])) == st.wire + [s.Wire()] + Wires(q[..n]);
  }

  /** The loop sends the head of unsent, in order, and stops for a reason only:
      nothing is left, the IP layer refuses, the window is full, or Nagle's
      algorithm holds the rest back. */
  lemma {:induction false} LoopSends(st: State, wnd: nat, sends: nat) returns (k: nat)
    ensures var st' := SendLoop(st, wnd, sends);
            && SentFirst(st, st', k) && k <= sends
            && (st'.unsent == [] || k == sends || !InWindow(st', wnd) || !MaySend(st'))
    decreases sends
  {
    hide SendHead;
    if st.unsent == [] || !InWindow(st, wnd) || !MaySend(st) || sends == 0 {
      k := 0;
    } else {
      var n := LoopSends(SendHead(st), wnd, sends - 1);
      hide SentFirst, MaySend, InWindow;
      SentOneMore(st, SendLoop(SendHead(st), wnd, sends - 1), n);
      k := n + 1;
    }
  }

  lemma OutputSends(st: State, wnd: nat, ackNow: bool, sends: nat) returns (k: nat)
    ensures var st' := Output(st, wnd, ackNow, sends);
            && SentFirst(st, st', k) && k <= sends
            && (st'.unsent == [] || k == sends || !InWindow(st', wnd) || !MaySend(st'))
  {
    hide SendLoop, MaySend;
    if ackNow && (st.unsent == [] || !InWindow(st, wnd)) {
      k := 0;
    } else {
      k := LoopSends(st, wnd, sends);
    }
  }

  /** Nagle's algorithm, on the queues before an output: segment i of unsent, once
      those before it have left, waits because it is the last one and small, and
      something is unacknowledged, and nothing overrides it. */
  predicate HeldBack(st: State, i: nat)
    requires i < |st.unsent|
  {
    && i + 1 == |st.unsent| && (i > 0 || st.unacked != []) && |st.unsent[i].data| < st.cfg.mss
    && !st.cfg.noDelay && !st.inFr && st.buf != 0 && st.queuelen < st.cfg.queueMax
    && !st.nagleMemErr && !st.finFlag
  }

  /** Output must stop at segment i: nothing is left, it ends outside the window, or
      it is held back. */
  predicate StopsAt(st: State, i: nat, wnd: nat)
    requires i <= |st.unsent|
  {
    i == |st.unsent| || st.unsent[i].pos + |st.unsent[i].data| > st.lastack + wnd || HeldBack(st, i)
  }

  /** What output leaves on unsent, and how: k segments are gone, each of which could
      leave, and it stops because it must or because the IP layer refuses. */
  ghost predicate StopsRight(st: State, st': State, wnd: nat, sends: nat, k: nat) {
    && k <= |st.unsent| && k <= sends && st'.unsent == st.unsent[k..]
    && (forall i :: 0 <= i < k ==> !StopsAt(st, i, wnd)) && (StopsAt(st, k, wnd) || k == sends)
  }

  lemma {:induction false} LoopStops(st: State, wnd: nat, sends: nat) returns (k: nat)
    requires forall i :: 0 <= i < |st.unsent| ==> 0 < st.unsent[i].TcpLen()
    ensures var st' := SendLoop(st, wnd, sends);
            StopsRight(st, st', wnd, sends, k) && (st'.nagleMemErr <==> !StopsAt(st, k, wnd))
    decreases sends
  {
    hide MaySend, InWindow, SendHead, StopsAt;
    if st.unsent != [] { HeadGone(st, wnd); }
    StopsAtEnd(st, wnd);
    if st.unsent == [] || !InWindow(st, wnd) || !MaySend(st) || sends == 0 {
      k := 0;
    } else {
      var n := LoopStops(SendHead(st), wnd, sends - 1);
      StopsOneLater(st, SendLoop(SendHead(st), wnd, sends - 1), wnd, sends, n);
      k := n + 1;
    }
  }

  lemma StopsAtEnd(st: State, wnd: nat)
    ensures StopsAt(st, |st.unsent|, wnd) && st.unsent[0..] == st.unsent
  {
  }

  lemma StopsOneLater(st: State, st': State, wnd: nat, sends: nat, n: nat)
    requires st.unsent != [] && 0 < st.unsent[0].TcpLen() && sends > 0 && !StopsAt(st, 0, wnd)
    requires StopsRight(SendHead(st), st', wnd, sends - 1, n)
    ensures StopsRight(st, st', wnd, sends, n + 1) && (StopsAt(st, n + 1, wnd) <==> StopsAt(SendHead(st), n, wnd))
  {
    HeadGone(st, wnd);
    hide SendHead, StopsAt, MaySend;
    assert st.unsent[1..][n..] == st.unsent[n + 1..];
    forall i | 0 <= i < n + 1
      ensures !StopsAt(st, i, wnd)
    {
      if i > 0 { assert !StopsAt(SendHead(st), i - 1, wnd); }
    }
  }

  lemma HeadGone(st: State, wnd: nat)
    requires st.unsent != [] && 0 < st.unsent[0].TcpLen()
    ensures !StopsAt(st, 0, wnd) <==> InWindow(st, wnd) && MaySend(st)
    ensures SendHead(st).unsent == st.unsent[1..]
    ensures forall i :: 0 < i <= |st.unsent| ==> (StopsAt(st, i, wnd) <==> StopsAt(SendHead(st), i - 1, wnd))
  {
    hide InsertSorted;
    InsertSortedSize(st.unacked, st.unsent[0]);
  }

  lemma {:induction false} InsertSortedSize(q: seq<Seg>, s: Seg)
    ensures |InsertSorted(q, s)| == |q| + 1
  {
    if q != [] && q[0].pos < s.pos { InsertSortedSize(q[1..], s); }
  }

  /** What tcp_output sends is the head of unsent, in order: every segment that may
      leave does so, until the IP layer refuses one, and none that must wait. */
  lemma OutputExact(st: State, total: nat, wnd: nat, ackNow: bool, sends: nat) returns (k: nat)
    requires Inv(st, total)
    ensures var st' := Output(st, wnd, ackNow, sends);
            SentFirst(st, st', k) && StopsRight(st, st', wnd, sends, k)
  {
    SegmentsFull(st, total);
    hide Inv, SendLoop, MaySend, HeldBack, Wires;
    if ackNow && (st.unsent == [] || !InWindow(st, wnd)) {
      k := 0;
    } else {
      k := LoopSends(st, wnd, sends);
      var n := LoopStops(st, wnd, sends);
      assert |st.unsent[k..]| == |st.unsent[n..]|;
    }
  }

  lemma SegmentsFull(st: State, total: nat)
    requires Inv(st, total)
    ensures forall i :: 0 <= i < |st.unsent| ==> 0 < st.unsent[i].TcpLen()
  {
    assert forall i :: 0 <= i < |st.unsent| ==> Queue(st)[|st.unacked| + i] == st.unsent[i];
  }

  /** With an IP layer that takes everything, a head inside the window stays on
      unsent if and only if Nagle's algorithm holds it: it is the last one and
      small, something is unacknowledged, and nothing overrides the algorithm. */
  lemma LeftIff(st: State, total: nat, wnd: nat, ackNow: bool, sends: nat)
    requires Inv(st, total) && sends > |st.unsent|
    ensures var st' := Output(st, wnd, ackNow, sends);
            var n := |st.unsent|;
            (st'.unsent != [] && st'.unsent[0].pos + |st'.unsent[0].data| <= st.lastack + wnd) <==>
              && n > 0 && st.unsent[n - 1].pos + |st.unsent[n - 1].data| <= st.lastack + wnd
              && (n > 1 || st.unacked != []) && |st.unsent[n - 1].data| < st.cfg.mss
              && !st.cfg.noDelay && !st.inFr && st.buf != 0 && st.queuelen < st.cfg.queueMax
              && !st.nagleMemErr && !st.finFlag
  {
    var n := |st.unsent|;
    forall i | 0 <= i < n
      ensures st.unsent[i].End() <= st.unsent[n - 1].End()
    {
      EndsGrow(st, total, i);
    }
    hide Inv, Output, Wires;
    var k := OutputExact(st, total, wnd, ackNow, sends);
    var st' := Output(st, wnd, ackNow, sends);
    if k < n {
      assert st'.unsent[0] == st.unsent[k] && st.unsent[k].End() <= st.unsent[n - 1].End();
    } else if n > 0 {
      assert !StopsAt(st, n - 1, wnd);
    }
  }

  lemma EndsGrow(st: State, total: nat, i: nat)
    requires Inv(st, total) && i < |st.unsent|
    ensures st.unsent[i].End() <= st.unsent[|st.unsent| - 1].End()
  {
    hide Clens, SlicesOf, Wired, HeadAt;
    var q, a := Queue(st), |st.unacked|;
    assert q[a + i] == st.unsent[i] && q[|q| - 1] == st.unsent[|st.unsent| - 1];
    if a + i < |q| - 1 { ChainSorted(q, Hi(st), a + i, |q| - 1); }
  }

  /** A timeout really sends the first unacknowledged segment again, if the window
      and the IP layer allow. */
  lemma RtoResends(st: State, wnd: nat, ackNow: bool, sends: nat)
    requires st.unacked != [] && Resent(st, wnd, sends)
    ensures var st' := RexmitRto(st, wnd, ackNow, sends);
            |st'.wire| > |st.wire| && st'.wire[|st.wire|] == st.unacked[0].Wire()
  {
    hide Output;
    FirstSent(Requeue(st), wnd, ackNow, sends);
  }

  /** So does the third duplicate acknowledgment. */
  lemma FastResends(st: State, total: nat, wnd: nat, ackNow: bool, sends: nat)
    requires Inv(st, total) && st.unacked != [] && !st.inFr && Resent(st, wnd, sends)
    ensures var st' := FastRetransmit(st, wnd, ackNow, sends);
            |st'.wire| > |st.wire| && st'.wire[|st.wire|] == st.unacked[0].Wire()
  {
    hide Inv, Rexmit, Output;
    RexmitIs(st, total);
    FirstSent(RexmitFast(st), wnd, ackNow, sends);
  }

  /** Nothing holds back the head of unsent if nothing else is on its way. */
  lemma FirstSent(st: State, wnd: nat, ackNow: bool, sends: nat)
    requires st.unsent != [] && InWindow(st, wnd) && (st.unacked == [] || st.inFr) && sends > 0
    ensures var st' := Output(st, wnd, ackNow, sends);
            |st'.wire| > |st.wire| && st'.wire[|st.wire|] == st.unsent[0].Wire()
  {
    hide Output;
    var k := OutputSends(st, wnd, ackNow, sends);
    assert k > 0;
    assert st.unsent[..k][0] == st.unsent[0];
  }

  // ----------------------------------------------------------- fast recovery

  /** The third duplicate acknowledgment starts a recovery, and until something new
      is acknowledged a further one only lets output go on. */
  lemma RecoveryIsOnce(st: State, total: nat, wnd: nat, ackNow: bool, sends: nat)
    requires Inv(st, total) && st.unacked != []
    ensures FastRetransmit(st, wnd, ackNow, sends).inFr
    ensures st.inFr ==> FastRetransmit(st, wnd, ackNow, sends) == Output(st, wnd, ackNow, sends)
    ensures forall p :: st.lastack < p <= st.nxt ==> !Ack(st, p).inFr && Ack(st, p).lastack == p
    ensures forall p :: !(st.lastack < p <= st.nxt) ==> Ack(st, p).inFr == st.inFr && Ack(st, p).lastack == st.lastack
  {
    hide Inv, Rexmit, Output, Covered, Clens, Reported;
    if !st.inFr { RexmitIs(st, total); }
    var k := OutputSends(RexmitFast(st), wnd, ackNow, sends);
  }

  // --------------------------------------------------------------------- runs

  lemma StepGood(st: State, total: nat, e: Event)
    requires Inv(st, total) && 0 < st.cfg.mss && Legal(st, e)
    ensures Inv(Step(st, e), total)
  {
    hide Inv;
    match e
    case DoWrite(data, copy, more, mem) => WriteGood(st, total, data, copy, more, mem);
    case DoClose(mem) => CloseGood(st, total, mem);
    case DoOutput(wnd, ackNow, sends) => OutputGood(st, total, wnd, ackNow, sends);
    case DoAck(p) => AckGood(st, total, p);
    case Timeout(wnd, ackNow, sends) => RexmitRtoGood(st, total, wnd, ackNow, sends);
    case ThirdDupAck(wnd, ackNow, sends) => FastRetransmitGood(st, total, wnd, ackNow, sends);
    case OfferWindow(wnd) => OfferGood(st, total, wnd);
  }

  ghost predicate LegalRun(st: State, es: seq<Event>)
    requires 0 < st.cfg.mss
    decreases |es|
  {
    es == [] ||
    (StepKeepsCfg(st, es[0]);
     Legal(st, es[0]) && LegalRun(Step(st, es[0]), es[1..]))
  }

  lemma {:induction false} RunGood(st: State, total: nat, es: seq<Event>)
    requires 0 < st.cfg.mss && Inv(st, total) && Bounded(st) && LegalRun(st, es)
    ensures Inv(Run(st, es), total) && Bounded(Run(st, es))
    decreases |es|
  {
    hide Inv, Step, Legal, Bounded;
    if es != [] {
      StepGood(st, total, es[0]);
      StepBounded(st, es[0]);
      StepKeepsCfg(st, es[0]);
      RunGood(Step(st, es[0]), total, es[1..]);
    }
  }

  /** Every window offered meets the condition under which the queues stay small. */
  ghost predicate OffersFit(st: State, es: seq<Event>)
    requires 0 < st.cfg.mss
    decreases |es|
  {
    es == [] ||
    (StepKeepsCfg(st, es[0]);
     (es[0].OfferWindow? ==> OfferFits(st, es[0].wnd)) && OffersFit(Step(st, es[0]), es[1..]))
  }

  lemma {:induction false} RunFits(st: State, total: nat, es: seq<Event>)
    requires 0 < st.cfg.mss && Inv(st, total) && Fits(st) && LegalRun(st, es) && OffersFit(st, es)
    ensures Fits(Run(st, es))
    decreases |es|
  {
    hide Inv, Step, Legal, Fits, OfferFits;
    if es != [] {
      StepGood(st, total, es[0]);
      StepFits(st, total, es[0]);
      StepKeepsCfg(st, es[0]);
      RunFits(Step(st, es[0]), total, es[1..]);
    }
  }

  /** No queued segment, spare room included, is larger than mss_local, and what
      tcp_write asserts holds, as long as every offer meets its condition. */
  lemma SizesWithinMss(cfg: Config, total: nat, sndWnd: nat, es: seq<Event>)
    requires 0 < cfg.mss && LegalRun(Initial(cfg, total, sndWnd), es) && OffersFit(Initial(cfg, total, sndWnd), es)
    ensures var st := Run(Initial(cfg, total, sndWnd), es);
            && (forall i :: 0 <= i < |st.unacked + st.unsent| ==>
                  |(st.unacked + st.unsent)[i].data| <= MssLocal(st.cfg.mss, st.sndWndMax))
            && RoomWithin(st, MssLocal(st.cfg.mss, st.sndWndMax)) && (st.open ==> TailSmall(st))
  {
    var st0 := Initial(cfg, total, sndWnd);
    InitialGood(cfg, total, sndWnd);
    EmptyFits(st0);
    RunFits(st0, total, es);
    if Run(st0, es).open { FitsPasses(Run(st0, es)); }
    hide Run, LegalRun, OffersFit, Inv, TailSmall, RoomWithin;
  }

  /** A peer whose first window is at least two bytes may offer what it likes. */
  lemma {:induction false} LargeOffers(st: State, es: seq<Event>)
    requires 0 < st.cfg.mss && 2 <= st.sndWndMax
    ensures OffersFit(st, es)
    decreases |es|
  {
    hide Step;
    if es != [] {
      StepKeepsCfg(st, es[0]);
      WindowGrows(st, es[0]);
      LargeOffers(Step(st, es[0]), es[1..]);
    }
  }

  lemma WindowGrows(st: State, e: Event)
    requires 0 < st.cfg.mss
    ensures st.sndWndMax <= Step(st, e).sndWndMax
  {
    hide InWindow, MaySend, Covered, InsertUnacked, Clens, Reported, Rexmit, PlanWrite;
    match e
    case DoOutput(wnd, _, sends) => LoopKeepsWindow(st, wnd, sends);
    case Timeout(wnd, _, sends) => LoopKeepsWindow(Requeue(st), wnd, sends);
    case ThirdDupAck(wnd, _, sends) =>
      LoopKeepsWindow(RexmitFast(st), wnd, sends);
      if st.unacked != [] { RexmitKeepsWindow(st); }
    case _ =>
  }

  lemma RexmitKeepsWindow(st: State)
    requires st.unacked != []
    ensures Rexmit(st).sndWndMax == st.sndWndMax
  {
    hide InsertSorted, PlaceOf;
  }

  lemma {:induction false} LoopKeepsWindow(st: State, wnd: nat, sends: nat)
    ensures SendLoop(st, wnd, sends).sndWndMax == st.sndWndMax
    decreases sends
  {
    hide InsertUnacked, InWindow, MaySend;
    if sends > 0 && st.unsent != [] {
      LoopKeepsWindow(SendHead(st), wnd, sends - 1);
    }
  }

  /** Over every run the send queues tile sequence space: unacked then unsent is
      one chain of slices of what was written, its first segment holds the byte
      that lastack points to, it ends at snd_lbb unless a FIN rides on its last
      segment, and the counters agree with it. */
  lemma SendQueuesTile(cfg: Config, total: nat, sndWnd: nat, es: seq<Event>)
    requires 0 < cfg.mss && LegalRun(Initial(cfg, total, sndWnd), es)
    ensures var st := Run(Initial(cfg, total, sndWnd), es);
            var q := st.unacked + st.unsent;
            && Chain(q, st.lbb + ToInt(st.finOnLast)) && SlicesOf(st.written, st.finFlag, q)
            && HeadAt(q, st.lastack, st.lbb + ToInt(st.finOnLast))
            && st.buf + (st.lbb - st.lastack) == total && st.queuelen == Clens(q) && Bounded(st)
            && (2 <= sndWnd ==> forall i :: 0 <= i < |q| ==> |q[i].data| <= MssLocal(st.cfg.mss, st.sndWndMax))
            && st.reported == Min(st.lastack, |st.written|)
            && (forall i :: 0 <= i < |st.wire| ==> RT.IsSlice(st.written, st.wire[i]))
  {
    hide Chain, Clens, SlicesOf, HeadAt, MssLocal, Run, LegalRun, OffersFit, Inv;
    InitialGood(cfg, total, sndWnd);
    RunGood(Initial(cfg, total, sndWnd), total, es);
    InvMeans(Run(Initial(cfg, total, sndWnd), es), total);
    if 2 <= sndWnd {
      LargeOffers(Initial(cfg, total, sndWnd), es);
      SizesWithinMss(cfg, total, sndWnd, es);
    }
  }

  lemma InvMeans(st: State, total: nat)
    requires Inv(st, total)
    ensures var q := st.unacked + st.unsent;
            && Chain(q, st.lbb + ToInt(st.finOnLast)) && SlicesOf(st.written, st.finFlag, q)
            && HeadAt(q, st.lastack, st.lbb + ToInt(st.finOnLast))
            && st.buf + (st.lbb - st.lastack) == total && st.queuelen == Clens(q)
            && st.reported == Min(st.lastack, |st.written|)
            && (forall i :: 0 <= i < |st.wire| ==> RT.IsSlice(st.written, st.wire[i]))
  {
    hide Chain, Clens, SlicesOf, HeadAt, MssLocal;
  }

  // ------------------------------------------------------------ one tcp_write

  function Payload(q: seq<Seg>): seq<byte> {
    if q == [] then [] else q[0].data + Payload(q[1..])
  }

  /** The queues hold the last bytes written. */
  lemma {:induction false} PayloadIs(written: seq<byte>, fin: bool, q: seq<Seg>)
    requires Chain(q, |written| + ToInt(fin)) && SlicesOf(written, fin, q) && q != []
    ensures 0 <= q[0].pos <= |written| && Payload(q) == written[q[0].pos..]
    decreases |q|
  {
    hide Chain;
    PayloadStep(written, fin, q);
    if |q| > 1 {
      PayloadIs(written, fin, q[1..]);
    }
  }

  lemma PayloadStep(written: seq<byte>, fin: bool, q: seq<Seg>)
    requires Chain(q, |written| + ToInt(fin)) && SlicesOf(written, fin, q) && q != []
    ensures 0 <= q[0].pos <= q[0].End() <= |written| && q[0].data == written[q[0].pos..q[0].End()]
    ensures if |q| == 1 then Payload(q) == q[0].data && q[0].End() == |written|
            else Payload(q) == q[0].data + Payload(q[1..]) && q[1].pos == q[0].End()
    ensures Chain(q[1..], |written| + ToInt(fin)) && SlicesOf(written, fin, q[1..])
  {
    hide Payload, Chain, SlicesOf;
    ChainDrop(q, |written| + ToInt(fin), 1);
    ChainHead(q, |written| + ToInt(fin));
    FinIsLast(q, written, fin, 0);
    SliceAt(written, fin, q, 0);
    PayloadCons(q);
  }

  lemma ChainHead(q: seq<Seg>, hi: int)
    requires Chain(q, hi) && q != []
    ensures q[0].Next() == if |q| == 1 then hi else q[1].pos
  {
  }

  lemma SliceAt(written: seq<byte>, fin: bool, q: seq<Seg>, i: nat)
    requires SlicesOf(written, fin, q) && i < |q|
    ensures 0 <= q[i].pos && q[i].End() <= |written| && q[i].data == written[q[i].pos..q[i].End()]
    ensures SlicesOf(written, fin, q[1..])
  {
    assert RT.IsSlice(written, q[i].Wire());
  }

  lemma PayloadCons(q: seq<Seg>)
    requires q != []
    ensures Payload(q) == q[0].data + Payload(q[1..])
    ensures |q| == 1 ==> Payload(q) == q[0].data
  {
    assert |q| == 1 ==> Payload(q[1..]) == [];
  }

  /** tcp_write is all or nothing and byte exact: either the queued bytes grow by
      exactly data, or nothing but the memory-error flag changes. */
  lemma WriteExact(st: State, total: nat, data: seq<byte>, copy: bool, more: bool, mem: nat)
    requires Inv(st, total) && 0 < st.cfg.mss
    ensures var st' := Write(st, data, copy, more, mem);
            if WriteErr(st, data, Copies(st.cfg, copy), more, mem) == ERR_OK then
              && Payload(Queue(st')) == Payload(Queue(st)) + data
              && st'.unacked == st.unacked && st'.lbb == st.lbb + |data| && st'.buf == st.buf - |data|
            else
              st' == st.(nagleMemErr := st'.nagleMemErr)
  {
    hide Inv, Commit, PlanWrite, Payload, Queue;
    Basics(st, total);
    if WriteErr(st, data, Copies(st.cfg, copy), more, mem) == ERR_OK {
      WriteGood(st, total, data, copy, more, mem);
      var st' := Commit(st, data, Copies(st.cfg, copy), more);
      CommitStart(st, total, data, Copies(st.cfg, copy), more);
      PayloadOf(st, total);
      PayloadOf(st', total);
    }
  }

  lemma PayloadOf(st: State, total: nat)
    requires Inv(st, total) && st.open
    ensures var q, w := Queue(st), st.written;
            if q == [] then Payload(q) == [] && st.lastack == |w|
            else 0 <= q[0].pos <= |w| && Payload(q) == w[q[0].pos..]
  {
    if Queue(st) != [] { PayloadIs(st.written, st.finFlag, Queue(st)); }
    hide Chain, SlicesOf, Clens;
  }

  /** Where the queue starts after a write. */
  lemma CommitStart(st: State, total: nat, data: seq<byte>, copy: bool, more: bool)
    requires Inv(st, total) && st.open && |data| <= st.buf && Inv(Commit(st, data, copy, more), total)
    ensures var st' := Commit(st, data, copy, more);
            && st'.written == st.written + data && st'.unacked == st.unacked && st'.lbb == st.lbb + |data|
            && st'.buf == st.buf - |data| && st'.open == st.open
            && (Queue(st') == [] ==> Queue(st) == [] && data == [])
            && (Queue(st') != [] ==> Queue(st')[0].pos == if Queue(st) != [] then Queue(st)[0].pos else |st.written|)
  {
    var fill, extra, segs := CommitIs(st, data, copy, more);
    AppendToLastAt(st.unsent, data[..fill], extra);
    ChopChain(st.lbb + fill, data[fill..], MssLocal(st.cfg.mss, st.sndWndMax), SegClen(copy));
    hide Chain, Clens, SlicesOf, Chop, AppendToLast, PlanWrite, PlanTail;
  }

  /** When tcp_write is refused, by what it would put on the queues: the application
      asks for more than there is room for, or memory or the queue limit does not
      allow the pbufs and segments that the bytes need. */
  lemma WriteRefusedIff(st: State, total: nat, data: seq<byte>, copy: bool, more: bool, mem: nat)
    requires Inv(st, total) && 0 < st.cfg.mss && st.open
    ensures var st' := Commit(st, data, copy || st.cfg.singlePbuf, more);
            var pbufs := Clens(st'.unacked + st'.unsent) - Clens(st.unacked + st.unsent);
            var segs := |st'.unsent| - |st.unsent|;
            && 0 <= segs <= pbufs
            && (WriteErr(st, data, Copies(st.cfg, copy), more, mem) != ERR_OK <==>
                  || (data != [] && (|data| > st.buf || st.queuelen >= st.cfg.queueMax))
                  || mem < pbufs + segs || (segs > 0 && st.queuelen + pbufs > st.cfg.queueMax))
  {
    hide Inv, Commit, PlanWrite, Clens, Chain, SlicesOf, HeadAt, Chained, WriteErr;
    var c := Copies(st.cfg, copy);
    OpenQueue(st, total);
    CommitQueue(st, data, c, more);
    PlanCosts(st, data, c, more);
    ErrIs(st, data, c, more, mem);
    Counted(st);
    Counted(Commit(st, data, c, more));
  }

  /** A write refused for want of room lets the next output send whatever is inside
      the window: Nagle's algorithm does not wait for data that cannot come. */
  lemma RefusedWriteSends(st: State, total: nat, data: seq<byte>, copy: bool, more: bool, mem: nat,
                          wnd: nat, ackNow: bool, sends: nat)
    requires Inv(st, total) && 0 < st.cfg.mss && sends > |st.unsent|
    requires WriteErr(st, data, Copies(st.cfg, copy), more, mem) == ERR_MEM
    ensures var st' := Output(Write(st, data, copy, more, mem), wnd, ackNow, sends);
            st'.unsent == [] || st'.unsent[0].pos + |st'.unsent[0].data| > st.lastack + wnd
  {
    WriteGood(st, total, data, copy, more, mem);
    hide Inv, Commit, PlanWrite, WriteErr, Output;
    LeftIff(Write(st, data, copy, more, mem), total, wnd, ackNow, sends);
  }

  lemma Counted(st: State)
    requires Chained(st)
    ensures st.queuelen == Clens(st.unacked + st.unsent)
  {
    hide Chain, SlicesOf, HeadAt, Clens;
  }

  lemma ErrIs(st: State, data: seq<byte>, copy: bool, more: bool, mem: nat)
    requires 0 < st.cfg.mss && st.open
    ensures var p := PlanWrite(st, data, copy, more);
            WriteErr(st, data, copy, more, mem) != ERR_OK <==>
              || (data != [] && (|data| > st.buf || st.queuelen >= st.cfg.queueMax))
              || mem < p.allocs || (p.segs != [] && p.queuelen > st.cfg.queueMax)
  {
    hide PlanWrite;
  }

  lemma OpenQueue(st: State, total: nat)
    requires Inv(st, total) && st.open
    ensures Chained(st) && !st.finFlag && st.lbb == |st.written|
  {
  }

  lemma PlanCosts(st: State, data: seq<byte>, copy: bool, more: bool)
    requires 0 < st.cfg.mss
    ensures var p, st' := PlanWrite(st, data, copy, more), Commit(st, data, copy, more);
            && |st'.unsent| == |st.unsent| + |p.segs| && st'.queuelen == p.queuelen
            && p.allocs == (p.queuelen - st.queuelen) + |p.segs| && |p.segs| <= p.queuelen - st.queuelen
  {
    var fill, extra, segs := CommitIs(st, data, copy, more);
    AppendToLastAt(st.unsent, data[..fill], extra);
    hide Chop, AppendToLast, PlanTail;
  }

  // ---------------------------------------------------------------- tcp_close

  lemma {:induction false} PayloadAdd(q: seq<Seg>, s: Seg)
    ensures Payload(q + [s]) == Payload(q) + s.data
    decreases |q|
  {
    if q == [] {
      assert [s][1..] == [];
      assert q + [s] == [s];
    } else {
      assert (q + [s])[1..] == q[1..] + [s];
      PayloadAdd(q[1..], s);
    }
  }

  lemma PayloadFin(a: seq<Seg>, b: seq<Seg>)
    requires b != []
    ensures Payload(a + (b[..|b| - 1] + [b[|b| - 1].(fin := true)])) == Payload(a + b)
  {
    var n := |b| - 1;
    PayloadAdd(a + b[..n], b[n].(fin := true));
    PayloadAdd(a + b[..n], b[n]);
    assert a + (b[..n] + [b[n].(fin := true)]) == a + b[..n] + [b[n].(fin := true)];
    assert a + b == a + b[..n] + [b[n]];
  }

  /** A close queues the FIN behind the last byte written, on the last segment of
      the queue and on no other, and changes no byte of what is queued.  It fails
      only if nothing is unsent and a segment cannot be had, and then everything
      but the memory-error flag stays as it was. */
  lemma CloseQueuesFin(st: State, total: nat, mem: nat)
    requires Inv(st, total) && st.open
    ensures var st', q' := Close(st, mem), Queue(Close(st, mem));
            && (st'.open <==> st.unsent == [] && (st.buf == 0 || mem < 2))
            && (if st'.open then st' == st.(nagleMemErr := st'.nagleMemErr)
                else && q' != [] && q'[|q'| - 1].fin && q'[|q'| - 1].Next() == |st.written| + 1
                     && (forall i :: 0 <= i < |q'| - 1 ==> !q'[i].fin)
                     && Payload(q') == Payload(Queue(st)) && st'.written == st.written && st'.wire == st.wire)
  {
    hide Core, Payload, Close, Queue;
    Basics(st, total);
    CloseCases(st, mem);
    CloseGood(st, total, mem);
    ClosedQueue(st, total, mem);
    if st.unsent != [] || (st.buf > 0 && mem >= 2) {
      FinBehindAll(st, Close(st, mem), total);
    }
  }

  lemma ClosedQueue(st: State, total: nat, mem: nat)
    requires Inv(st, total) && st.open
    ensures var st', q' := Close(st, mem), Queue(Close(st, mem));
            && st'.written == st.written && st'.wire == st.wire
            && (st.unsent != [] || (st.buf > 0 && mem >= 2) ==>
                  st'.finFlag && q' != [] && q'[|q'| - 1].fin && Payload(q') == Payload(Queue(st)))
  {
    CloseCases(st, mem);
    Basics(st, total);
    hide Inv, Payload, Close;
    if st.unsent != [] {
      PayloadFin(st.unacked, st.unsent);
    } else if st.buf > 0 && mem >= 2 {
      PayloadAdd(Queue(st), Seg(st.lbb, [], true, 1));
      assert Queue(Close(st, mem)) == Queue(st) + [Seg(st.lbb, [], true, 1)];
    }
  }

  lemma FinBehindAll(st: State, st': State, total: nat)
    requires Inv(st', total) && st'.finFlag && Queue(st') != [] && Queue(st')[|Queue(st')| - 1].fin
    ensures var q' := Queue(st');
            q'[|q'| - 1].Next() == |st'.written| + 1 && forall i :: 0 <= i < |q'| - 1 ==> !q'[i].fin
  {
    var q' := Queue(st');
    hide Clens, HeadAt, Wired, Sent, Accounts;
    forall i | 0 <= i < |q'| - 1
      ensures !q'[i].fin
    {
      FinIsLast(q', st'.written, true, i);
    }
  }

  // ------------------------------------------------------- where promises end

  /** Two segments on their way, neither acknowledged. */
  function TwoSent(): State {
    Initial(Config(4, 16, 4, true, true), 100, 100).(
      unacked := [Seg(0, [1, 2], false, 1), Seg(2, [3], false, 1)],
      lbb := 3, nxt := 3, buf := 97, queuelen := 2, written := [1, 2, 3],
      wire := [R.Seg(0, [1, 2], false), R.Seg(2, [3], false)])
  }

  /** Two writes, each sent at once. */
  function TwoWrites(): seq<Event> {
    [DoWrite([1, 2], true, false, 9), DoOutput(100, false, 1), DoWrite([3], true, false, 9), DoOutput(100, false, 1)]
  }

  lemma TwoSentReached()
    ensures var st0 := Initial(Config(4, 16, 4, true, true), 100, 100);
            LegalRun(st0, TwoWrites()) && Run(st0, TwoWrites()) == TwoSent() && Inv(TwoSent(), 100)
  {
    hide Step, Inv, Run, LegalRun;
    var st0 := Initial(Config(4, 16, 4, true, true), 100, 100);
    var es := TwoWrites();
    var st1, st2 := WrittenAndSent(st0, [1, 2]);
    var st3, st4 := WrittenAndSent(st2, [3]);
    assert [1, 2] + [3] == [1, 2, 3];
    RunTwo(st0, es[0], es[1], st1, st2);
    RunTwo(st2, es[2], es[3], st3, st4);
    RunJoin(st0, [es[0], es[1]], [es[2], es[3]]);
    assert es == [es[0], es[1]] + [es[2], es[3]];
    InitialGood(st0.cfg, 100, 100);
    InitialBounded(st0);
    RunGood(st0, 100, es);
  }

  lemma RunTwo(st: State, e: Event, e': Event, st1: State, st2: State)
    requires 0 < st.cfg.mss && st1.cfg == st.cfg && st1 == Step(st, e) && st2 == Step(st1, e')
    requires !e.ThirdDupAck? && !e'.ThirdDupAck?
    ensures Run(st, [e, e']) == st2 && LegalRun(st, [e, e'])
  {
    hide Step;
    assert [e, e'][1..] == [e'] && [e'][1..] == [];
    StepKeepsCfg(st1, e');
    assert Run(st2, []) == st2 && LegalRun(st2, []);
    assert Run(st1, [e']) == st2 && LegalRun(st1, [e']);
  }

  lemma {:induction false} RunJoin(st: State, es: seq<Event>, more: seq<Event>)
    requires 0 < st.cfg.mss && LegalRun(st, es) && 0 < Run(st, es).cfg.mss && LegalRun(Run(st, es), more)
    ensures LegalRun(st, es + more) && Run(st, es + more) == Run(Run(st, es), more)
    decreases |es|
  {
    hide Step, Legal;
    if es == [] {
      assert es + more == more;
    } else {
      assert (es + more)[1..] == es[1..] + more;
      StepKeepsCfg(st, es[0]);
      RunJoin(Step(st, es[0]), es[1..], more);
    }
  }

  lemma InitialBounded(st: State)
    requires st == Initial(st.cfg, 100, 100)
    ensures Bounded(st)
  {
  }

  /** Nothing waits to be sent, and a small write is sent at once. */
  ghost predicate AllSent(st: State) {
    && st.cfg == Config(4, 16, 4, true, true) && st.sndWndMax == 100 && st.unsent == [] && st.open
    && st.nxt == st.lbb < 90 && st.lastack == 0 && 10 <= st.buf && 0 <= st.queuelen < 10 && st.oversize == 0
    && !st.finFlag && !st.nagleMemErr && (st.unacked != [] ==> st.unacked[|st.unacked| - 1].pos < st.lbb)
  }

  lemma WrittenAndSent(st: State, data: seq<byte>) returns (st1: State, st2: State)
    requires AllSent(st) && 0 < |data| <= 4
    ensures st1.cfg == st.cfg && st1 == Step(st, DoWrite(data, true, false, 9))
    ensures st2 == Step(st1, DoOutput(100, false, 1))
    ensures st2 == st.(unacked := st.unacked + [Seg(st.lbb, data, false, 1)], lbb := st.lbb + |data|,
                       nxt := st.lbb + |data|, buf := st.buf - |data|, queuelen := st.queuelen + 1,
                       written := st.written + data, wire := st.wire + [R.Seg(st.lbb, data, false)])
  {
    st1 := SmallWrite(st, data);
    st2 := Step(st1, DoOutput(100, false, 1));
    var s := Seg(st.lbb, data, false, 1);
    hide Write, InsertSorted;
    var sent := SendHead(st1);
    assert [s][1..] == [];
    assert InsertUnacked(st.unacked, s) == st.unacked + [s];
    assert SendLoop(st1, 100, 1) == SendLoop(sent, 100, 0);
  }

  lemma SmallWrite(st: State, data: seq<byte>) returns (st1: State)
    requires AllSent(st) && 0 < |data| <= 4
    ensures st1 == Step(st, DoWrite(data, true, false, 9))
    ensures st1 == st.(unsent := [Seg(st.lbb, data, false, 1)], lbb := st.lbb + |data|, oversize := 4 - |data|,
                       buf := st.buf - |data|, queuelen := st.queuelen + 1, written := st.written + data)
  {
    var q := SmallPlan(st, data);
    hide PlanWrite;
    assert AppendToLast(st.unsent, data[..0], 0) + q == q;
    st1 := Commit(st, data, true, false);
  }

  lemma SmallPlan(st: State, data: seq<byte>) returns (q: seq<Seg>)
    requires AllSent(st) && 0 < |data| <= 4
    ensures q == [Seg(st.lbb, data, false, 1)]
    ensures PlanWrite(st, data, true, false) == Plan(Tail(0, 0, 0), q, 2, st.queuelen + 1)
  {
    assert PlanTail(st, |data|, true, false) == Tail(0, 0, 0);
    q := OneChopped(st.lbb, data);
    hide Chop, PlanTail;
    assert data[0..] == data;
  }

  lemma OneChopped(pos: int, data: seq<byte>) returns (q: seq<Seg>)
    requires 0 < |data| <= 4
    ensures q == [Seg(pos, data, false, 1)] == Chop(pos, data, 4, 1)
  {
    assert data[..|data|] == data && data[|data|..] == [];
    q := [Seg(pos, data, false, 1)];
    assert Chop(pos + |data|, data[|data|..], 4, 1) == [];
  }

  /** Why fast retransmit counts as one step with the output that follows: if the
      segment waits alone on unsent, the next tcp_write takes it for the last
      one and puts new data where other data belongs.  The queues come from a
      legal run; the segment that results repeats nothing that was written. */
  lemma WriteAfterRexmitExample()
    ensures var st0 := Initial(Config(4, 16, 4, true, true), 100, 100);
            LegalRun(st0, TwoWrites()) && Run(st0, TwoWrites()) == TwoSent() && Inv(TwoSent(), 100)
    ensures var st := Write(RexmitFast(TwoSent()), [9], true, false, 9);
            && st.written == [1, 2, 3, 9] && st.unsent == [Seg(0, [1, 2, 9], false, 2)]
            && !RT.IsSlice(st.written, st.unsent[0].Wire()) && !Inv(st, 100)
  {
    hide Inv, Write, RexmitFast, TwoSent, LegalRun, Run;
    TwoSentReached();
    var st := NineAppended();
    NoSlice(st);
  }

  lemma NineAppended() returns (st: State)
    ensures st == Write(RexmitFast(TwoSent()), [9], true, false, 9)
    ensures st.written == [1, 2, 3, 9] && st.unsent == [Seg(0, [1, 2, 9], false, 2)]
  {
    var st1 := FirstAlone();
    var p := NinePlanned(st1);
    hide PlanTail, PlanWrite, RexmitFast, TwoSent;
    assert [1, 2] + [9] == [1, 2, 9] && [9][..1] == [9];
    assert AppendToLast(st1.unsent, [9], 1) + [] == [Seg(0, [1, 2, 9], false, 2)];
    st := Commit(st1, [9], true, false);
  }

  /** The retransmitted segment, alone on unsent. */
  lemma FirstAlone() returns (st1: State)
    ensures st1 == RexmitFast(TwoSent())
    ensures st1.unsent == [Seg(0, [1, 2], false, 1)] && st1.oversize == 0 && st1.written == [1, 2, 3]
    ensures st1.cfg == Config(4, 16, 4, true, true) && st1.sndWndMax == 100 && st1.open && st1.buf == 97
    ensures st1.queuelen == 2
  {
    st1 := RexmitFast(TwoSent());
  }

  lemma NinePlanned(st1: State) returns (p: Plan)
    requires st1.unsent == [Seg(0, [1, 2], false, 1)] && st1.oversize == 0
    requires st1.cfg == Config(4, 16, 4, true, true) && st1.sndWndMax == 100 && st1.queuelen == 2
    ensures p == PlanWrite(st1, [9], true, false) == Plan(Tail(0, 1, 1), [], 1, 3)
  {
    assert PlanTail(st1, 1, true, false) == Tail(0, 1, 1);
    hide PlanTail;
    p := PlanWrite(st1, [9], true, false);
    assert [9][1..] == [];
  }

  lemma NoSlice(st: State)
    requires st.written == [1, 2, 3, 9] && st.unsent == [Seg(0, [1, 2, 9], false, 2)]
    ensures !RT.IsSlice(st.written, st.unsent[0].Wire()) && !Inv(st, 100)
  {
    assert [1, 2, 3, 9][0..3][2] == 3;
    assert Queue(st)[|st.unacked|] == st.unsent[0];
  }
}
