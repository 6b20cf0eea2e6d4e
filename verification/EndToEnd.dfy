// A sender and a receiver, joined by a network that may lose, repeat, delay and
// reorder segments.
module EndToEnd {
  import opened Words
  import S = SendQueue
  import SI = SendQueueTheorems
  import ST = SendQueueRuns
  import R = Reassembly
  import RT = ReassemblyTheorems
  import RR = ReassemblyRuns

  /** Every segment that arrives is one that left; the network invents nothing. */
  ghost predicate Carried(wire: seq<R.Seg>, rs: seq<R.Event>) {
    forall i :: 0 <= i < |rs| && rs[i].Segment? ==> rs[i].s in wire
  }

  /** The receiver's application acknowledges only what it got, and no queued
      segment overruns the right window edge. */
  ghost predicate Tame(st: R.State, rs: seq<R.Event>)
    decreases |rs|
  {
    rs == [] ||
    (match rs[0]
     case Segment(s, copyOk, _) => !(copyOk && RR.Overruns(st, s)) && Tame(R.Step(st, rs[0]), rs[1..])
     case Recved(len) => st.read + len <= |st.delivered| && Tame(R.Step(st, rs[0]), rs[1..])
     case _ => Tame(R.Step(st, rs[0]), rs[1..]))
  }

  lemma {:induction false} CarriedIsLegal(written: seq<byte>, wire: seq<R.Seg>, st: R.State, rs: seq<R.Event>)
    requires Carried(wire, rs) && Tame(st, rs)
    requires forall i :: 0 <= i < |wire| ==> RT.IsSlice(written, wire[i])
    ensures RR.LegalRun(written, st, rs)
    decreases |rs|
  {
    hide R.Step, RR.Overruns, RT.IsSlice;
    if rs != [] {
      assert Carried(wire, rs[1..]);
      CarriedIsLegal(written, wire, R.Step(st, rs[0]), rs[1..]);
    }
  }

  /** What the receiving application has been given is a prefix of what the
      sending one wrote, and all of it once the FIN has been delivered. */
  lemma DeliveredIsWritten(cfg: S.Config, total: nat, sndWnd: nat, es: seq<S.Event>,
                           ownWnd: nat, mss: nat, rs: seq<R.Event>)
    requires 0 < cfg.mss && ST.LegalRun(S.Initial(cfg, total, sndWnd), es)
    requires Carried(S.Run(S.Initial(cfg, total, sndWnd), es).wire, rs)
    requires Tame(R.Initial(ownWnd, mss), rs)
    ensures var written := S.Run(S.Initial(cfg, total, sndWnd), es).written;
            var got := R.Run(R.Initial(ownWnd, mss), rs);
            && |got.delivered| <= |written| && got.delivered == written[..|got.delivered|]
            && (got.closed ==> got.delivered == written)
  {
    hide S.Run, R.Run, ST.LegalRun, RR.LegalRun, Tame, Carried;
    var st := S.Run(S.Initial(cfg, total, sndWnd), es);
    ST.SendQueuesTile(cfg, total, sndWnd, es);
    CarriedIsLegal(st.written, st.wire, R.Initial(ownWnd, mss), rs);
    RR.ReassemblyIsExact(st.written, ownWnd, mss, rs);
  }

  // ------------------------------------------------------------- the loop closed

  /** Both sides, taking their steps in any order. */
  datatype State = State(snd: S.State, rcv: R.State)

  datatype Event = Sender(s: S.Event) | Receiver(r: R.Event)

  /** The window that the sender uses ends within what the receiver has announced so
      far, be it by an older segment: announced edges never move left. */
  predicate Inside(snd: S.State, e: S.Event, edge: int) {
    match e
    case DoOutput(wnd, _, _) => snd.lastack + wnd <= edge
    case Timeout(wnd, _, _) => snd.lastack + wnd <= edge
    case ThirdDupAck(wnd, _, _) => snd.lastack + wnd <= edge
    case _ => true
  }

  /** The network brings only what was sent.  A FIN takes no room in the window that
      the sender looks at, so a segment with FIN may still overrun it; that is
      excluded as before. */
  ghost predicate Legal(st: State, ev: Event) {
    match ev
    case Sender(e) => SI.Legal(st.snd, e) && Inside(st.snd, e, st.rcv.annEdge)
    case Receiver(Segment(s, copyOk, _)) => s in st.snd.wire && (s.fin ==> !(copyOk && RR.Overruns(st.rcv, s)))
    case Receiver(Recved(len)) => st.rcv.read + len <= |st.rcv.delivered|
    case Receiver(_) => true
  }

  function Step(st: State, ev: Event): (st': State)
    requires 0 < st.snd.cfg.mss
    ensures 0 < st'.snd.cfg.mss
  {
    match ev
    case Sender(e) =>
      S.StepKeepsCfg(st.snd, e);
      st.(snd := S.Step(st.snd, e))
    case Receiver(e) => st.(rcv := R.Step(st.rcv, e))
  }

  function Run(st: State, evs: seq<Event>): State
    requires 0 < st.snd.cfg.mss
    decreases |evs|
  {
    if evs == [] then st else Run(Step(st, evs[0]), evs[1..])
  }

  ghost predicate LegalRun(st: State, evs: seq<Event>)
    requires 0 < st.snd.cfg.mss
    decreases |evs|
  {
    evs == [] || (Legal(st, evs[0]) && LegalRun(Step(st, evs[0]), evs[1..]))
  }

  function Initial(cfg: S.Config, total: nat, sndWnd: nat, ownWnd: nat, mss: nat): State {
    State(S.Initial(cfg, total, sndWnd), R.Initial(ownWnd, mss))
  }

  // ------------------------------------------------------- what the sender does

  /** Whatever was added to the segments sent ends at or before edge. */
  ghost predicate SentWithin(w: seq<R.Seg>, w': seq<R.Seg>, edge: int) {
    w <= w' && forall i :: |w| <= i < |w'| ==> w'[i].End() <= edge
  }

  lemma {:induction false} LoopWithin(st: S.State, wnd: nat, sends: nat, edge: int)
    requires st.lastack + wnd <= edge
    ensures SentWithin(st.wire, S.SendLoop(st, wnd, sends).wire, edge)
    decreases sends
  {
    hide S.MaySend, S.InsertUnacked;
    if st.unsent != [] && S.InWindow(st, wnd) && S.MaySend(st) && sends > 0 {
      LoopWithin(S.SendHead(st), wnd, sends - 1, edge);
    }
  }

  lemma OutputWithin(st: S.State, wnd: nat, ackNow: bool, sends: nat, edge: int)
    requires st.lastack + wnd <= edge
    ensures SentWithin(st.wire, S.Output(st, wnd, ackNow, sends).wire, edge)
  {
    hide S.SendLoop;
    LoopWithin(st, wnd, sends, edge);
  }

  lemma StepWithin(st: S.State, e: S.Event, edge: int)
    requires 0 < st.cfg.mss && Inside(st, e, edge)
    ensures SentWithin(st.wire, S.Step(st, e).wire, edge)
  {
    hide S.Output, S.PlanWrite, S.InsertSorted, S.PlaceOf, S.Covered, S.Clens, S.Reported;
    match e
    case DoOutput(wnd, ackNow, sends) => OutputWithin(st, wnd, ackNow, sends, edge);
    case Timeout(wnd, ackNow, sends) => OutputWithin(S.Requeue(st), wnd, ackNow, sends, edge);
    case ThirdDupAck(wnd, ackNow, sends) => OutputWithin(S.RexmitFast(st), wnd, ackNow, sends, edge);
    case _ =>
  }

  // ----------------------------------------------------------- runs of both sides

  function Senders(evs: seq<Event>): seq<S.Event> {
    if evs == [] then []
    else if evs[0].Sender? then [evs[0].s] + Senders(evs[1..])
    else Senders(evs[1..])
  }

  /** The sender's part of a run is a run of the sender. */
  lemma {:induction false} SenderRuns(st: State, evs: seq<Event>)
    requires 0 < st.snd.cfg.mss && LegalRun(st, evs)
    ensures ST.LegalRun(st.snd, Senders(evs)) && S.Run(st.snd, Senders(evs)) == Run(st, evs).snd
    decreases |evs|
  {
    hide S.Step, R.Step, SI.Legal, Inside;
    if evs != [] {
      SenderRuns(Step(st, evs[0]), evs[1..]);
      if evs[0].Sender? {
        S.StepKeepsCfg(st.snd, evs[0].s);
        assert Senders(evs)[1..] == Senders(evs[1..]);
      }
    }
  }

  lemma {:induction false} WireGrows(st: State, evs: seq<Event>)
    requires 0 < st.snd.cfg.mss && LegalRun(st, evs)
    ensures st.snd.wire <= Run(st, evs).snd.wire
    decreases |evs|
  {
    hide S.Step, R.Step, SI.Legal, Inside;
    if evs != [] {
      WireGrows(Step(st, evs[0]), evs[1..]);
      if evs[0].Sender? { StepWithin(st.snd, evs[0].s, st.rcv.annEdge); }
    }
  }

  /** The receiver is in order, and all that was sent ends within what it has
      announced. */
  ghost predicate Within(stream: seq<byte>, st: State) {
    RR.Good(stream, st.rcv) && forall s :: s in st.snd.wire ==> s.End() <= st.rcv.annEdge
  }

  /** So a segment overruns the window with its FIN or not at all. */
  lemma OnlyFinOverruns(stream: seq<byte>, st: State, s: R.Seg)
    requires Within(stream, st) && s in st.snd.wire
    ensures s.End() <= st.rcv.rcv + st.rcv.wnd && (RR.Overruns(st.rcv, s) ==> s.fin)
  {
  }

  lemma StepInside(stream: seq<byte>, st: State, ev: Event)
    requires 0 < st.snd.cfg.mss && Within(stream, st) && Legal(st, ev)
    requires forall s :: s in st.snd.wire ==> RT.IsSlice(stream, s)
    ensures Within(stream, Step(st, ev))
  {
    hide S.Step, R.Step, RR.Good, RR.Overruns, SI.Legal;
    match ev
    case Sender(e) => StepWithin(st.snd, e, st.rcv.annEdge);
    case Receiver(e) =>
      if e.Segment? { OnlyFinOverruns(stream, st, e.s); }
      RR.StepGood(stream, st.rcv, e);
  }

  lemma {:induction false} RunInside(stream: seq<byte>, st: State, evs: seq<Event>)
    requires 0 < st.snd.cfg.mss && Within(stream, st) && LegalRun(st, evs)
    requires forall s :: s in Run(st, evs).snd.wire ==> RT.IsSlice(stream, s)
    ensures Within(stream, Run(st, evs))
    decreases |evs|
  {
    hide Step, Legal, Within, RT.IsSlice;
    if evs != [] {
      WireGrows(st, evs);
      assert forall s :: s in st.snd.wire ==> s in Run(st, evs).snd.wire;
      StepInside(stream, st, evs[0]);
      RunInside(stream, Step(st, evs[0]), evs[1..]);
    }
  }

  /** Over every run of the loop, no byte that was ever sent lies beyond the right
      edge of the receiver's window, so that only a FIN can overrun it; and the
      receiving application has been given a prefix of what the sending one wrote,
      all of it once the FIN has been delivered. */
  lemma LoopDelivers(cfg: S.Config, total: nat, sndWnd: nat, ownWnd: nat, mss: nat, evs: seq<Event>)
    requires 0 < cfg.mss && LegalRun(Initial(cfg, total, sndWnd, ownWnd, mss), evs)
    ensures var st := Run(Initial(cfg, total, sndWnd, ownWnd, mss), evs);
            var got, written := st.rcv.delivered, st.snd.written;
            && (forall s :: s in st.snd.wire ==>
                  s.End() <= st.rcv.annEdge <= st.rcv.rcv + st.rcv.wnd && (RR.Overruns(st.rcv, s) ==> s.fin))
            && |got| <= |written| && got == written[..|got|] && (st.rcv.closed ==> got == written)
  {
    hide Run, LegalRun, S.Run, ST.LegalRun, RR.Overruns, RR.Queued, RT.IsSlice;
    var st0 := Initial(cfg, total, sndWnd, ownWnd, mss);
    var st := Run(st0, evs);
    SenderRuns(st0, evs);
    ST.SendQueuesTile(cfg, total, sndWnd, Senders(evs));
    ReceiverStarts(st.snd.written, ownWnd, mss);
    RunInside(st.snd.written, st0, evs);
    forall s | s in st.snd.wire
      ensures RR.Overruns(st.rcv, s) ==> s.fin
    {
      OnlyFinOverruns(st.snd.written, st, s);
    }
  }

  lemma ReceiverStarts(stream: seq<byte>, ownWnd: nat, mss: nat)
    ensures RR.Good(stream, R.Initial(ownWnd, mss))
  {
  }
}
