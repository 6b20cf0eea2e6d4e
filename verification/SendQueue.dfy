// The send half of a TCP connection, on unbounded stream positions.
//
// Position 0 is the first byte the application writes once the connection is
// ESTABLISHED.  Memory for pbufs and segments, the IP layer's verdict on each
// segment, and the window min(snd_wnd, cwnd) are parameters of the steps.
module SendQueue {
  import opened Words
  import R = Reassembly

  /** A queued segment; clen is the number of pbufs that hold it. */
  datatype Seg = Seg(pos: int, data: seq<byte>, fin: bool, clen: nat) {
    function End(): int { pos + |data| }
    function TcpLen(): nat { |data| + ToInt(fin) }
    function Next(): int { pos + TcpLen() }

    /** What goes over the wire. */
    function Wire(): R.Seg { R.Seg(pos, data, fin) }
  }

  /** Settings: segment size, TCP_SND_QUEUELEN, TCP_OVERSIZE,
      LWIP_NETIF_TX_SINGLE_PBUF and TF_NODELAY. */
  datatype Config = Config(mss: nat, queueMax: nat, overUnit: nat, singlePbuf: bool, noDelay: bool)

  datatype State = State(
    cfg: Config, sndWndMax: nat,
    unacked: seq<Seg>, unsent: seq<Seg>,
    lbb: int, nxt: int, lastack: int,
    buf: int, queuelen: int, oversize: nat,
    nagleMemErr: bool, inFr: bool, finFlag: bool, open: bool,
    // history: bytes accepted, segments sent, bytes reported as acknowledged,
    // and whether the FIN rides on a segment with data
    written: seq<byte>, wire: seq<R.Seg>, reported: int, finOnLast: bool)

  datatype Err = ERR_OK | ERR_MEM | ERR_CONN

  // -------------------------------------------------------------------- write

  /** Segments are no larger than half the largest window the peer ever offered. */
  function MssLocal(mss: nat, sndWndMax: nat): (m: nat)
    ensures 0 < mss ==> 0 < m <= mss
  {
    var m := Min(mss, sndWndMax / 2);
    if m == 0 then mss else m
  }

  /** tcp_pbuf_prealloc: the spare room behind length bytes in a new pbuf. */
  function Spare(cfg: Config, idle: bool, length: nat, max: nat, more: bool, firstSeg: bool): (spare: nat)
    requires length <= max
    ensures length + spare <= max
  {
    if cfg.singlePbuf then max - length
    else if length < max && (more || (!cfg.noDelay && (!firstSeg || !idle)))
    then Min(max, (length + cfg.overUnit + 3) / 4 * 4) - length
    else 0
  }

  /** Both queues are empty. */
  predicate Idle(st: State) { st.unacked == [] && st.unsent == [] }

  /** What phases 1 and 2 do to the last unsent segment: bytes put into its
      spare room, bytes chained in a new pbuf, spare room left.  What is left of
      mss_local after that is counted in 16 bits. */
  datatype Tail = Tail(used: nat, chained: nat, oversize: nat)

  function PlanTail(st: State, len: nat, copy: bool, more: bool): (t: Tail)
    ensures t.used + t.chained <= len
  {
    if st.unsent == [] then Tail(0, 0, 0)
    else
      var last := st.unsent[|st.unsent| - 1];
      var used: nat := Min(st.oversize, len);
      var space := Low16(MssLocal(st.cfg.mss, st.sndWndMax) - |last.data| - used);
      if used < len && space > 0 && |last.data| > 0 then
        var chained: nat := Min(space, len - used);
        Tail(used, chained,
             if copy then Spare(st.cfg, Idle(st), chained, space, more, true) else st.oversize - used)
      else Tail(used, 0, st.oversize - used)
  }

  /** Phase 3: new segments of at most mss bytes each. */
  function Chop(pos: int, data: seq<byte>, mss: nat, clen: nat): (q: seq<Seg>)
    requires 0 < mss
    ensures data != [] <==> q != []
    ensures forall i :: 0 <= i < |q| ==> 0 < |q[i].data| <= mss
    decreases |data|
  {
    if data == [] then []
    else
      var n := Min(mss, |data|);
      [Seg(pos, data[..n], false, clen)] + Chop(pos + n, data[n..], mss, clen)
  }

  /** The pbufs of a new segment: one, or a header and the referenced data. */
  function SegClen(copy: bool): nat { if copy then 1 else 2 }

  /** Allocations for a new segment: its pbufs and the tcp_seg. */
  function SegAllocs(copy: bool): nat { SegClen(copy) + 1 }

  predicate Copies(cfg: Config, copy: bool) { copy || cfg.singlePbuf }

  function Extended(s: Seg, data: seq<byte>, pbufs: nat): Seg {
    s.(data := s.data + data, clen := s.clen + pbufs)
  }

  function AppendToLast(q: seq<Seg>, data: seq<byte>, pbufs: nat): seq<Seg> {
    if q == [] then [] else q[..|q| - 1] + [Extended(q[|q| - 1], data, pbufs)]
  }

  /** The outcome of a tcp_write whose first mem allocations succeed. */
  datatype Plan = Plan(tail: Tail, segs: seq<Seg>, allocs: nat, queuelen: int)

  function PlanWrite(st: State, data: seq<byte>, copy: bool, more: bool): Plan
    requires 0 < st.cfg.mss
  {
    var tail := PlanTail(st, |data|, copy, more);
    var fill := tail.used + tail.chained;
    var segs := Chop(st.lbb + fill, data[fill..],
                      MssLocal(st.cfg.mss, st.sndWndMax), SegClen(copy));
    var extra := ToInt(tail.chained > 0);
    Plan(tail, segs, extra + |segs| * SegAllocs(copy), st.queuelen + extra + |segs| * SegClen(copy))
  }

  /** tcp_write_checks lets the write pass. */
  predicate Admitted(st: State, data: seq<byte>) {
    st.open && (data == [] || (|data| <= st.buf && st.queuelen < st.cfg.queueMax))
  }

  function WriteErr(st: State, data: seq<byte>, copy: bool, more: bool, mem: nat): Err
    requires 0 < st.cfg.mss
  {
    if !st.open then ERR_CONN
    else if !Admitted(st, data) then ERR_MEM
    else
      var p := PlanWrite(st, data, copy, more);
      if mem < p.allocs || (p.segs != [] && p.queuelen > st.cfg.queueMax) then ERR_MEM else ERR_OK
  }

  /** Spare room in the last segment afterwards. */
  function NewOversize(st: State, p: Plan, copy: bool, more: bool): nat {
    var mss := MssLocal(st.cfg.mss, st.sndWndMax);
    if p.segs == [] || !copy || |p.segs[|p.segs| - 1].data| > mss then p.tail.oversize
    else Spare(st.cfg, Idle(st), |p.segs[|p.segs| - 1].data|, mss, more, |p.segs| == 1)
  }

  function Commit(st: State, data: seq<byte>, copy: bool, more: bool): State
    requires 0 < st.cfg.mss
  {
    var p := PlanWrite(st, data, copy, more);
    var fill := p.tail.used + p.tail.chained;
    st.(unsent := AppendToLast(st.unsent, data[..fill], ToInt(p.tail.chained > 0)) + p.segs,
        oversize := NewOversize(st, p, copy, more),
        lbb := st.lbb + |data|, buf := st.buf - |data|, queuelen := p.queuelen,
        written := st.written + data)
  }

  /** What tcp_write asserts before it touches the last unsent segment. */
  predicate TailSmall(st: State) {
    st.unsent != [] ==> |st.unsent[|st.unsent| - 1].data| <= MssLocal(st.cfg.mss, st.sndWndMax)
  }

  /** tcp_write: all or nothing. */
  function Write(st: State, data: seq<byte>, copy: bool, more: bool, mem: nat): State
    requires 0 < st.cfg.mss
  {
    match WriteErr(st, data, Copies(st.cfg, copy), more, mem)
    case ERR_OK => Commit(st, data, Copies(st.cfg, copy), more)
    case ERR_MEM => st.(nagleMemErr := true)
    case ERR_CONN => st
  }

  // -------------------------------------------------------------------- close

  /** tcp_send_fin: the FIN goes on the last unsent segment if there is one, and
      is then not counted in lbb and buf; otherwise it gets a segment. */
  function SendFin(st: State, mem: nat): State {
    if st.unsent != [] && !st.unsent[|st.unsent| - 1].fin then
      var n := |st.unsent| - 1;
      st.(unsent := st.unsent[..n] + [st.unsent[n].(fin := true)], finFlag := true, finOnLast := true)
    else EnqueueFin(st, mem)
  }

  /** tcp_enqueue_flags for a FIN. */
  function EnqueueFin(st: State, mem: nat): State {
    if st.buf == 0 then st
    else if mem < 2 then st.(nagleMemErr := true)
    else st.(unsent := st.unsent + [Seg(st.lbb, [], true, 1)], oversize := 0, finFlag := true,
             lbb := st.lbb + 1, buf := st.buf - 1, queuelen := st.queuelen + 1)
  }

  /** tcp_close and tcp_shutdown of the sending side. */
  function Close(st: State, mem: nat): State {
    if !st.open then st
    else
      var st' := SendFin(st, mem);
      st'.(open := !st'.finFlag)
  }

  // ------------------------------------------------------------------- output

  /** tcp_do_output_nagle, or one of the flags that override it. */
  predicate MaySend(st: State)
    requires st.unsent != []
  {
    || st.unacked == [] || st.cfg.noDelay || st.inFr
    || |st.unsent| > 1 || |st.unsent[0].data| >= st.cfg.mss
    || st.buf == 0 || st.queuelen >= st.cfg.queueMax
    || st.nagleMemErr || st.finFlag
  }

  predicate InWindow(st: State, wnd: nat)
    requires st.unsent != []
  {
    st.unsent[0].End() - st.lastack <= wnd
  }

  /** Where a sent segment goes: behind the others unless it starts earlier. */
  function InsertSorted(q: seq<Seg>, s: Seg): seq<Seg> {
    if q == [] || q[0].pos >= s.pos then [s] + q else [q[0]] + InsertSorted(q[1..], s)
  }

  /** The index at which s goes. */
  function PlaceOf(q: seq<Seg>, s: Seg): nat {
    if q == [] || q[0].pos >= s.pos then 0 else 1 + PlaceOf(q[1..], s)
  }

  function InsertUnacked(q: seq<Seg>, s: Seg): seq<Seg> {
    if q != [] && s.pos < q[|q| - 1].pos then InsertSorted(q, s) else q + [s]
  }

  function SendHead(st: State): State
    requires st.unsent != []
  {
    var s := st.unsent[0];
    st.(unsent := st.unsent[1..], nxt := Max(st.nxt, s.Next()), wire := st.wire + [s.Wire()],
        unacked := if s.TcpLen() > 0 then InsertUnacked(st.unacked, s) else st.unacked)
  }

  /** The loop of tcp_output; the IP layer takes the first sends segments. */
  function SendLoop(st: State, wnd: nat, sends: nat): State
    decreases |st.unsent|
  {
    if st.unsent == [] || !InWindow(st, wnd) || !MaySend(st) then
      st.(oversize := if st.unsent == [] then 0 else st.oversize, nagleMemErr := false)
    else if sends == 0 then st.(nagleMemErr := true)
    else SendLoop(SendHead(st), wnd, sends - 1)
  }

  /** tcp_output; ackNow: TF_ACK_NOW is set, so that an empty ACK goes out
      instead if no data can. */
  function Output(st: State, wnd: nat, ackNow: bool, sends: nat): State {
    if ackNow && (st.unsent == [] || !InWindow(st, wnd)) then st else SendLoop(st, wnd, sends)
  }

  // -------------------------------------------------------------------- input

  /** The head segments that p acknowledges whole. */
  function Covered(q: seq<Seg>, p: int): (n: nat)
    ensures n <= |q|
  {
    if q == [] || p < q[0].Next() then 0 else 1 + Covered(q[1..], p)
  }

  function Clens(q: seq<Seg>): nat {
    if q == [] then 0 else q[0].clen + Clens(q[1..])
  }

  /** What the sent callback is told: a FIN that was acknowledged does not count. */
  function Reported(acked: int, gone: seq<Seg>): int
    decreases |gone|
  {
    if gone == [] then acked
    else Reported(if acked != 0 && gone[0].fin then acked - 1 else acked, gone[1..])
  }

  /** tcp_receive on an acknowledgment of everything before p. */
  function Ack(st: State, p: int): State {
    if st.lastack < p <= st.nxt then
      var n := Covered(st.unacked, p);
      var m := Covered(st.unsent, p);
      var gone := st.unacked[..n] + st.unsent[..m];
      st.(lastack := p, buf := st.buf + (p - st.lastack), inFr := false,
          unacked := st.unacked[n..], unsent := st.unsent[m..],
          oversize := if m > 0 && m == |st.unsent| then 0 else st.oversize,
          queuelen := st.queuelen - Clens(gone),
          reported := st.reported + Reported(p - st.lastack, gone))
    else if p <= st.lastack then
      var m := Covered(st.unsent, p);
      st.(unsent := st.unsent[m..],
          oversize := if m > 0 && m == |st.unsent| then 0 else st.oversize,
          queuelen := st.queuelen - Clens(st.unsent[..m]))
    else st
  }

  // --------------------------------------------------------------- retransmit

  /** tcp_rexmit_rto */
  function Requeue(st: State): State {
    st.(unsent := st.unacked + st.unsent, unacked := [])
  }

  function RexmitRto(st: State, wnd: nat, ackNow: bool, sends: nat): State {
    if st.unacked == [] then st else Output(Requeue(st), wnd, ackNow, sends)
  }

  /** tcp_rexmit */
  function Rexmit(st: State): State
    requires st.unacked != []
  {
    var s := st.unacked[0];
    st.(unacked := st.unacked[1..], unsent := InsertSorted(st.unsent, s),
        oversize := if PlaceOf(st.unsent, s) == |st.unsent| then 0 else st.oversize)
  }

  /** tcp_rexmit_fast */
  function RexmitFast(st: State): State {
    if st.unacked == [] || st.inFr then st else Rexmit(st).(inFr := true)
  }

  /** The third duplicate ACK: tcp_rexmit_fast, and the tcp_output with which
      tcp_input ends. */
  function FastRetransmit(st: State, wnd: nat, ackNow: bool, sends: nat): State {
    Output(RexmitFast(st), wnd, ackNow, sends)
  }

  // --------------------------------------------------------------------- runs

  datatype Event =
    | DoWrite(data: seq<byte>, copy: bool, more: bool, mem: nat)
    | DoClose(mem: nat)
    | DoOutput(wnd: nat, ackNow: bool, sends: nat)
    | DoAck(p: int)
    | Timeout(wnd: nat, ackNow: bool, sends: nat)
    | ThirdDupAck(wnd: nat, ackNow: bool, sends: nat)
    | OfferWindow(wnd: nat)

  function Step(st: State, e: Event): State
    requires 0 < st.cfg.mss
  {
    match e
    case DoWrite(data, copy, more, mem) => Write(st, data, copy, more, mem)
    case DoClose(mem) => Close(st, mem)
    case DoOutput(wnd, ackNow, sends) => Output(st, wnd, ackNow, sends)
    case DoAck(p) => Ack(st, p)
    case Timeout(wnd, ackNow, sends) => RexmitRto(st, wnd, ackNow, sends)
    case ThirdDupAck(wnd, ackNow, sends) => FastRetransmit(st, wnd, ackNow, sends)
    case OfferWindow(wnd) => st.(sndWndMax := Max(st.sndWndMax, wnd))
  }

  lemma StepKeepsCfg(st: State, e: Event)
    requires 0 < st.cfg.mss
    ensures Step(st, e).cfg == st.cfg
  {
    match e
    case DoOutput(wnd, ackNow, sends) => OutputKeepsCfg(st, wnd, ackNow, sends);
    case Timeout(wnd, ackNow, sends) => OutputKeepsCfg(Requeue(st), wnd, ackNow, sends);
    case ThirdDupAck(wnd, ackNow, sends) => OutputKeepsCfg(RexmitFast(st), wnd, ackNow, sends);
    case _ =>
  }

  lemma OutputKeepsCfg(st: State, wnd: nat, ackNow: bool, sends: nat)
    ensures Output(st, wnd, ackNow, sends).cfg == st.cfg
  {
    LoopKeepsCfg(st, wnd, sends);
  }

  lemma {:induction false} LoopKeepsCfg(st: State, wnd: nat, sends: nat)
    ensures SendLoop(st, wnd, sends).cfg == st.cfg
    decreases sends
  {
    if sends > 0 && st.unsent != [] {
      LoopKeepsCfg(SendHead(st), wnd, sends - 1);
    }
  }

  function Run(st: State, es: seq<Event>): State
    requires 0 < st.cfg.mss
    decreases |es|
  {
    if es == [] then st
    else
      StepKeepsCfg(st, es[0]);
      Run(Step(st, es[0]), es[1..])
  }

  /** A connection that has just become ESTABLISHED with empty queues. */
  function Initial(cfg: Config, total: nat, sndWnd: nat): State {
    State(cfg, sndWnd, [], [], 0, 0, 0, total, 0, 0, false, false, false, true, [], [], 0, false)
  }
}
