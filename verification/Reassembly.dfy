// What TCP segment reassembly promises, on unbounded stream positions.
//
// Position 0 is the first byte the peer sends after its SYN.  A segment is a
// run of bytes at a position, possibly closed by a FIN that occupies one more
// position.  TcpReceiver.dfy proves that the code in tcp_in.c computes these
// functions on wrapping 32-bit sequence numbers.
module Reassembly {
  import opened Words

  datatype Seg = Seg(pos: int, data: seq<byte>, fin: bool) {
    /** Position after the last data byte. */
    function End(): int { pos + |data| }

    /** TCP_TCPLEN: data bytes plus one for a FIN. */
    function TcpLen(): nat { |data| + if fin then 1 else 0 }

    /** Position after the segment, the FIN included. */
    function Next(): int { pos + TcpLen() }
  }

  /** The out-of-order queue: every segment starts after rcv, is not empty,
      lies before its successors without overlap, and only the last may carry
      a FIN. */
  ghost predicate Ordered(q: seq<Seg>, rcv: int) {
    && (forall i :: 0 <= i < |q| ==> rcv < q[i].pos && 0 < q[i].TcpLen())
    && (forall i, j :: 0 <= i < j < |q| ==> q[i].End() <= q[j].pos && !q[i].fin)
  }

  /** Every queued segment ends at or before edge. */
  ghost predicate Fits(q: seq<Seg>, edge: int) {
    forall i :: 0 <= i < |q| ==> q[i].Next() <= edge
  }

  /** Does the queue hold the byte at position p? */
  ghost predicate Holds(q: seq<Seg>, p: int) {
    exists i :: 0 <= i < |q| && q[i].pos <= p < q[i].End()
  }

  // ---------------------------------------------------------------- insertion

  /** Drop the bytes at positions p and beyond. */
  function CutAt(s: Seg, p: int): Seg {
    if s.pos <= p <= s.End() then s.(data := s.data[..p - s.pos]) else s
  }

  /** Put c in front of rest: what c covers disappears (a FIN found there moves
      to c), and c stops where the first remaining segment starts. */
  function OosInsert(c: Seg, rest: seq<Seg>): (r: seq<Seg>)
    ensures r != [] && r[0].pos == c.pos
    decreases |rest|
  {
    if rest == [] || c.fin then [c]
    else if c.End() >= rest[0].End() then OosInsert(c.(fin := rest[0].fin), rest[1..])
    else [CutAt(c, rest[0].pos)] + rest
  }

  /** Number of queued segments that start before p. */
  function Before(q: seq<Seg>, p: int): (n: nat)
    ensures n <= |q|
  {
    if q == [] || q[0].pos >= p then 0 else 1 + Before(q[1..], p)
  }

  function CutLast(q: seq<Seg>, p: int): (r: seq<Seg>)
    ensures |r| == |q|
  {
    if q == [] then [] else q[..|q| - 1] + [CutAt(q[|q| - 1], p)]
  }

  /** A segment that overruns the right window edge loses what lies beyond it,
      and its FIN. */
  function CutAtEdge(s: Seg, edge: int): Seg {
    if s.Next() > edge then CutAt(s, edge).(fin := false) else s
  }

  /** Append behind the last queued segment, which loses what overlaps. */
  function AppendLast(q: seq<Seg>, s: Seg, edge: int): seq<Seg>
    requires q != []
  {
    if q[|q| - 1].fin then q else CutLast(q, s.pos) + [CutAtEdge(s, edge)]
  }

  /** Queue a segment that starts after rcv. */
  function Enqueue(q: seq<Seg>, s: Seg, edge: int): seq<Seg> {
    var i := Before(q, s.pos);
    if i == |q| && i > 0 then
      AppendLast(q, s, edge)
    else if i == |q| || q[i].pos != s.pos then
      CutLast(q[..i], s.pos) + OosInsert(s, q[i..])
    else if |s.data| > |q[i].data| then
      q[..i] + OosInsert(s, q[i..])
    else
      q
  }

  // ----------------------------------------------------------------- delivery

  datatype Drained = Drained(data: seq<byte>, rcv: int, rest: seq<Seg>, fin: bool)

  /** Take the segments that are in sequence at rcv off the queue. */
  function Drain(q: seq<Seg>, rcv: int): Drained {
    if q == [] || q[0].pos != rcv then
      Drained([], rcv, q, false)
    else
      var d := Drain(q[1..], q[0].Next());
      Drained(q[0].data + d.data, d.rcv, d.rest, q[0].fin || d.fin)
  }

  /** Drop the bytes in front of rcv. */
  function TrimLeft(s: Seg, rcv: int): Seg {
    if s.pos < rcv < s.Next() then Seg(rcv, s.data[rcv - s.pos..], s.fin) else s
  }

  // ------------------------------------------------------- connection, events

  /** The receive half of a pcb.  ownWnd is TCP_WND(pcb), mss its segment size;
      delivered is everything put on recv_data, read what the application has
      acknowledged with tcp_recved, finOwed a FIN not yet credited to wnd. */
  datatype State = State(
    ownWnd: nat, mss: nat,
    rcv: int, wnd: int, annWnd: int, annEdge: int,
    ooseq: seq<Seg>, closed: bool, finOwed: bool,
    delivered: seq<byte>, read: nat)

  /** By how much an update sent now would move the announced right edge. */
  function Inflation(st: State): (d: int) {
    if st.rcv + st.wnd >= st.annEdge + Min(st.ownWnd / 2, st.mss) then st.rcv + st.wnd - st.annEdge else 0
  }

  /** tcp_update_rcv_ann_wnd: announce all of the window if that moves the right
      edge far enough, otherwise keep the edge where it is. */
  function UpdateAnnWnd(st: State): State {
    st.(annWnd := AnnWnd(st.ownWnd, st.mss, st.rcv, st.wnd, st.annEdge))
  }

  function AnnWnd(ownWnd: nat, mss: nat, rcv: int, wnd: int, annEdge: int): int {
    if rcv + wnd >= annEdge + Min(ownWnd / 2, mss) then wnd
    else if rcv > annEdge then 0
    else annEdge - rcv
  }

  /** Every header that leaves moves the announced right edge. */
  function Announce(st: State): State {
    st.(annEdge := st.rcv + st.annWnd)
  }

  function WithDrained(st: State, d: Drained): State {
    st.(rcv := d.rcv, wnd := st.wnd - (d.rcv - st.rcv), ooseq := d.rest,
        closed := d.fin, finOwed := d.fin, delivered := st.delivered + d.data)
  }

  /** s is in sequence: merge it with the queue and hand over what is now
      contiguous. */
  function Deliver(st: State, s: Seg): State {
    var q := OosInsert(CutAtEdge(s, st.rcv + st.wnd), st.ooseq);
    UpdateAnnWnd(WithDrained(st, Drain(q, st.rcv)))
  }

  /** tcp_receive for a segment with data or FIN.  copyOk: memory was found for
      a copy on the queue.  ackOk: memory was found for an immediate ACK. */
  function Receive(st: State, s0: Seg, copyOk: bool, ackOk: bool): State {
    if st.closed || s0.TcpLen() == 0 then st
    else
      var s := TrimLeft(s0, st.rcv);
      if st.rcv <= s.pos < st.rcv + st.wnd && s.pos == st.rcv then
        Deliver(st, s)
      else
        var st' := if ackOk then Announce(st) else st;
        if st.rcv < s.pos < st.rcv + st.wnd && copyOk then
          st'.(ooseq := Enqueue(st.ooseq, s, st.rcv + st.wnd))
        else
          st'
  }

  /** The application is done with len bytes. */
  function Freed(st: State, len: nat): State {
    st.(wnd := Min(st.wnd + len, st.ownWnd), read := st.read + len)
  }

  function FinCredited(st: State): State {
    if st.finOwed && st.wnd != st.ownWnd then st.(wnd := st.wnd + 1, finOwed := false)
    else st.(finOwed := false)
  }

  datatype Event =
    | Segment(s: Seg, copyOk: bool, ackOk: bool)
    | Recved(len: nat)   // tcp_recved
    | CreditFin          // tcp_input: the FIN's sequence number is read by the stack
    | Transmit           // any segment leaves
    | PurgeOoseq         // pbuf_free_ooseq, tcp_slowtmr

  function Step(st: State, e: Event): State {
    match e
    case Segment(s, copyOk, ackOk) => Receive(st, s, copyOk, ackOk)
    case Recved(len) => UpdateAnnWnd(Freed(st, len))
    case CreditFin => FinCredited(st)
    case Transmit => Announce(st)
    case PurgeOoseq => st.(ooseq := [])
  }

  function Run(st: State, es: seq<Event>): State
    decreases |es|
  {
    if es == [] then st else Run(Step(st, es[0]), es[1..])
  }

  /** A pcb that has just become ESTABLISHED. */
  function Initial(ownWnd: nat, mss: nat): State {
    State(ownWnd, mss, 0, ownWnd, ownWnd, 0, [], false, false, [], 0)
  }
}
