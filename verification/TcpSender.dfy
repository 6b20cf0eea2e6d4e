// The send half of tcp_out.c and the acknowledgment half of tcp_in.c, on wrapping
// 32-bit sequence numbers.  Every method is proved to take the step that
// SendQueue describes on unbounded positions.
module TcpSender {
  import opened Words
  import opened SeqArith
  import opened SendQueue
  import opened SendQueueSizes
  import opened SendQueueTheorems

  const TCP_SNDQUEUELEN_OVERFLOW: int := 0xffff - 3

  /** struct tcp_seg with its payload flattened; clen is pbuf_clen(seg->p). */
  datatype TcpSeg = TcpSeg(seqno: u32, data: seq<byte>, fin: bool, clen: nat) {
    function TcpLen(): nat { |data| + ToInt(fin) }
  }

  /** t is the segment v, when iss is the sequence number of position 0. */
  ghost predicate RepSeg(iss: int, t: TcpSeg, v: Seg) {
    t.seqno == Wrap(iss + v.pos) && t.data == v.data && t.fin == v.fin && t.clen == v.clen
  }

  ghost predicate RepQueue(iss: int, q: seq<TcpSeg>, v: seq<Seg>) {
    |q| == |v| && forall i :: 0 <= i < |q| ==> RepSeg(iss, q[i], v[i])
  }

  lemma RepAppend(iss: int, a: seq<TcpSeg>, v: seq<Seg>, b: seq<TcpSeg>, w: seq<Seg>)
    requires RepQueue(iss, a, v) && RepQueue(iss, b, w)
    ensures RepQueue(iss, a + b, v + w)
  {
  }

  /** The pbufs and the tcp_seg of a new segment. */
  method AllocSegment(mem0: nat, queuelen0: nat, copy: bool, queueMax: nat)
    returns (ok: bool, mem: nat, queuelen: nat)
    requires queueMax <= TCP_SNDQUEUELEN_OVERFLOW
    ensures ok <==> mem0 >= SegAllocs(copy) && queuelen0 + SegClen(copy) <= queueMax
    ensures ok ==> mem == mem0 - SegAllocs(copy) && queuelen == queuelen0 + SegClen(copy)
  {
    mem, queuelen := mem0, queuelen0;
    // pbuf_alloc, in tcp_pbuf_prealloc or for the header and the data
    if mem < SegClen(copy) {
      return false, mem, queuelen;
    }
    mem := mem - SegClen(copy);
    queuelen := queuelen + SegClen(copy);
    if queuelen > queueMax || queuelen > TCP_SNDQUEUELEN_OVERFLOW {
      return false, mem, queuelen;
    }
    // memp_malloc, in tcp_create_segment
    if mem == 0 {
      return false, mem, queuelen;
    }
    return true, mem - 1, queuelen;
  }

  /** tcp_write, phase 3: segments for arg from pos0 on, until memory or the
      queue limit stops it.  mem0 allocations succeed. */
  method NewSegments(cfg: Config, idle: bool, arg: seq<byte>, pos0: nat, sndLbb: u32, mssLocal: nat,
                     copy: bool, more: bool, queuelen0: nat, oversize0: nat, mem0: nat, ghost iss: int, ghost lbb: int)
    returns (ok: bool, queue: seq<TcpSeg>, queuelen: nat, oversize: nat)
    requires pos0 <= |arg| && 0 < mssLocal && sndLbb == Wrap(iss + lbb) && cfg.queueMax <= TCP_SNDQUEUELEN_OVERFLOW
    ensures var segs := Chop(lbb + pos0, arg[pos0..], mssLocal, SegClen(copy));
            && (ok <==> mem0 >= |segs| * SegAllocs(copy)
                        && (segs == [] || queuelen0 + |segs| * SegClen(copy) <= cfg.queueMax))
            && (ok ==> RepQueue(iss, queue, segs) && queuelen == queuelen0 + |segs| * SegClen(copy)
                       && oversize == if segs == [] || !copy then oversize0
                                      else Spare(cfg, idle, |segs[|segs| - 1].data|, mssLocal, more, |segs| == 1))
  {
    hide Wrap, Chop, RepQueue, Spare, SegClen, SegAllocs, Built, Leaves;
    var pos: nat, mem: nat := pos0, mem0;
    ok, queue, queuelen, oversize := true, [], queuelen0, oversize0;
    ghost var segs := Chop(lbb + pos0, arg[pos0..], mssLocal, SegClen(copy));
    ghost var done: seq<Seg> := [];
    BuiltFirst(cfg, idle, mssLocal, copy, more, oversize0, iss, lbb, arg, pos0);
    while pos < |arg|
      invariant pos0 <= pos <= |arg| && |queue| == |done|
      invariant Built(iss, lbb, arg, pos, mssLocal, SegClen(copy), segs, queue, done)
      invariant mem == mem0 - |done| * SegAllocs(copy)
      invariant queuelen == queuelen0 + |done| * SegClen(copy)
      invariant done != [] ==> queuelen <= cfg.queueMax
      invariant Leaves(cfg, idle, done, mssLocal, copy, more, oversize0, oversize)
    {
      var left := |arg| - pos;
      var seglen := if left > mssLocal then mssLocal else left;
      ghost var s := Seg(lbb + pos, arg[pos..pos + seglen], false, SegClen(copy));
      BuiltNext(iss, lbb, arg, pos, mssLocal, SegClen(copy), segs, queue, done);
      Enough(|done|, |segs|, copy, mem0, queuelen0, cfg.queueMax);
      ok, mem, queuelen := AllocSegment(mem, queuelen, copy, cfg.queueMax);
      if !ok {
        return;
      }
      if copy {
        oversize := Spare(cfg, idle, seglen, mssLocal, more, queue == []);
      }
      LeavesNext(cfg, idle, done, s, mssLocal, copy, more, oversize0, oversize);
      queue := queue + [TcpSeg(Wrap(sndLbb + pos), arg[pos..pos + seglen], false, SegClen(copy))];
      done := done + [s];
      pos := pos + seglen;
    }
    BuiltLast(iss, lbb, arg, mssLocal, SegClen(copy), segs, queue, done);
    LeavesLast(cfg, idle, done, mssLocal, copy, more, oversize0, oversize);
  }

  /** The segments made so far are a prefix of segs; the rest comes from pos on. */
  ghost predicate Built(iss: int, lbb: int, arg: seq<byte>, pos: nat, mss: nat, clen: nat, segs: seq<Seg>,
                        queue: seq<TcpSeg>, done: seq<Seg>)
  {
    && pos <= |arg| && 0 < mss && RepQueue(iss, queue, done)
    && segs == done + Chop(lbb + pos, arg[pos..], mss, clen)
  }

  lemma BuiltFirst(cfg: Config, idle: bool, mss: nat, copy: bool, more: bool, oversize: nat,
                   iss: int, lbb: int, arg: seq<byte>, pos: nat)
    requires pos <= |arg| && 0 < mss
    ensures Built(iss, lbb, arg, pos, mss, SegClen(copy), Chop(lbb + pos, arg[pos..], mss, SegClen(copy)), [], [])
    ensures Leaves(cfg, idle, [], mss, copy, more, oversize, oversize)
  {
    hide Chop, SegClen;
    var q := Chop(lbb + pos, arg[pos..], mss, SegClen(copy));
    assert [] + q == q;
  }

  lemma BuiltNext(iss: int, lbb: int, arg: seq<byte>, pos: nat, mss: nat, clen: nat, segs: seq<Seg>,
                  queue: seq<TcpSeg>, done: seq<Seg>)
    requires Built(iss, lbb, arg, pos, mss, clen, segs, queue, done) && pos < |arg|
    ensures var n := if |arg| - pos > mss then mss else |arg| - pos;
            Built(iss, lbb, arg, pos + n, mss, clen, segs,
                  queue + [TcpSeg(Wrap(Wrap(iss + lbb) + pos), arg[pos..pos + n], false, clen)],
                  done + [Seg(lbb + pos, arg[pos..pos + n], false, clen)])
    ensures |done| < |segs|
  {
    hide Chop, RepQueue, Wrap;
    var n := if |arg| - pos > mss then mss else |arg| - pos;
    var s := Seg(lbb + pos, arg[pos..pos + n], false, clen);
    ChopNext(lbb + pos, arg, pos, mss, clen);
    OneMore(done, s, Chop(lbb + pos + n, arg[pos + n..], mss, clen));
    WrapAdd(iss + lbb, pos);
    RepAppendOne(iss, queue, done, TcpSeg(Wrap(Wrap(iss + lbb) + pos), s.data, false, clen), s);
  }

  lemma BuiltLast(iss: int, lbb: int, arg: seq<byte>, mss: nat, clen: nat, segs: seq<Seg>,
                  queue: seq<TcpSeg>, done: seq<Seg>)
    requires Built(iss, lbb, arg, |arg|, mss, clen, segs, queue, done)
    ensures segs == done && RepQueue(iss, queue, done)
  {
    hide RepQueue;
    assert Chop(lbb + |arg|, arg[|arg|..], mss, clen) == [];
  }

  lemma LeavesNext(cfg: Config, idle: bool, done: seq<Seg>, s: Seg, mss: nat, copy: bool, more: bool,
                   before: nat, now: nat)
    requires |s.data| <= mss
    requires if copy then now == Spare(cfg, idle, |s.data|, mss, more, done == [])
             else Leaves(cfg, idle, done, mss, copy, more, before, now)
    ensures Leaves(cfg, idle, done + [s], mss, copy, more, before, now)
  {
    hide Spare;
  }

  lemma LeavesLast(cfg: Config, idle: bool, segs: seq<Seg>, mss: nat, copy: bool, more: bool, before: nat, now: nat)
    requires Leaves(cfg, idle, segs, mss, copy, more, before, now)
    ensures segs != [] && copy ==> |segs[|segs| - 1].data| <= mss
    ensures now == if segs == [] || !copy then before
                   else Spare(cfg, idle, |segs[|segs| - 1].data|, mss, more, |segs| == 1)
  {
    hide Spare;
  }

  /** The spare room once the segments of done have been made. */
  ghost predicate Leaves(cfg: Config, idle: bool, done: seq<Seg>, mss: nat, copy: bool, more: bool,
                         before: nat, now: nat)
  {
    if done == [] || !copy then now == before
    else |done[|done| - 1].data| <= mss && now == Spare(cfg, idle, |done[|done| - 1].data|, mss, more, |done| == 1)
  }

  /** If another segment is due and cannot be had, the write fails. */
  lemma Enough(done: nat, all: nat, copy: bool, mem0: nat, queuelen0: nat, queueMax: nat)
    requires done < all
    ensures mem0 - done * SegAllocs(copy) < SegAllocs(copy) ==> mem0 < all * SegAllocs(copy)
    ensures queuelen0 + done * SegClen(copy) + SegClen(copy) > queueMax ==> queuelen0 + all * SegClen(copy) > queueMax
    ensures (done + 1) * SegAllocs(copy) == done * SegAllocs(copy) + SegAllocs(copy)
    ensures (done + 1) * SegClen(copy) == done * SegClen(copy) + SegClen(copy)
  {
  }

  lemma OneMore(done: seq<Seg>, s: Seg, rest: seq<Seg>)
    ensures done + ([s] + rest) == done + [s] + rest
  {
  }

  lemma RepNothing(iss: int)
    ensures RepQueue(iss, [], [])
  {
  }

  lemma ChopNext(p: int, arg: seq<byte>, pos: nat, mss: nat, clen: nat)
    requires pos < |arg| && 0 < mss
    ensures var n := if |arg| - pos > mss then mss else |arg| - pos;
            Chop(p, arg[pos..], mss, clen)
            == [Seg(p, arg[pos..pos + n], false, clen)] + Chop(p + n, arg[pos + n..], mss, clen)
  {
    hide Chop;
    DropTake(arg, pos, if |arg| - pos > mss then mss else |arg| - pos);
    ChopFirst(p, arg[pos..], mss, clen);
  }

  lemma DropTake(arg: seq<byte>, pos: nat, n: nat)
    requires pos + n <= |arg|
    ensures arg[pos..][..n] == arg[pos..pos + n] && arg[pos..][n..] == arg[pos + n..]
  {
  }

  lemma ChopFirst(p: int, data: seq<byte>, mss: nat, clen: nat)
    requires data != [] && 0 < mss
    ensures var n := Min(mss, |data|);
            Chop(p, data, mss, clen) == [Seg(p, data[..n], false, clen)] + Chop(p + n, data[n..], mss, clen)
  {
  }

  /** tcp_write, phases 1 and 2: how much goes into the last unsent segment, which
      the source asserts to be no larger than mss_local.  space has 16 bits. */
  method FillTail(last: TcpSeg, unsentOversize: nat, len: nat, mssLocal: nat, copy: bool, more: bool, idle: bool,
                  cfg: Config, ghost st: State)
    returns (used: nat, chained: nat, oversize: nat)
    requires |last.data| <= mssLocal == MssLocal(st.cfg.mss, st.sndWndMax) < 0x1_0000 && unsentOversize < 0x1_0000
    requires st.unsent != [] && |st.unsent[|st.unsent| - 1].data| == |last.data|
    requires st.oversize == unsentOversize && idle == Idle(st) && st.cfg == cfg
    ensures Tail(used, chained, oversize) == PlanTail(st, len, copy, more)
    ensures oversize < 0x1_0000
  {
    hide Spare, MssLocal, Low16;
    var pos: nat, space: u16 := 0, mssLocal - |last.data|;
    used, chained, oversize := 0, 0, unsentOversize;
    if oversize > 0 {
      used := if oversize < len then oversize else len;
      pos, oversize, space := pos + used, oversize - used, Low16(space - used);
    }
    if pos < len && space > 0 && |last.data| > 0 {
      chained := if space < len - pos then space else len - pos;
      if copy {
        oversize := Spare(cfg, idle, chained, space, more, true);
      }
    }
  }

  /** Positions in the queues are within reach of the comparison macros. */
  ghost predicate Near(st: State) {
    && -0x2_0000 <= st.lbb - st.lastack <= 0x2_0000 && st.lastack <= st.nxt <= st.lastack + 0x2_0000
    && (forall i :: 0 <= i < |st.unacked| ==> NearSeg(st.unacked[i], st.lastack))
    && (forall i :: 0 <= i < |st.unsent| ==> NearSeg(st.unsent[i], st.lastack))
  }

  ghost predicate NearSeg(s: Seg, p: int) {
    -0x2_0000 <= s.pos - p && s.Next() - p <= 0x2_0000 && p <= s.End()
  }

  lemma RepExtended(iss: int, q: seq<TcpSeg>, v: seq<Seg>, last: TcpSeg, data: seq<byte>, pbufs: nat)
    requires RepQueue(iss, q, v) && q != []
    requires last == q[|q| - 1].(data := q[|q| - 1].data + data, clen := q[|q| - 1].clen + pbufs)
    ensures RepQueue(iss, q[..|q| - 1] + [last], AppendToLast(v, data, pbufs))
  {
    hide Wrap;
  }

  lemma SameEmpty(iss: int, q: seq<TcpSeg>, v: seq<Seg>)
    requires RepQueue(iss, q, v)
    ensures q == [] <==> v == []
  {
  }

  lemma NoTail(st: State, len: nat, copy: bool, more: bool)
    ensures st.unsent == [] ==> PlanTail(st, len, copy, more) == Tail(0, 0, 0)
  {
  }

  lemma NothingExtended(iss: int, q: seq<TcpSeg>, v: seq<Seg>, data: seq<byte>, pbufs: nat)
    requires RepQueue(iss, q, v) && q == []
    ensures RepQueue(iss, q, AppendToLast(v, data, pbufs))
  {
  }

  /** The commit of phases 1 and 2. */
  method ExtendLast(seg: TcpSeg, arg: seq<byte>, used: nat, chained: nat) returns (last: TcpSeg)
    requires used + chained <= |arg|
    ensures last == seg.(data := seg.data + arg[..used + chained], clen := seg.clen + ToInt(chained > 0))
  {
    last := seg;
    if used > 0 {
      last := last.(data := last.data + arg[..used]);
    }
    if chained > 0 {
      last := last.(data := last.data + arg[used..used + chained], clen := last.clen + 1);
    }
    assert arg[..used + chained] == arg[..used] + arg[used..used + chained];
  }

  /** What PlanWrite computes, given the tail. */
  lemma PlanParts(st: State, arg: seq<byte>, copy: bool, more: bool, used: nat, chained: nat, oversize: nat)
    requires 0 < st.cfg.mss && Tail(used, chained, oversize) == PlanTail(st, |arg|, copy, more)
    requires oversize < 0x1_0000 && st.cfg.mss < 0x8000
    ensures used + chained <= |arg|
    ensures var p, mss := PlanWrite(st, arg, copy, more), MssLocal(st.cfg.mss, st.sndWndMax);
            && p.tail == Tail(used, chained, oversize)
            && p.segs == Chop(st.lbb + (used + chained), arg[used + chained..], mss, SegClen(copy))
            && p.allocs == ToInt(chained > 0) + |p.segs| * SegAllocs(copy)
            && p.queuelen == st.queuelen + ToInt(chained > 0) + |p.segs| * SegClen(copy)
            && (p.segs == [] ==> p.queuelen == st.queuelen + ToInt(chained > 0))
            && NewOversize(st, p, copy, more) ==
                 (if p.segs == [] || !copy then oversize
                  else Spare(st.cfg, Idle(st), |p.segs[|p.segs| - 1].data|, mss, more, |p.segs| == 1)) < 0x1_0000
  {
    hide PlanTail, Spare, MssLocal;
  }

  lemma RepLast(iss: int, q: seq<TcpSeg>, v: seq<Seg>)
    requires RepQueue(iss, q, v) && q != []
    ensures |q| == |v| && q[|q| - 1].fin == v[|v| - 1].fin
  {
    assert RepSeg(iss, q[|q| - 1], v[|q| - 1]);
  }

  lemma RepWithFin(iss: int, q: seq<TcpSeg>, v: seq<Seg>)
    requires RepQueue(iss, q, v) && q != []
    ensures |q| == |v|
    ensures RepQueue(iss, q[..|q| - 1] + [q[|q| - 1].(fin := true)], v[..|v| - 1] + [v[|v| - 1].(fin := true)])
  {
  }

  lemma RepAppendOne(iss: int, q: seq<TcpSeg>, v: seq<Seg>, t: TcpSeg, s: Seg)
    requires RepQueue(iss, q, v) && RepSeg(iss, t, s)
    ensures RepQueue(iss, q + [t], v + [s])
  {
  }

  /** u32 arithmetic on a sequence number, an acknowledgment and a length. */
  lemma Distance(iss: int, pos: int, n: nat, p: int)
    requires -0x2_0000 <= pos - p <= 0x2_0000 && 0 <= pos + n - p <= 0x2_0000
    ensures Wrap(Wrap(Wrap(iss + pos) - Wrap(iss + p)) + n) == pos + n - p
  {
    SignedDistance(iss + pos, iss + p);
  }

  lemma WrapSmall(iss: u32)
    ensures Wrap(iss + 0) == iss
  {
  }

  class Pcb {
    const cfg: Config
    var unacked: seq<TcpSeg>
    var unsent: seq<TcpSeg>
    var sndLbb: u32
    var sndNxt: u32
    var lastack: u32
    var sndBuf: u16
    var sndQueuelen: u16
    var unsentOversize: u16
    var sndWndMax: u16
    var nagleMemErr: bool   // TF_NAGLEMEMERR
    var inFr: bool          // TF_INFR
    var tfFin: bool         // TF_FIN
    var open: bool          // a state in which tcp_write is allowed

    /** The sequence number of position 0, and the connection as SendQueue sees it. */
    ghost const iss: int
    ghost const total: nat
    ghost var view: State

    ghost predicate Rep(st: State)
      reads `unacked, `unsent, `sndLbb, `sndNxt, `lastack, `sndBuf, `sndQueuelen, `unsentOversize, `sndWndMax
      reads `nagleMemErr, `inFr, `tfFin, `open
    {
      && RepQueue(iss, unacked, st.unacked) && RepQueue(iss, unsent, st.unsent) && Numbers(st) && Flags(st)
    }

    ghost predicate Numbers(st: State)
      reads `sndLbb, `sndNxt, `lastack, `sndBuf, `sndQueuelen, `unsentOversize, `sndWndMax
    {
      && cfg == st.cfg && sndWndMax == st.sndWndMax
      && sndLbb == Wrap(iss + st.lbb) && sndNxt == Wrap(iss + st.nxt) && lastack == Wrap(iss + st.lastack)
      && sndBuf == st.buf && sndQueuelen == st.queuelen && unsentOversize == st.oversize
    }

    ghost predicate Flags(st: State)
      reads `nagleMemErr, `inFr, `tfFin, `open
    {
      nagleMemErr == st.nagleMemErr && inFr == st.inFr && tfFin == st.finFlag && open == st.open
    }

    ghost predicate Valid()
      reads this
    {
      Rep(view) && Inv(view, total) && Bounded(view) && Sized(view, total) && Settings()
    }

    /** Limits of the configuration. */
    ghost predicate Settings() {
      0 < cfg.mss < 0x8000 && cfg.queueMax < 0x100 && total < 0xffff
    }

    constructor (cfg: Config, total: nat, sndWnd: u16, iss: u32)
      requires 0 < cfg.mss < 0x8000 && cfg.queueMax < 0x100 && total < 0xffff
      ensures Valid() && view == Initial(cfg, total, sndWnd)
    {
      hide Inv, RepQueue, Wrap;
      this.cfg, this.total, this.iss := cfg, total, iss;
      unacked, unsent := [], [];
      sndLbb, sndNxt, lastack := iss, iss, iss;
      sndBuf, sndQueuelen, unsentOversize, sndWndMax := total, 0, 0, sndWnd;
      nagleMemErr, inFr, tfFin, open := false, false, false, true;
      view := Initial(cfg, total, sndWnd);
      InitialGood(cfg, total, sndWnd);
      RepNothing(iss);
      WrapSmall(iss);
    }

    /** tcp_write_checks */
    method WriteChecks(len: nat) returns (err: Err)
      requires Rep(view) && cfg.queueMax < 0x100
      modifies `nagleMemErr
      ensures err == if !view.open then ERR_CONN
                     else if len > 0 && (len > view.buf || view.queuelen >= cfg.queueMax) then ERR_MEM else ERR_OK
      ensures nagleMemErr == (old(nagleMemErr) || err == ERR_MEM)
    {
      if !open {
        return ERR_CONN;
      } else if len == 0 {
        return ERR_OK;
      }
      if len > sndBuf {
        nagleMemErr := true;
        return ERR_MEM;
      }
      if sndQueuelen >= cfg.queueMax || sndQueuelen > TCP_SNDQUEUELEN_OVERFLOW {
        nagleMemErr := true;
        return ERR_MEM;
      }
      return ERR_OK;
    }

    /** tcp_write of arg; the first mem allocations succeed.  The source asserts
        that the last unsent segment is small if it gets as far as that. */
    method TcpWrite(arg: seq<byte>, copy: bool, more: bool, mem: nat) returns (err: Err)
      requires Valid() && |arg| < 0x1_0000 && (Admitted(view, arg) ==> TailSmall(view))
      modifies this
      ensures Valid() && view == Step(old(view), DoWrite(arg, copy, more, mem))
      ensures err == WriteErr(old(view), arg, Copies(cfg, copy), more, mem)
    {
      hide Inv, Step, Write, WriteErr, Commit, RepQueue, Wrap, Sized, TailSmall, PlanWrite;
      Facts();
      StepBounded(view, DoWrite(arg, copy, more, mem));
      StepSized(view, total, DoWrite(arg, copy, more, mem));
      WriteGood(view, total, arg, copy, more, mem);
      WriteCases(view, arg, copy, more, mem);
      err := WriteChecks(|arg|);
      if err == ERR_OK {
        err := Segment(arg, Copies(cfg, copy), more, mem);
      }
      view := Write(view, arg, copy, more, mem);
    }

    /** Facts about a valid pcb. */
    lemma Facts()
      requires Valid()
      ensures 0 < view.cfg.mss && 0 <= view.buf && view.cfg == cfg
      ensures sndBuf == view.buf && sndQueuelen == view.queuelen && open == view.open
      ensures view.open ==> !view.finFlag
    {
    }

    /** The three phases, and the commit or rollback. */
    method Segment(arg: seq<byte>, copy: bool, more: bool, mem: nat) returns (err: Err)
      requires Rep(view) && TailSmall(view) && Settings() && open && |arg| <= sndBuf
      requires arg != [] ==> sndQueuelen < 0xffff
      modifies this
      ensures view == old(view)
      ensures var p := PlanWrite(view, arg, copy, more);
              err == if mem < p.allocs || (p.segs != [] && p.queuelen > cfg.queueMax) then ERR_MEM else ERR_OK
      ensures Rep(if err == ERR_OK then Commit(view, arg, copy, more) else view.(nagleMemErr := true))
    {
      hide PlanWrite, Commit, RepQueue, Wrap, TailSmall;
      var ok, used, chained, queue, queuelen, oversize := Prepare(arg, copy, more, mem);
      if !ok {
        // memerr: what was allocated is freed
        nagleMemErr := true;
        return ERR_MEM;
      }
      CommitWrite(arg, used, chained, queue, queuelen, oversize, PlanWrite(view, arg, copy, more), copy, more);
      err := ERR_OK;
    }

    /** Everything is prepared in local variables. */
    method Prepare(arg: seq<byte>, copy: bool, more: bool, mem0: nat)
      returns (ok: bool, used: nat, chained: nat, queue: seq<TcpSeg>, queuelen: nat, oversize: nat)
      requires Rep(view) && TailSmall(view) && Settings() && open
      requires arg != [] ==> sndQueuelen < 0xffff
      ensures var p := PlanWrite(view, arg, copy, more);
              && (ok <==> !(mem0 < p.allocs || (p.segs != [] && p.queuelen > cfg.queueMax)))
              && (ok ==> used == p.tail.used && chained == p.tail.chained && RepQueue(iss, queue, p.segs)
                         && queuelen == p.queuelen && oversize == NewOversize(view, p, copy, more))
      ensures ok ==> oversize < 0x1_0000 && queuelen < 0x1_0000 && used + chained <= |arg|
    {
      hide Wrap, Spare, MssLocal, Chop, PlanTail, TailSmall, RepQueue, SegClen, SegAllocs, PlanWrite, NewOversize;
      var mssLocal := MssLocal(cfg.mss, sndWndMax);
      var idle := unacked == [] && unsent == [];
      used, chained, oversize := 0, 0, 0;
      SameEmpty(iss, unacked, view.unacked);
      SameEmpty(iss, unsent, view.unsent);
      if unsent != [] {
        LastSmall();
        used, chained, oversize := FillTail(unsent[|unsent| - 1], unsentOversize, |arg|, mssLocal,
          copy, more, idle, cfg, view);
      }
      NoTail(view, |arg|, copy, more);
      PlanParts(view, arg, copy, more, used, chained, oversize);
      queue, queuelen := [], sndQueuelen;
      var mem := mem0;
      if chained > 0 {
        if mem == 0 {
          return false, used, chained, queue, queuelen, oversize;
        }
        mem, queuelen := mem - 1, queuelen + 1;
      }
      ok, queue, queuelen, oversize := NewSegments(cfg, idle, arg, used + chained, sndLbb, mssLocal, copy, more,
        queuelen, oversize, mem, iss, view.lbb);
    }

    lemma LastSmall()
      requires Rep(view) && TailSmall(view) && unsent != []
      ensures |view.unsent| == |unsent| && |view.unsent[|unsent| - 1].data| == |unsent[|unsent| - 1].data|
      ensures |unsent[|unsent| - 1].data| <= MssLocal(cfg.mss, sndWndMax)
    {
      hide Wrap, MssLocal;
      assert RepSeg(iss, unsent[|unsent| - 1], view.unsent[|unsent| - 1]);
    }

    /** Append what was prepared. */
    method CommitWrite(arg: seq<byte>, used: nat, chained: nat, queue: seq<TcpSeg>, queuelen: u16, oversize: u16,
                       ghost p: Plan, ghost copy: bool, ghost more: bool)
      requires Rep(view) && |arg| <= sndBuf && 0 < view.cfg.mss
      requires p == PlanWrite(view, arg, copy, more)
      requires used == p.tail.used && chained == p.tail.chained && used + chained <= |arg|
      requires RepQueue(iss, queue, p.segs) && queuelen == p.queuelen && oversize == NewOversize(view, p, copy, more)
      modifies `unsent, `unsentOversize, `sndLbb, `sndBuf, `sndQueuelen
      ensures Rep(Commit(view, arg, copy, more))
    {
      hide Wrap, PlanWrite, NewOversize, RepQueue, AppendToLast, Numbers;
      AppendSegments(arg, used, chained, queue, view.unsent, p.segs);
      Advance(|arg|, queuelen, oversize, view, Commit(view, arg, copy, more));
    }

    method AppendSegments(arg: seq<byte>, used: nat, chained: nat, queue: seq<TcpSeg>,
                          ghost v: seq<Seg>, ghost segs: seq<Seg>)
      requires RepQueue(iss, unsent, v) && used + chained <= |arg| && RepQueue(iss, queue, segs)
      modifies `unsent
      ensures RepQueue(iss, unsent, AppendToLast(v, arg[..used + chained], ToInt(chained > 0)) + segs)
    {
      hide Wrap, RepQueue, AppendToLast;
      ghost var tail := AppendToLast(v, arg[..used + chained], ToInt(chained > 0));
      if unsent != [] {
        var last := ExtendLast(unsent[|unsent| - 1], arg, used, chained);
        RepExtended(iss, unsent, v, last, arg[..used + chained], ToInt(chained > 0));
        unsent := unsent[..|unsent| - 1] + [last];
      } else {
        NothingExtended(iss, unsent, v, arg[..used + chained], ToInt(chained > 0));
      }
      RepAppend(iss, unsent, tail, queue, segs);
      unsent := unsent + queue;
    }

    method Advance(len: nat, queuelen: u16, oversize: u16, ghost st: State, ghost st': State)
      requires Numbers(st) && len <= sndBuf
      requires st'.cfg == st.cfg && st'.sndWndMax == st.sndWndMax && st'.nxt == st.nxt && st'.lastack == st.lastack
      requires st'.lbb == st.lbb + len && st'.buf == st.buf - len
      requires st'.queuelen == queuelen && st'.oversize == oversize
      modifies `unsentOversize, `sndLbb, `sndBuf, `sndQueuelen
      ensures Numbers(st')
    {
      WrapAdd(iss + st.lbb, len);
      unsentOversize := oversize;
      sndLbb := Wrap(sndLbb + len);
      sndBuf := sndBuf - len;
      sndQueuelen := queuelen;
    }

    lemma WriteCases(st: State, arg: seq<byte>, copy: bool, more: bool, mem: nat)
      requires 0 < st.cfg.mss
      ensures var p := PlanWrite(st, arg, Copies(st.cfg, copy), more);
              var e := WriteErr(st, arg, Copies(st.cfg, copy), more, mem);
              if !st.open then e == ERR_CONN
              else if !Admitted(st, arg) then e == ERR_MEM
              else e == if mem < p.allocs || (p.segs != [] && p.queuelen > st.cfg.queueMax) then ERR_MEM else ERR_OK
      ensures Write(st, arg, copy, more, mem) == Step(st, DoWrite(arg, copy, more, mem))
      ensures var e := WriteErr(st, arg, Copies(st.cfg, copy), more, mem);
              Write(st, arg, copy, more, mem) ==
              if e == ERR_OK then Commit(st, arg, Copies(st.cfg, copy), more)
              else if e == ERR_MEM then st.(nagleMemErr := true) else st
    {
      hide PlanWrite, Commit;
    }

    // ------------------------------------------------------------------ close

    /** tcp_close, as far as the sending side goes: tcp_send_fin, and the change
        of state when it succeeds. */
    method TcpClose(mem: nat)
      requires Valid()
      modifies this
      ensures Valid() && view == Step(old(view), DoClose(mem))
    {
      hide Inv, Step, RepQueue, Wrap, SendFin, Sized;
      Facts();
      CloseStep(view, mem);
      CloseGood(view, total, mem);
      StepBounded(view, DoClose(mem));
      StepSized(view, total, DoClose(mem));
      if open {
        SendFinFlag(mem);
        open := !tfFin;
      }
      view := Close(view, mem);
    }

    lemma CloseStep(st: State, mem: nat)
      requires 0 < st.cfg.mss
      ensures Close(st, mem) == Step(st, DoClose(mem))
    {
      hide SendFin;
    }

    /** tcp_send_fin */
    method SendFinFlag(mem: nat)
      requires Rep(view) && !tfFin
      modifies `unsent, `tfFin, `sndLbb, `sndBuf, `sndQueuelen, `unsentOversize, `nagleMemErr
      requires sndQueuelen < 0xffff
      ensures Rep(SendFin(view, mem))
    {
      hide RepQueue, Wrap;
      SameEmpty(iss, unsent, view.unsent);
      if unsent != [] {
        var n := |unsent| - 1;
        RepLast(iss, unsent, view.unsent);
        if !unsent[n].fin {
          RepWithFin(iss, unsent, view.unsent);
          unsent := unsent[..n] + [unsent[n].(fin := true)];
          tfFin := true;
          return;
        }
      }
      EnqueueFlags(mem);
    }

    /** tcp_enqueue_flags with TCP_FIN, which no queue limit stops. */
    method EnqueueFlags(mem: nat)
      requires Rep(view) && sndQueuelen < 0xffff
      modifies `unsent, `tfFin, `sndLbb, `sndBuf, `sndQueuelen, `unsentOversize, `nagleMemErr
      ensures Rep(EnqueueFin(view, mem))
    {
      hide RepQueue, Wrap;
      if sndBuf == 0 {
        return;
      }
      if mem < 2 {
        nagleMemErr := true;
        return;
      }
      var seg := TcpSeg(sndLbb, [], true, 1);
      RepAppendOne(iss, unsent, view.unsent, seg, Seg(view.lbb, [], true, 1));
      unsent := unsent + [seg];
      unsentOversize := 0;
      WrapAdd(iss + view.lbb, 1);
      sndLbb := Wrap(sndLbb + 1);
      sndBuf := sndBuf - 1;
      tfFin := true;
      sndQueuelen := sndQueuelen + 1;
    }

    // ----------------------------------------------------------------- output

    /** tcp_output; the IP layer takes the first sends segments. */
    method TcpOutput(wnd: u32, ackNow: bool, sends: nat)
      requires Valid()
      modifies `unacked, `unsent, `sndNxt, `nagleMemErr, `unsentOversize, `view
      ensures Valid() && view == Step(old(view), DoOutput(wnd, ackNow, sends))
    {
      hide Inv, Step, Rep, Near, Output, Bounded, Sized;
      Facts();
      NearAll(view, total);
      StepSized(view, total, DoOutput(wnd, ackNow, sends));
      OutputGood(view, total, wnd, ackNow, sends);
      StepBounded(view, DoOutput(wnd, ackNow, sends));
      OutputStep(view, wnd, ackNow, sends);
      Transmit(wnd, ackNow, sends);
    }

    lemma OutputStep(st: State, wnd: nat, ackNow: bool, sends: nat)
      requires 0 < st.cfg.mss
      ensures Output(st, wnd, ackNow, sends) == Step(st, DoOutput(wnd, ackNow, sends))
    {
      hide Output;
    }

    /** The body of tcp_output. */
    method Transmit(wnd: u32, ackNow: bool, sends: nat)
      requires Rep(view) && Near(view)
      modifies `unacked, `unsent, `sndNxt, `nagleMemErr, `unsentOversize, `view
      ensures Rep(view) && view == Output(old(view), wnd, ackNow, sends)
    {
      hide Rep, SendLoop, Near, InWindow;
      var fits := HeadFits(view, wnd);
      if ackNow && !fits {
        return;
      }
      SendSegments(wnd, sends);
      view := SendLoop(view, wnd, sends);
    }

    /** Is there a segment, and does the window allow it? */
    method HeadFits(ghost st: State, wnd: u32) returns (fits: bool)
      requires Rep(st) && Near(st)
      ensures fits <==> st.unsent != [] && InWindow(st, wnd)
    {
      hide Wrap;
      if unsent != [] {
        ghost var s := st.unsent[0];
        assert RepSeg(iss, unsent[0], s) && NearSeg(s, st.lastack);
        Distance(iss, s.pos, |s.data|, st.lastack);
        return Wrap(Wrap(unsent[0].seqno - lastack) + |unsent[0].data|) <= wnd;
      }
      return false;
    }

    /** tcp_do_output_nagle and the flags that override it. */
    method MayOutput(ghost st: State) returns (may: bool)
      requires Rep(st) && unsent != []
      ensures st.unsent != [] && may == MaySend(st)
    {
      hide Wrap;
      assert RepSeg(iss, unsent[0], st.unsent[0]);
      var nagle := unacked == [] || cfg.noDelay || inFr || |unsent| > 1 || |unsent[0].data| >= cfg.mss
                   || sndBuf == 0 || sndQueuelen >= cfg.queueMax;
      return nagle || nagleMemErr || tfFin;
    }

    /** The loop of tcp_output. */
    method SendSegments(wnd: u32, sends: nat)
      requires Rep(view) && Near(view)
      modifies `unacked, `unsent, `sndNxt, `nagleMemErr, `unsentOversize
      ensures Rep(SendLoop(view, wnd, sends))
    {
      hide Rep, SendLoop, Near, InWindow, MaySend, SendHead;
      ghost var st := view;
      var left: nat := sends;
      var fits := HeadFits(st, wnd);
      while fits
        invariant Rep(st) && Near(st) && (fits <==> st.unsent != [] && InWindow(st, wnd))
        invariant SendLoop(st, wnd, left) == SendLoop(view, wnd, sends)
        decreases left, fits
      {
        LoopUnfold(st, wnd, left);
        RepEmpty(st);
        var may := MayOutput(st);
        if !may {
          break;
        }
        if left == 0 {
          // tcp_output_segment failed
          SetNagle(true, st);
          return;
        }
        SendFirst(st);
        st := SendHead(st);
        left := left - 1;
        fits := HeadFits(st, wnd);
      }
      LoopUnfold(st, wnd, left);
      Finish(st);
    }

    lemma LoopUnfold(st: State, wnd: nat, sends: nat)
      ensures SendLoop(st, wnd, sends) ==
              if st.unsent == [] || !InWindow(st, wnd) || !MaySend(st) then
                st.(oversize := if st.unsent == [] then 0 else st.oversize, nagleMemErr := false)
              else if sends == 0 then st.(nagleMemErr := true)
              else SendLoop(SendHead(st), wnd, sends - 1)
    {
    }

    lemma RepEmpty(st: State)
      requires Rep(st)
      ensures unsent == [] <==> st.unsent == []
    {
    }

    method SetNagle(b: bool, ghost st: State)
      requires Rep(st)
      modifies `nagleMemErr
      ensures Rep(st.(nagleMemErr := b))
    {
      hide Wrap, RepQueue;
      nagleMemErr := b;
    }

    /** The end of tcp_output. */
    method Finish(ghost st: State)
      requires Rep(st)
      modifies `nagleMemErr, `unsentOversize
      ensures Rep(st.(oversize := if st.unsent == [] then 0 else st.oversize, nagleMemErr := false))
    {
      hide Wrap, RepQueue;
      SameEmpty(iss, unsent, st.unsent);
      if unsent == [] {
        unsentOversize := 0;
      }
      nagleMemErr := false;
    }

    /** The head of unsent leaves and goes on unacked. */
    method SendFirst(ghost st: State)
      requires Rep(st) && Near(st) && st.unsent != []
      modifies `unacked, `unsent, `sndNxt
      ensures Rep(SendHead(st)) && Near(SendHead(st))
    {
      hide Wrap, RepQueue, SeqLt, InsertUnacked, Near, NearSeg;
      SameEmpty(iss, unsent, st.unsent);
      NearInsert(st);
      HeadSplit(iss, unsent, st.unsent);
      NearHead(st);
      var seg := unsent[0];
      unsent := unsent[1..];
      NoteSent(seg, st.unsent[0], st.nxt, st.lastack);
      if seg.TcpLen() > 0 {
        unacked := InsertOnUnacked(unacked, seg, iss, st.unacked, st.unsent[0], st.lastack);
      }
    }

    /** snd_nxt moves over the segment, unless it was sent before. */
    method NoteSent(seg: TcpSeg, ghost s: Seg, ghost nxt: int, ghost la: int)
      requires sndNxt == Wrap(iss + nxt) && RepSeg(iss, seg, s) && NearSeg(s, la) && la <= nxt <= la + 0x2_0000
      modifies `sndNxt
      ensures sndNxt == Wrap(iss + Max(nxt, s.Next()))
    {
      hide Wrap, SeqLt;
      WrapAdd(iss + s.pos, s.TcpLen());
      Compare(iss + nxt, 0, iss + s.Next(), 0);
      var next := Wrap(seg.seqno + seg.TcpLen());
      if SeqLt(sndNxt, next) {
        sndNxt := next;
      }
    }

    // --------------------------------------------------------- acknowledgment

    /** The acknowledgment half of tcp_receive.  ackno acknowledges everything
        before p, which is less than half the sequence space from lastack. */
    method ReceiveAck(ackno: u32, ghost p: int) returns (acked: u16)
      requires Valid() && ackno == Wrap(iss + p) && Reachable(p, view.lastack)
      modifies this
      ensures Valid() && view == Step(old(view), DoAck(p))
      ensures acked == view.reported - old(view).reported
    {
      hide Inv, Step, Ack, Rep, Near, Bounded, Sized, Wrap, Room, SeqLeq, SeqBetween;
      Facts();
      NearAll(view, total);
      RoomOf(view, total);
      AckGood(view, total, p);
      StepBounded(view, DoAck(p));
      StepSized(view, total, DoAck(p));
      AckStep(view, p);
      acked := ProcessAck(ackno, p);
      view := Ack(view, p);
    }

    lemma AckStep(st: State, p: int)
      requires 0 < st.cfg.mss
      ensures Ack(st, p) == Step(st, DoAck(p))
    {
      hide Ack;
    }

    method ProcessAck(ackno: u32, ghost p: int) returns (acked: u16)
      requires Rep(view) && Near(view) && Room(view)
      requires ackno == Wrap(iss + p) && Reachable(p, view.lastack)
      modifies `unacked, `unsent, `lastack, `sndBuf, `sndQueuelen, `unsentOversize, `inFr
      ensures Rep(Ack(view, p))
      ensures acked == Ack(view, p).reported - view.reported
    {
      hide Rep, Near, Wrap, SeqLeq, SeqBetween, Ack, Room, AckUnacked, DropUnsent;
      CompareAck(view, ackno, p);
      NearUnacked(view);
      AckTwoSteps(view, p);
      AckReports(view, p);
      acked := 0;
      if SeqLeq(ackno, lastack) {
        // not new: tcp_rexmit_fast may follow, see FastRetransmit
      } else if SeqBetween(ackno, lastack + 1, sndNxt) {
        acked := NewAck(ackno, p);
      }
      ghost var st := AckUnacked(view, p);
      NearMid(view, p);
      acked := AckUnsent(ackno, acked, st, p, view.lastack);
      RepReported(DropUnsent(st, p), Ack(view, p).reported);
    }

    lemma RepReported(st: State, reported: int)
      requires Rep(st)
      ensures Rep(st.(reported := reported))
    {
    }

    lemma CompareAck(st: State, ackno: u32, p: int)
      requires Rep(st) && Near(st) && ackno == Wrap(iss + p) && Reachable(p, st.lastack)
      ensures SeqLeq(ackno, lastack) <==> p <= st.lastack
      ensures SeqBetween(ackno, lastack + 1, sndNxt) <==> st.lastack < p <= st.nxt
    {
      Compare(iss + p, 0, iss + st.lastack, 0);
      Compare(iss + p, 0, iss + st.lastack, 1);
      Compare(iss + p, 0, iss + st.nxt, 0);
      hide Wrap, RepQueue;
    }

    /** New data is acknowledged: the window of unacked moves on. */
    method NewAck(ackno: u32, ghost p: int) returns (acked: u16)
      requires Rep(view) && Near(view) && Room(view) && ackno == Wrap(iss + p) && view.lastack < p <= view.nxt
      modifies `unacked, `lastack, `sndBuf, `sndQueuelen, `inFr
      ensures Rep(AckUnacked(view, p))
      ensures acked == AckedFirst(view, p)
    {
      hide Wrap, RepQueue, Covered, Clens, Reported, AllNear, NearSeg;
      ghost var st := view;
      NearUnacked(st);
      SignedDistance(iss + p, iss + st.lastack);
      inFr := false;
      acked := Wrap(ackno - lastack);
      sndBuf := sndBuf + acked;
      lastack := ackno;
      CountLeft(st, p);
      var q, a, n := RemoveUnacked(unacked, ackno, acked, sndQueuelen, iss, st.unacked, p, st.lastack);
      unacked, acked, sndQueuelen := q, a, n;
    }

    /** The second loop: segments on unsent that had been sent before. */
    method AckUnsent(ackno: u32, acked0: u16, ghost st: State, ghost p: int, ghost la: int) returns (acked: u16)
      requires Rep(st) && AllNear(st.unsent, la) && la <= st.nxt <= la + 0x2_0000
      requires Clens(st.unsent) <= st.queuelen
      requires ackno == Wrap(iss + p) && Reachable(p, la)
      modifies `unsent, `sndQueuelen, `unsentOversize
      ensures Rep(DropUnsent(st, p))
      ensures acked == if p <= st.nxt then Reported(acked0, st.unsent[..Covered(st.unsent, p)]) else acked0
    {
      hide Wrap, RepQueue, RepSeg, Covered, Clens, Reported, Reachable, AllNear, NearSeg;
      NoneGone(st.unsent, acked0);
      var q, a, n, o := RemoveUnsent(unsent, ackno, sndNxt, acked0, sndQueuelen, unsentOversize,
        iss, st.unsent, p, la, st.nxt);
      unsent, acked, sndQueuelen, unsentOversize := q, a, n, o;
    }

    // -------------------------------------------------------------- retransmit

    /** tcp_rexmit_rto */
    method TcpRexmitRto(wnd: u32, ackNow: bool, sends: nat)
      requires Valid()
      modifies `unacked, `unsent, `sndNxt, `nagleMemErr, `unsentOversize, `view
      ensures Valid() && view == Step(old(view), Timeout(wnd, ackNow, sends))
    {
      hide Inv, Step, Rep, Near, Output, Requeue, Bounded, Sized;
      Facts();
      RepEmptyUnacked();
      RequeueGood(view, total);
      NearAll(Requeue(view), total) by { RequeueSized(view, total); }
      OutputGood(Requeue(view), total, wnd, ackNow, sends);
      StepBounded(view, Timeout(wnd, ackNow, sends));
      StepSized(view, total, Timeout(wnd, ackNow, sends));
      RtoStep(view, wnd, ackNow, sends);
      if unacked == [] {
        return;
      }
      MoveToUnsent();
      view := Requeue(view);
      Transmit(wnd, ackNow, sends);
    }

    lemma RepEmptyUnacked()
      requires Rep(view)
      ensures unacked == [] <==> view.unacked == []
    {
    }

    lemma RtoStep(st: State, wnd: nat, ackNow: bool, sends: nat)
      requires 0 < st.cfg.mss
      ensures Step(st, Timeout(wnd, ackNow, sends)) ==
              if st.unacked == [] then st else Output(Requeue(st), wnd, ackNow, sends)
    {
      hide Output;
    }

    /** All unacked segments go to the head of unsent. */
    method MoveToUnsent()
      requires Rep(view)
      modifies `unacked, `unsent
      ensures Rep(Requeue(view))
    {
      hide Wrap, RepQueue;
      RepAppend(iss, unacked, view.unacked, unsent, view.unsent);
      RepNothing(iss);
      unsent := unacked + unsent;
      unacked := [];
    }

    /** The third duplicate ACK: tcp_rexmit_fast, then tcp_output at the end of
        tcp_input.  The segment must really leave again, unless it was the only
        one on unacked. */
    method FastRetransmitAndOutput(wnd: u32, ackNow: bool, sends: nat)
      requires Valid() && Legal(view, ThirdDupAck(wnd, ackNow, sends))
      modifies `unacked, `unsent, `sndNxt, `nagleMemErr, `unsentOversize, `inFr, `view
      ensures Valid() && view == Step(old(view), ThirdDupAck(wnd, ackNow, sends))
    {
      hide Inv, Step, Rep, Near, Output, RexmitFast, Bounded, Sized;
      Facts();
      NearAll(view, total);
      NearRexmit(view);
      FastRetransmitGood(view, total, wnd, ackNow, sends);
      StepBounded(view, ThirdDupAck(wnd, ackNow, sends));
      StepSized(view, total, ThirdDupAck(wnd, ackNow, sends));
      FastStep(view, wnd, ackNow, sends);
      TcpRexmitFast();
      view := RexmitFast(view);
      Transmit(wnd, ackNow, sends);
    }

    lemma FastStep(st: State, wnd: nat, ackNow: bool, sends: nat)
      requires 0 < st.cfg.mss
      ensures Step(st, ThirdDupAck(wnd, ackNow, sends)) == Output(RexmitFast(st), wnd, ackNow, sends)
    {
      hide Output, RexmitFast;
    }

    /** tcp_rexmit_fast */
    method TcpRexmitFast()
      requires Rep(view) && Near(view)
      modifies `unacked, `unsent, `unsentOversize, `inFr
      ensures Rep(RexmitFast(view))
    {
      hide Wrap, RepQueue, Rexmit, Near;
      SameEmpty(iss, unacked, view.unacked);
      if unacked != [] && !inFr {
        TcpRexmit();
        inFr := true;
      }
    }

    /** tcp_rexmit: the first unacked segment goes back to unsent. */
    method TcpRexmit()
      requires Rep(view) && Near(view) && view.unacked != []
      modifies `unacked, `unsent, `unsentOversize
      ensures Rep(Rexmit(view))
    {
      hide Wrap, RepQueue, Near, NearSeg, AllNear, InsertSorted, PlaceOf;
      SameEmpty(iss, unacked, view.unacked);
      SameLength(iss, unsent, view.unsent);
      HeadSplit(iss, unacked, view.unacked);
      NearUnacked(view);
      NearSplit(view.unacked, view.lastack);
      var seg := unacked[0];
      var q, i := InsertInOrder(unsent, seg, iss, view.unsent, view.unacked[0], view.lastack);
      if i == |unsent| {
        // the retransmitted segment is the last one
        unsentOversize := 0;
      }
      unacked := unacked[1..];
      unsent := q;
    }

    // ------------------------------------------------------------------ window

    /** The peer offers a window; the largest one so far is kept. */
    method NoteWindow(wnd: u16)
      requires Valid()
      modifies `sndWndMax, `view
      ensures Valid() && view == Step(old(view), OfferWindow(wnd))
    {
      hide Inv, RepQueue, Wrap, Bounded, Sized;
      Facts();
      OfferGood(view, total, wnd);
      StepBounded(view, OfferWindow(wnd));
      StepSized(view, total, OfferWindow(wnd));
      if sndWndMax < wnd {
        sndWndMax := wnd;
      }
      view := view.(sndWndMax := Max(view.sndWndMax, wnd));
    }
  }

  lemma SameLength(iss: int, q: seq<TcpSeg>, v: seq<Seg>)
    requires RepQueue(iss, q, v)
    ensures |q| == |v|
  {
  }

  lemma RequeueSized(st: State, total: nat)
    requires Sized(st, total)
    ensures Requeue(st).cfg == st.cfg && Sized(Requeue(st), total)
  {
    assert Queue(Requeue(st)) == Queue(st);
  }

  lemma NearRexmit(st: State)
    requires Near(st)
    ensures Near(RexmitFast(st))
  {
    hide NearSeg, PlaceOf;
    if st.unacked != [] && !st.inFr {
      InsertSortedNear(st.unsent, st.unacked[0], st.lastack);
    }
  }

  /** First half of Ack: unacked. */
  ghost function AckUnacked(st: State, p: int): State {
    if st.lastack < p <= st.nxt then
      var n := Covered(st.unacked, p);
      st.(lastack := p, buf := st.buf + (p - st.lastack), inFr := false, unacked := st.unacked[n..],
          queuelen := st.queuelen - Clens(st.unacked[..n]))
    else st
  }

  ghost function AckedFirst(st: State, p: int): int {
    if st.lastack < p <= st.nxt then Reported(p - st.lastack, st.unacked[..Covered(st.unacked, p)]) else 0
  }

  /** Second half: unsent. */
  ghost function DropUnsent(st: State, p: int): State {
    if p <= st.nxt then
      var m := Covered(st.unsent, p);
      st.(unsent := st.unsent[m..], oversize := if m > 0 && m == |st.unsent| then 0 else st.oversize,
          queuelen := st.queuelen - Clens(st.unsent[..m]))
    else st
  }

  lemma {:induction false} ReportedAppend(acked: int, a: seq<Seg>, b: seq<Seg>)
    ensures Reported(acked, a + b) == Reported(Reported(acked, a), b)
    decreases |a|
  {
    if a == [] {
      assert a + b == b;
    } else {
      assert (a + b)[1..] == a[1..] + b;
      ReportedAppend(if acked != 0 && a[0].fin then acked - 1 else acked, a[1..], b);
    }
  }

  lemma {:induction false} ReportedZero(q: seq<Seg>)
    ensures Reported(0, q) == 0
    decreases |q|
  {
    if q != [] { ReportedZero(q[1..]); }
  }

  /** Ack is its two halves. */
  lemma AckTwoSteps(st: State, p: int)
    requires st.lastack <= st.nxt
    ensures Ack(st, p) == DropUnsent(AckUnacked(st, p), p).(reported := Ack(st, p).reported)
    ensures AckUnacked(st, p).unsent == st.unsent && AckUnacked(st, p).nxt == st.nxt
    ensures !(st.lastack < p <= st.nxt) ==> AckUnacked(st, p) == st
  {
    hide Covered, Clens, Reported;
    var n, m := Covered(st.unacked, p), Covered(st.unsent, p);
    ClensAppend(st.unacked[..n], st.unsent[..m]);
  }

  lemma AckReports(st: State, p: int)
    requires st.lastack <= st.nxt
    ensures p <= st.nxt ==>
              Ack(st, p).reported - st.reported == Reported(AckedFirst(st, p), st.unsent[..Covered(st.unsent, p)])
    ensures p > st.nxt ==> Ack(st, p) == st
    ensures !(st.lastack < p <= st.nxt) ==> AckedFirst(st, p) == 0
  {
    hide Covered, Clens, Reported;
    var n, m := Covered(st.unacked, p), Covered(st.unsent, p);
    ReportedAppend(p - st.lastack, st.unacked[..n], st.unsent[..m]);
    ReportedZero(st.unsent[..m]);
  }

  /** What tcp_receive can count on: the numbers fit their fields. */
  ghost predicate Room(st: State) {
    && st.nxt - st.lastack < 0x1_0000 && st.buf + (st.nxt - st.lastack) < 0x1_0000
    && st.queuelen == Clens(st.unacked) + Clens(st.unsent)
  }

  lemma RoomOf(st: State, total: nat)
    requires Inv(st, total) && total < 0xffff
    ensures Room(st)
  {
    hide Chain, SlicesOf, Clens, Wired;
    ClensAppend(st.unacked, st.unsent);
  }

  lemma NearUnacked(st: State)
    requires Near(st)
    ensures AllNear(st.unacked, st.lastack) && AllNear(st.unsent, st.lastack)
    ensures st.lastack <= st.nxt <= st.lastack + 0x2_0000
  {
    hide NearSeg;
  }

  lemma CountLeft(st: State, p: int)
    requires Room(st)
    ensures Clens(st.unacked) <= st.queuelen
  {
    hide Clens;
  }

  lemma NearMid(st: State, p: int)
    requires Near(st) && Room(st)
    ensures AllNear(AckUnacked(st, p).unsent, st.lastack)
    ensures st.lastack <= AckUnacked(st, p).nxt <= st.lastack + 0x2_0000
    ensures Clens(AckUnacked(st, p).unsent) <= AckUnacked(st, p).queuelen
  {
    hide NearSeg, Clens, Covered;
    var n := Covered(st.unacked, p);
    ClensAppend(st.unacked[..n], st.unacked[n..]);
    assert st.unacked[..n] + st.unacked[n..] == st.unacked;
  }

  /** The loop over unsent in tcp_receive. */
  method RemoveUnsent(q0: seq<TcpSeg>, ackno: u32, sndNxt: u32, acked0: nat, queuelen0: nat, oversize0: nat,
                      ghost iss: int, ghost v0: seq<Seg>, ghost p: int, ghost lastack: int, ghost nxt: int)
    returns (q: seq<TcpSeg>, acked: nat, queuelen: nat, oversize: nat)
    requires RepQueue(iss, q0, v0) && AllNear(v0, lastack) && ackno == Wrap(iss + p) && Reachable(p, lastack)
    requires sndNxt == Wrap(iss + nxt) && lastack <= nxt <= lastack + 0x2_0000
    requires Clens(v0) <= queuelen0
    ensures var c := if p <= nxt then Covered(v0, p) else 0;
            && RepQueue(iss, q, v0[c..]) && queuelen == queuelen0 - Clens(v0[..c])
            && acked == Reported(acked0, v0[..c])
            && oversize == if c > 0 && c == |v0| then 0 else oversize0
    ensures acked <= acked0 && queuelen <= queuelen0
  {
    hide Wrap, SeqLeq, SeqGeq, NearSeg, Covered, Clens, Reported, RepQueue, Popping, AllNear;
    q, acked, queuelen, oversize := q0, acked0, queuelen0, oversize0;
    ghost var v := v0;
    CompareNxt(iss, p, nxt, lastack);
    PoppingFirst(v0, acked0, queuelen0, p);
    NoneGone(v0, acked0);
    SameEmpty(iss, q, v);
    while q != [] && SeqBetween(ackno, q[0].seqno + q[0].TcpLen(), sndNxt)
      invariant RepQueue(iss, q, v) && AllNear(v, lastack) && (q == [] <==> v == [])
      invariant Clens(v) <= queuelen <= queuelen0 && acked <= acked0 && |v| <= |v0|
      invariant (p > nxt ==> v == v0 && acked == acked0 && queuelen == queuelen0)
      invariant Popping(v0, acked0, queuelen0, v, acked, queuelen, p)
      invariant oversize == if |v| < |v0| && v == [] then 0 else oversize0
      decreases |q|
    {
      HeadSplit(iss, q, v);
      NearSplit(v, lastack);
      CompareEnd(iss, q[0], v[0], ackno, p, lastack);
      PoppingNext(v0, acked0, queuelen0, v, acked, queuelen, p);
      if acked != 0 && q[0].fin {
        acked := acked - 1;
      }
      queuelen := queuelen - q[0].clen;
      q, v := q[1..], v[1..];
      SameEmpty(iss, q, v);
      if q == [] {
        oversize := 0;
      }
    }
    if q != [] {
      HeadSplit(iss, q, v);
      NearSplit(v, lastack);
      CompareEnd(iss, q[0], v[0], ackno, p, lastack);
    }
    if p <= nxt {
      PoppingLast(v0, acked0, queuelen0, v, acked, queuelen, p);
    }
  }

  lemma CompareNxt(iss: int, p: int, nxt: int, lastack: int)
    requires Reachable(p, lastack) && lastack <= nxt <= lastack + 0x2_0000
    ensures SeqLeq(Wrap(iss + p), Wrap(iss + nxt)) <==> p <= nxt
  {
    Compare(iss + p, 0, iss + nxt, 0);
  }

  lemma NoneGone(v: seq<Seg>, acked: int)
    ensures v[0..] == v && Clens(v[..0]) == 0 && Reported(acked, v[..0]) == acked
  {
  }

  /** Half the sequence space, less the size of the queues. */
  ghost predicate Reachable(p: int, q: int) {
    -0x7ff0_0000 < p - q < 0x7ff0_0000
  }

  /** One round of either loop that removes acknowledged segments. */
  lemma PopStep(v: seq<Seg>, p: int, acked: int)
    requires v != [] && p >= v[0].Next()
    ensures var c := Covered(v[1..], p);
            && Covered(v, p) == 1 + c && v[1..][c..] == v[1 + c..]
            && Clens(v[..1 + c]) == v[0].clen + Clens(v[1..][..c])
            && Reported(acked, v[..1 + c]) == Reported(if acked != 0 && v[0].fin then acked - 1 else acked, v[1..][..c])
  {
    var c := Covered(v[1..], p);
    assert v[..1 + c][1..] == v[1..][..c];
  }

  lemma PopNone(v: seq<Seg>, p: int, acked: int)
    requires v == [] || p < v[0].Next()
    ensures Covered(v, p) == 0 && Clens(v[..0]) == 0 && Reported(acked, v[..0]) == acked && v[0..] == v
  {
  }

  /** What is left of v, and what has still to be accounted for, is the same as
      for v0. */
  ghost predicate Popping(v0: seq<Seg>, acked0: int, queuelen0: int, v: seq<Seg>, acked: int, queuelen: int, p: int) {
    var c, c0 := Covered(v, p), Covered(v0, p);
    && v[c..] == v0[c0..] && queuelen - Clens(v[..c]) == queuelen0 - Clens(v0[..c0])
    && Reported(acked, v[..c]) == Reported(acked0, v0[..c0])
  }

  /** The acknowledgment against the end of a segment. */
  lemma CompareEnd(iss: int, t: TcpSeg, s: Seg, ackno: u32, p: int, lastack: int)
    requires RepSeg(iss, t, s) && NearSeg(s, lastack) && ackno == Wrap(iss + p) && Reachable(p, lastack)
    ensures SeqLeq(t.seqno + t.TcpLen(), ackno) <==> s.Next() <= p
    ensures SeqGeq(ackno, t.seqno + t.TcpLen()) <==> s.Next() <= p
  {
    Compare(iss + s.pos, t.TcpLen(), iss + p, 0);
    Compare(iss + p, 0, iss + s.pos, t.TcpLen());
  }

  /** The loop over unacked in tcp_receive. */
  method RemoveUnacked(q0: seq<TcpSeg>, ackno: u32, acked0: nat, queuelen0: nat,
                       ghost iss: int, ghost v0: seq<Seg>, ghost p: int, ghost lastack: int)
    returns (q: seq<TcpSeg>, acked: nat, queuelen: nat)
    requires RepQueue(iss, q0, v0) && AllNear(v0, lastack) && ackno == Wrap(iss + p) && Reachable(p, lastack)
    requires Clens(v0) <= queuelen0
    ensures var c := Covered(v0, p);
            && RepQueue(iss, q, v0[c..]) && queuelen == queuelen0 - Clens(v0[..c])
            && acked == Reported(acked0, v0[..c])
    ensures acked <= acked0 && queuelen <= queuelen0
  {
    hide Wrap, SeqLeq, NearSeg, Covered, Clens, Reported, RepQueue, Popping, AllNear;
    q, acked, queuelen := q0, acked0, queuelen0;
    ghost var v := v0;
    PoppingFirst(v0, acked0, queuelen0, p);
    SameEmpty(iss, q, v);
    while q != [] && SeqLeq(q[0].seqno + q[0].TcpLen(), ackno)
      invariant RepQueue(iss, q, v) && AllNear(v, lastack) && (q == [] <==> v == [])
      invariant Clens(v) <= queuelen <= queuelen0 && acked <= acked0
      invariant Popping(v0, acked0, queuelen0, v, acked, queuelen, p)
      decreases |q|
    {
      HeadSplit(iss, q, v);
      NearSplit(v, lastack);
      CompareEnd(iss, q[0], v[0], ackno, p, lastack);
      PoppingNext(v0, acked0, queuelen0, v, acked, queuelen, p);
      if acked != 0 && q[0].fin {
        acked := acked - 1;
      }
      queuelen := queuelen - q[0].clen;
      q, v := q[1..], v[1..];
      SameEmpty(iss, q, v);
    }
    if q != [] {
      HeadSplit(iss, q, v);
      NearSplit(v, lastack);
      CompareEnd(iss, q[0], v[0], ackno, p, lastack);
    }
    PoppingLast(v0, acked0, queuelen0, v, acked, queuelen, p);
  }

  lemma PoppingFirst(v: seq<Seg>, acked: int, queuelen: int, p: int)
    ensures Popping(v, acked, queuelen, v, acked, queuelen, p)
  {
  }

  lemma PoppingNext(v0: seq<Seg>, acked0: int, queuelen0: int, v: seq<Seg>, acked: int, queuelen: int, p: int)
    requires Popping(v0, acked0, queuelen0, v, acked, queuelen, p) && v != [] && p >= v[0].Next()
    ensures Popping(v0, acked0, queuelen0, v[1..],
                    if acked != 0 && v[0].fin then acked - 1 else acked, queuelen - v[0].clen, p)
    ensures Clens(v) == v[0].clen + Clens(v[1..])
  {
    PopStep(v, p, acked);
    hide Covered, Reported;
  }

  lemma PoppingLast(v0: seq<Seg>, acked0: int, queuelen0: int, v: seq<Seg>, acked: int, queuelen: int, p: int)
    requires Popping(v0, acked0, queuelen0, v, acked, queuelen, p) && (v == [] || p < v[0].Next())
    ensures var c := Covered(v0, p);
            v == v0[c..] && queuelen == queuelen0 - Clens(v0[..c]) && acked == Reported(acked0, v0[..c])
  {
    PopNone(v, p, acked);
    hide Covered, Reported, Clens;
  }

  lemma NearSplit(v: seq<Seg>, p: int)
    requires AllNear(v, p) && v != []
    ensures NearSeg(v[0], p) && AllNear(v[1..], p)
  {
    hide NearSeg;
  }

  lemma HeadSplit(iss: int, q: seq<TcpSeg>, v: seq<Seg>)
    requires RepQueue(iss, q, v) && q != []
    ensures RepSeg(iss, q[0], v[0]) && RepQueue(iss, q[1..], v[1..])
  {
  }

  lemma NearHead(st: State)
    requires Near(st) && st.unsent != []
    ensures var s := st.unsent[0];
            s.Next() <= st.lastack + 0x2_0000 && st.lastack - 0x2_0000 <= s.pos
            && st.lastack <= st.nxt <= st.lastack + 0x2_0000
    ensures NearSeg(st.unsent[0], st.lastack) && AllNear(st.unacked, st.lastack)
  {
  }

  ghost predicate AllNear(q: seq<Seg>, p: int) {
    forall i :: 0 <= i < |q| ==> NearSeg(q[i], p)
  }

  lemma {:induction false} InsertSortedNear(q: seq<Seg>, s: Seg, p: int)
    requires AllNear(q, p) && NearSeg(s, p)
    ensures AllNear(InsertSorted(q, s), p)
  {
    if q != [] && q[0].pos < s.pos {
      InsertSortedNear(q[1..], s, p);
    }
  }

  lemma NearInsert(st: State)
    requires Near(st) && st.unsent != []
    ensures Near(SendHead(st))
  {
    InsertSortedNear(st.unacked, st.unsent[0], st.lastack);
    hide InsertSorted, NearSeg;
  }

  /** How the code orders two segments. */
  lemma CompareSegs(iss: int, t: TcpSeg, s: Seg, u: TcpSeg, v: Seg, p: int)
    requires RepSeg(iss, t, s) && RepSeg(iss, u, v) && NearSeg(s, p) && NearSeg(v, p)
    ensures SeqLt(t.seqno, u.seqno) <==> s.pos < v.pos
  {
    Compare(iss + s.pos, 0, iss + v.pos, 0);
  }

  /** Put a segment in front of the first that does not start earlier. */
  method InsertInOrder(q: seq<TcpSeg>, seg: TcpSeg, ghost iss: int, ghost v: seq<Seg>, ghost s: Seg, ghost p: int)
    returns (r: seq<TcpSeg>, i: nat)
    requires RepQueue(iss, q, v) && RepSeg(iss, seg, s) && AllNear(v, p) && NearSeg(s, p)
    ensures RepQueue(iss, r, InsertSorted(v, s)) && i == PlaceOf(v, s)
  {
    hide Wrap, SeqLt, NearSeg, InsertSorted, PlaceOf;
    i := 0;
    assert v[0..] == v;
    while i < |q| && SeqLt(q[i].seqno, seg.seqno)
      invariant 0 <= i <= |q| && InsertSorted(v, s) == v[..i] + InsertSorted(v[i..], s)
      invariant PlaceOf(v, s) == i + PlaceOf(v[i..], s)
    {
      CompareSegs(iss, q[i], v[i], seg, s, p);
      SkipOne(v, s, i);
      i := i + 1;
    }
    if i < |q| {
      CompareSegs(iss, q[i], v[i], seg, s, p);
    }
    StopHere(v, s, i);
    r := q[..i] + [seg] + q[i..];
  }

  lemma SkipOne(v: seq<Seg>, s: Seg, i: nat)
    requires i < |v| && v[i].pos < s.pos
    ensures v[..i] + InsertSorted(v[i..], s) == v[..i + 1] + InsertSorted(v[i + 1..], s)
    ensures i + PlaceOf(v[i..], s) == i + 1 + PlaceOf(v[i + 1..], s)
  {
    assert v[i..][1..] == v[i + 1..];
  }

  lemma StopHere(v: seq<Seg>, s: Seg, i: nat)
    requires i <= |v| && (i < |v| ==> v[i].pos >= s.pos)
    ensures v[..i] + InsertSorted(v[i..], s) == v[..i] + [s] + v[i..] && PlaceOf(v[i..], s) == 0
  {
  }

  method InsertOnUnacked(q: seq<TcpSeg>, seg: TcpSeg, ghost iss: int, ghost v: seq<Seg>, ghost s: Seg, ghost p: int)
    returns (r: seq<TcpSeg>)
    requires RepQueue(iss, q, v) && RepSeg(iss, seg, s) && AllNear(v, p) && NearSeg(s, p)
    ensures RepQueue(iss, r, InsertUnacked(v, s))
  {
    hide Wrap, SeqLt, NearSeg, InsertSorted;
    if q != [] {
      CompareSegs(iss, seg, s, q[|q| - 1], v[|q| - 1], p);
      if SeqLt(seg.seqno, q[|q| - 1].seqno) {
        var place;
        r, place := InsertInOrder(q, seg, iss, v, s, p);
        return;
      }
    }
    r := q + [seg];
  }

  /** The positions of a valid connection are close together. */
  lemma NearAll(st: State, total: nat)
    requires Inv(st, total) && Sized(st, total) && total < 0xffff && st.cfg.mss < 0x8000
    ensures Near(st)
  {
    hide Inv, NearSeg, Sized;
    NearNumbers(st, total);
    NearQueue(st, st.unacked + st.unsent, total);
    NearParts(st.unacked, st.unsent, st.lastack);
  }

  lemma NearParts(a: seq<Seg>, b: seq<Seg>, p: int)
    requires AllNear(a + b, p)
    ensures AllNear(a, p) && AllNear(b, p)
  {
    hide NearSeg;
    assert forall i :: 0 <= i < |a| ==> a[i] == (a + b)[i];
    assert forall i :: 0 <= i < |b| ==> b[i] == (a + b)[|a| + i];
  }

  lemma NearNumbers(st: State, total: nat)
    requires Inv(st, total) && total < 0xffff
    ensures -0x2_0000 <= st.lbb - st.lastack <= 0x2_0000 && st.lastack <= st.nxt <= st.lastack + 0x2_0000
  {
    hide Chained, Wired;
  }

  lemma NearQueue(st: State, q: seq<Seg>, total: nat)
    requires Inv(st, total) && Sized(st, total) && total < 0xffff && st.cfg.mss < 0x8000 && q == Queue(st)
    ensures AllNear(q, st.lastack)
  {
    hide Clens, SlicesOf, Wired, MssLocal;
    forall i | 0 <= i < |q|
      ensures NearSeg(q[i], st.lastack)
    {
      ChainEnds(q, Hi(st), i);
      if i > 0 { ChainSorted(q, Hi(st), 0, i); }
      assert |q[i].data| <= st.cfg.mss + total;
    }
  }
}
