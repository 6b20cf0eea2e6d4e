// What tcp_write, tcp_output, acknowledgments and retransmissions keep: the two
// send queues are one unbroken chain of segments that repeats the bytes the
// application wrote, and every counter says what it should.
module SendQueueTheorems {
  import opened Words
  import opened SendQueue
  import R = Reassembly
  import RT = ReassemblyTheorems

  // ---------------------------------------------------------------- invariant

  function Queue(st: State): seq<Seg> { st.unacked + st.unsent }

  /** Position after everything queued or acknowledged so far. */
  function Hi(st: State): int { |st.written| + ToInt(st.finFlag) }

  /** Segments that follow each other without gap or overlap and end at hi. */
  ghost predicate Chain(q: seq<Seg>, hi: int) {
    && (forall i :: 0 <= i < |q| ==> 0 < q[i].TcpLen())
    && (forall i, j :: 0 <= i && i + 1 == j < |q| ==> q[i].Next() == q[j].pos)
    && (q != [] ==> q[|q| - 1].Next() == hi)
  }

  /** Every segment repeats what was written at its position. */
  ghost predicate SlicesOf(written: seq<byte>, fin: bool, q: seq<Seg>) {
    forall i :: 0 <= i < |q| ==> RT.IsSlice(written, q[i].Wire()) && (q[i].fin ==> fin)
  }

  /** The first segment is the one that holds position p. */
  ghost predicate HeadAt(q: seq<Seg>, p: int, hi: int) {
    if q == [] then p == hi else q[0].pos <= p < q[0].Next()
  }

  ghost predicate Chained(st: State) {
    && Chain(Queue(st), Hi(st)) && SlicesOf(st.written, st.finFlag, Queue(st))
    && HeadAt(Queue(st), st.lastack, Hi(st))
    && st.queuelen == Clens(Queue(st))
  }

  ghost predicate Accounts(st: State, total: nat) {
    && 0 < st.cfg.mss && 0 <= st.lastack && 0 <= st.buf
    && st.lbb == |st.written| + ToInt(st.finFlag && !st.finOnLast)
    && st.buf + (st.lbb - st.lastack) == total
    && st.reported == Min(st.lastack, |st.written|)
    && (st.open ==> !st.finFlag) && (st.finOnLast ==> st.finFlag)
  }

  /** What is on unacked has been sent, and nothing beyond the queues has. */
  ghost predicate Sent(st: State) {
    && st.lastack <= st.nxt <= Hi(st)
    && (st.unacked != [] ==> st.unacked[|st.unacked| - 1].Next() <= st.nxt)
  }

  /** Everything that ever left was a slice of what was written. */
  ghost predicate Wired(st: State) {
    forall i :: 0 <= i < |st.wire| ==> RT.IsSlice(st.written, st.wire[i]) && (st.wire[i].fin ==> st.finFlag)
  }

  ghost predicate Core(st: State, total: nat) {
    Accounts(st, total) && Chained(st) && Sent(st) && Wired(st)
  }

  ghost predicate Inv(st: State, total: nat) {
    Core(st, total) && (st.unsent == [] ==> st.oversize == 0)
  }

  // ------------------------------------------------------------------- chains

  lemma ChainAppend(a: seq<Seg>, b: seq<Seg>, hi: int)
    requires b != [] && Chain(a, b[0].pos) && Chain(b, hi)
    ensures Chain(a + b, hi)
  {
    var q := a + b;
    forall i, j | 0 <= i && i + 1 == j < |q|
      ensures q[i].Next() == q[j].pos
    {
      if j < |a| {
        assert a[i].Next() == a[j].pos;
      } else if j > |a| {
        assert b[i - |a|].Next() == b[j - |a|].pos;
      }
    }
  }

  lemma {:induction false} ChainSorted(q: seq<Seg>, hi: int, i: nat, j: nat)
    requires Chain(q, hi) && i < j < |q|
    ensures q[i].Next() <= q[j].pos
  {
    if i + 1 < j {
      ChainSorted(q, hi, i, j - 1);
      assert q[j - 1].Next() == q[j].pos;
    }
  }

  lemma ChainEnds(q: seq<Seg>, hi: int, i: nat)
    requires Chain(q, hi) && i < |q|
    ensures q[i].Next() <= hi
    ensures i + 1 < |q| ==> q[i].Next() < hi
  {
    if i + 1 < |q| { ChainSorted(q, hi, i, |q| - 1); }
  }

  lemma ChainDrop(q: seq<Seg>, hi: int, n: nat)
    requires Chain(q, hi) && n <= |q|
    ensures Chain(q[n..], hi)
  {
    var r := q[n..];
    forall i, j | 0 <= i && i + 1 == j < |r|
      ensures r[i].Next() == r[j].pos
    {
      assert q[i + n].Next() == q[j + n].pos;
    }
  }

  lemma {:induction false} ClensAppend(a: seq<Seg>, b: seq<Seg>)
    ensures Clens(a + b) == Clens(a) + Clens(b)
  {
    if a == [] {
      assert a + b == b;
    } else {
      assert (a + b)[1..] == a[1..] + b;
      ClensAppend(a[1..], b);
    }
  }

  /** With the last segment replaced. */
  lemma ChainLast(q: seq<Seg>, hi: int, s: Seg)
    requires Chain(q, hi) && q != [] && s.pos == q[|q| - 1].pos && 0 < s.TcpLen()
    ensures Chain(q[..|q| - 1] + [s], s.Next())
  {
    var r := q[..|q| - 1] + [s];
    forall i, j | 0 <= i && i + 1 == j < |r|
      ensures r[i].Next() == r[j].pos
    {
      assert q[i].Next() == q[j].pos;
    }
  }

  lemma ClensLast(q: seq<Seg>, s: Seg)
    requires q != []
    ensures Clens(q[..|q| - 1] + [s]) == Clens(q) - q[|q| - 1].clen + s.clen
  {
    hide Clens;
    var front, last := q[..|q| - 1], q[|q| - 1];
    assert q == front + [last];
    ClensAppend(front, [last]);
    ClensAppend(front, [s]);
    ClensOne(s);
    ClensOne(last);
  }

  lemma ClensOne(s: Seg)
    ensures Clens([s]) == s.clen
  {
    assert Clens([s][1..]) == 0;
  }

  // -------------------------------------------------------------------- write

  lemma {:induction false} ChopChain(pos: int, data: seq<byte>, mss: nat, clen: nat)
    requires 0 < mss
    ensures var q := Chop(pos, data, mss, clen);
            Chain(q, pos + |data|) && (q != [] ==> q[0].pos == pos) && Clens(q) == |q| * clen
    decreases |data|
  {
    hide Chain, Clens;
    if data == [] {
      ChainEmpty(pos, clen);
    } else {
      var n := Min(mss, |data|);
      var s, rest := Seg(pos, data[..n], false, clen), Chop(pos + n, data[n..], mss, clen);
      ChopChain(pos + n, data[n..], mss, clen);
      ChopStep(s, rest, pos + |data|);
    }
  }

  lemma ChainEmpty(hi: int, clen: nat)
    ensures Chain([], hi) && Clens([]) == 0 == 0 * clen
  {
  }

  lemma ChopStep(s: Seg, rest: seq<Seg>, hi: int)
    requires 0 < s.TcpLen() && Chain(rest, hi) && Clens(rest) == |rest| * s.clen
    requires if rest == [] then s.Next() == hi else rest[0].pos == s.Next()
    ensures Chain([s] + rest, hi) && Clens([s] + rest) == |[s] + rest| * s.clen
  {
    hide Clens, Chain;
    ClensOne(s);
    ClensAppend([s], rest);
    assert (1 + |rest|) * s.clen == s.clen + |rest| * s.clen;
    ChainOne(s);
    if rest != [] { ChainAppend([s], rest, hi); } else { assert [s] + rest == [s]; }
  }

  lemma ChainOne(s: Seg)
    requires 0 < s.TcpLen()
    ensures Chain([s], s.Next())
  {
  }

  lemma {:induction false} ChopSlices(written: seq<byte>, pos: int, data: seq<byte>, mss: nat, clen: nat)
    requires 0 < mss && 0 <= pos && pos + |data| <= |written| && data == written[pos..pos + |data|]
    ensures SlicesOf(written, false, Chop(pos, data, mss, clen))
    decreases |data|
  {
    hide SlicesOf;
    if data == [] {
      NoSlices(written);
    } else {
      var n := Min(mss, |data|);
      ChopSlices(written, pos + n, data[n..], mss, clen);
      SlicesCons(written, Seg(pos, data[..n], false, clen), Chop(pos + n, data[n..], mss, clen));
    }
  }

  lemma NoSlices(written: seq<byte>)
    ensures SlicesOf(written, false, [])
  {
  }

  lemma SlicesCons(written: seq<byte>, s: Seg, q: seq<Seg>)
    requires SlicesOf(written, false, q) && !s.fin
    requires 0 <= s.pos && s.End() <= |written| && s.data == written[s.pos..s.End()]
    ensures SlicesOf(written, false, [s] + q)
  {
  }

  lemma SlicesExtend(written: seq<byte>, data: seq<byte>, q: seq<Seg>)
    requires SlicesOf(written, false, q)
    ensures SlicesOf(written + data, false, q)
  {
    forall i | 0 <= i < |q|
      ensures RT.IsSlice(written + data, q[i].Wire())
    {
      assert (written + data)[q[i].pos..q[i].End()] == written[q[i].pos..q[i].End()];
    }
  }

  lemma WiredExtend(written: seq<byte>, data: seq<byte>, w: seq<R.Seg>)
    requires forall i :: 0 <= i < |w| ==> RT.IsSlice(written, w[i]) && !w[i].fin
    ensures forall i :: 0 <= i < |w| ==> RT.IsSlice(written + data, w[i])
  {
    forall i | 0 <= i < |w|
      ensures RT.IsSlice(written + data, w[i])
    {
      assert (written + data)[w[i].pos..w[i].End()] == written[w[i].pos..w[i].End()];
    }
  }

  /** Growing the last segment by what follows it. */
  lemma GrowLast(written: seq<byte>, q: seq<Seg>, data: seq<byte>, fill: nat, pbufs: nat)
    requires q != [] && Chain(q, |written|) && SlicesOf(written, false, q) && fill <= |data|
    ensures var r := AppendToLast(q, data[..fill], pbufs);
            && |r| == |q| && Chain(r, |written| + fill) && SlicesOf(written + data, false, r)
            && r[0].pos == q[0].pos && q[0].Next() <= r[0].Next()
            && Clens(r) == Clens(q) + pbufs
  {
    hide Clens, SlicesOf;
    var s := Extended(q[|q| - 1], data[..fill], pbufs);
    ChainLast(q, |written|, s);
    ClensLast(q, s);
    GrowSlice(written, q, data, fill, s);
  }

  lemma GrowSlice(written: seq<byte>, q: seq<Seg>, data: seq<byte>, fill: nat, s: Seg)
    requires q != [] && SlicesOf(written, false, q) && fill <= |data|
    requires var last := q[|q| - 1];
             last.Next() == |written| && s == last.(data := last.data + data[..fill], clen := s.clen)
    ensures SlicesOf(written + data, false, q[..|q| - 1] + [s])
  {
    SlicesExtend(written, data, q);
    assert s.data == (written + data)[s.pos..s.End()];
  }

  /** A write that succeeds puts fill bytes into the last unsent segment and the
      rest into new ones. */
  lemma CommitIs(st: State, data: seq<byte>, copy: bool, more: bool)
    returns (fill: nat, extra: nat, segs: seq<Seg>)
    requires 0 < st.cfg.mss
    ensures fill <= |data| && segs == PlanWrite(st, data, copy, more).segs
    ensures fill == PlanTail(st, |data|, copy, more).used + PlanTail(st, |data|, copy, more).chained
    ensures segs == Chop(st.lbb + fill, data[fill..], MssLocal(st.cfg.mss, st.sndWndMax), SegClen(copy))
    ensures var st' := Commit(st, data, copy, more);
            && st'.written == st.written + data && st'.finFlag == st.finFlag && st'.lastack == st.lastack
            && st'.unacked == st.unacked && st'.unsent == AppendToLast(st.unsent, data[..fill], extra) + segs
            && st'.queuelen == st.queuelen + extra + |segs| * SegClen(copy)
    ensures st.unsent == [] ==> fill == 0 && extra == 0
  {
    hide Chop, AppendToLast, Spare, MssLocal;
    var p := PlanWrite(st, data, copy, more);
    fill, extra, segs := p.tail.used + p.tail.chained, ToInt(p.tail.chained > 0), p.segs;
  }

  /** The queue after a write that succeeds. */
  lemma CommitQueue(st: State, data: seq<byte>, copy: bool, more: bool)
    requires 0 < st.cfg.mss && Chained(st) && !st.finFlag && st.lbb == |st.written|
    ensures Chained(Commit(st, data, copy, more))
  {
    hide PlanTail, Chain, Clens, Chop, SlicesOf, AppendToLast, MssLocal, HeadAt, Commit, SegClen;
    var fill, extra, segs := CommitIs(st, data, copy, more);
    JoinQueue(st, data, fill, extra, MssLocal(st.cfg.mss, st.sndWndMax), SegClen(copy));
    Assoc(st.unacked, AppendToLast(st.unsent, data[..fill], extra), segs);
  }

  lemma Assoc(a: seq<Seg>, b: seq<Seg>, c: seq<Seg>)
    ensures a + (b + c) == a + b + c
  {
  }

  lemma JoinQueue(st: State, data: seq<byte>, fill: nat, extra: nat, mss: nat, clen: nat)
    requires Chained(st) && !st.finFlag && fill <= |data| && 0 < mss && st.lbb == |st.written|
    requires st.unsent == [] ==> fill == 0 && extra == 0
    ensures var segs, w := Chop(st.lbb + fill, data[fill..], mss, clen), st.written + data;
            var q := st.unacked + AppendToLast(st.unsent, data[..fill], extra) + segs;
            && Chain(q, |w|) && SlicesOf(w, false, q) && HeadAt(q, st.lastack, |w|)
            && Clens(q) == st.queuelen + extra + |segs| * clen
  {
    hide Chain, Clens, Chop, SlicesOf, AppendToLast, Chained;
    var w, mid, segs := st.written + data, st.lbb + fill, Chop(st.lbb + fill, data[fill..], mss, clen);
    CommitTail(st, data, fill, extra);
    ChopChain(mid, data[fill..], mss, clen);
    ChopSlices(w, mid, data[fill..], mss, clen);
    var q1 := st.unacked + AppendToLast(st.unsent, data[..fill], extra);
    CommitJoin(q1, segs, w, mid, st.lastack);
    ClensAppend(q1, segs);
  }

  /** Phases 1 and 2. */
  lemma CommitTail(st: State, data: seq<byte>, fill: nat, extra: nat)
    requires Chained(st) && !st.finFlag && fill <= |data|
    requires st.unsent == [] ==> fill == 0 && extra == 0
    ensures var q1 := st.unacked + AppendToLast(st.unsent, data[..fill], extra);
            && Chain(q1, |st.written| + fill) && SlicesOf(st.written + data, false, q1)
            && HeadAt(q1, st.lastack, |st.written| + fill) && Clens(q1) == st.queuelen + extra
  {
    var q := Queue(st);
    hide Chain, Clens, SlicesOf;
    if st.unsent != [] {
      GrowLast(st.written, q, data, fill, extra);
      assert AppendToLast(q, data[..fill], extra) == st.unacked + AppendToLast(st.unsent, data[..fill], extra);
    } else {
      SlicesExtend(st.written, data, q);
      assert q == st.unacked + [];
      assert data[..fill] == [];
    }
  }

  /** Phase 3. */
  lemma CommitJoin(a: seq<Seg>, b: seq<Seg>, w: seq<byte>, mid: int, p: int)
    requires Chain(a, mid) && Chain(b, |w|) && (b != [] ==> b[0].pos == mid) && (b == [] ==> mid == |w|)
    requires SlicesOf(w, false, a) && SlicesOf(w, false, b)
    requires HeadAt(a, p, mid)
    ensures Chain(a + b, |w|) && SlicesOf(w, false, a + b) && HeadAt(a + b, p, |w|)
  {
    if b == [] {
      assert a + b == a;
    } else {
      ChainAppend(a, b, |w|);
      assert a == [] ==> a + b == b;
    }
  }

  lemma AppendToLastAt(q: seq<Seg>, data: seq<byte>, pbufs: nat)
    ensures var r := AppendToLast(q, data, pbufs);
            && |r| == |q| && (forall i :: 0 <= i < |q| - 1 ==> r[i] == q[i])
            && (q != [] ==> r[|q| - 1] == Extended(q[|q| - 1], data, pbufs))
  {
  }

  lemma CommitAccounts(st: State, total: nat, data: seq<byte>, copy: bool, more: bool)
    requires Inv(st, total) && st.open && |data| <= st.buf
    ensures Accounts(Commit(st, data, copy, more), total) && Sent(Commit(st, data, copy, more))
    ensures Wired(Commit(st, data, copy, more))
  {
    hide PlanWrite, NewOversize, AppendToLast, Chained;
    WiredExtend(st.written, data, st.wire);
  }

  /** If the unsent queue is empty after a write, nothing was written. */
  lemma CommitEmpty(st: State, data: seq<byte>, copy: bool, more: bool)
    requires 0 < st.cfg.mss && Commit(st, data, copy, more).unsent == []
    ensures Commit(st, data, copy, more).oversize == 0
  {
    var fill, extra, segs := CommitIs(st, data, copy, more);
    AppendToLastAt(st.unsent, data[..fill], extra);
  }

  lemma CommitGood(st: State, total: nat, data: seq<byte>, copy: bool, more: bool)
    requires Inv(st, total) && st.open && |data| <= st.buf
    ensures Inv(Commit(st, data, copy, more), total)
  {
    CommitAccounts(st, total, data, copy, more);
    CommitQueue(st, data, copy, more);
    if Commit(st, data, copy, more).unsent == [] { CommitEmpty(st, data, copy, more); }
    hide Commit, Accounts, Chained, Sent, Wired;
  }

  lemma WriteGood(st: State, total: nat, data: seq<byte>, copy: bool, more: bool, mem: nat)
    requires Inv(st, total)
    ensures Inv(Write(st, data, copy, more, mem), total)
  {
    Basics(st, total);
    hide Commit, PlanWrite, Inv;
    FlagsGood(st, total, true, st.inFr);
    if WriteErr(st, data, Copies(st.cfg, copy), more, mem) == ERR_OK {
      CommitGood(st, total, data, Copies(st.cfg, copy), more);
    }
  }

  /** The flags are free. */
  lemma FlagsGood(st: State, total: nat, nagleMemErr: bool, inFr: bool)
    requires Inv(st, total)
    ensures Inv(st.(nagleMemErr := nagleMemErr, inFr := inFr), total)
  {
    hide Chain, Clens, SlicesOf, HeadAt;
    var st' := st.(nagleMemErr := nagleMemErr, inFr := inFr);
    assert Queue(st') == Queue(st) && Hi(st') == Hi(st);
  }

  // -------------------------------------------------------------------- close

  lemma FinOnLastGood(st: State, total: nat)
    requires Inv(st, total) && st.open && st.unsent != []
    ensures var n := |st.unsent| - 1;
            Inv(st.(unsent := st.unsent[..n] + [st.unsent[n].(fin := true)], finFlag := true, finOnLast := true,
                    open := false), total)
  {
    hide Chain, Clens, SlicesOf, HeadAt;
    FinOnLast(st.written, Queue(st), st.lastack);
    ReplaceLast(st.unacked, st.unsent, st.unsent[|st.unsent| - 1].(fin := true));
    hide Queue;
  }

  lemma ReplaceLast(a: seq<Seg>, b: seq<Seg>, s: Seg)
    requires b != []
    ensures var q := a + b;
            q[|q| - 1] == b[|b| - 1] && a + (b[..|b| - 1] + [s]) == q[..|q| - 1] + [s]
  {
  }

  /** The last segment with a FIN. */
  lemma FinOnLast(written: seq<byte>, q: seq<Seg>, p: int)
    requires Chain(q, |written|) && SlicesOf(written, false, q) && HeadAt(q, p, |written|) && q != []
    ensures var r := q[..|q| - 1] + [q[|q| - 1].(fin := true)];
            && Chain(r, |written| + 1) && SlicesOf(written, true, r) && HeadAt(r, p, |written| + 1)
            && Clens(r) == Clens(q)
  {
    LastOf(q, |written|);
    ChainLast(q, |written|, q[|q| - 1].(fin := true));
    ClensLast(q, q[|q| - 1].(fin := true));
    hide Chain, Clens;
  }

  lemma LastOf(q: seq<Seg>, hi: int)
    requires Chain(q, hi) && q != []
    ensures q[|q| - 1].Next() == hi && 0 < q[|q| - 1].TcpLen()
  {
  }

  lemma EnqueueFinGood(st: State, total: nat)
    requires Inv(st, total) && st.open && 0 < st.buf
    ensures Inv(EnqueueFin(st, 2).(open := false), total)
  {
    var st', s := EnqueueFin(st, 2).(open := false), Seg(st.lbb, [], true, 1);
    FinSegment(st.written, Queue(st), s, st.lastack);
    assert Queue(st') == Queue(st) + [s] by { Assoc(st.unacked, st.unsent, [s]); }
    hide Chain, Clens, SlicesOf, HeadAt;
    assert Chained(st');
  }

  lemma FinSegment(written: seq<byte>, q: seq<Seg>, s: Seg, p: int)
    requires Chain(q, |written|) && SlicesOf(written, false, q) && HeadAt(q, p, |written|)
    requires s.pos == |written| && s.data == [] && s.fin && s.clen == 1
    ensures Chain(q + [s], |written| + 1) && SlicesOf(written, true, q + [s]) && HeadAt(q + [s], p, |written| + 1)
    ensures Clens(q + [s]) == Clens(q) + 1
  {
    ChainOne(s);
    ChainAppend(q, [s], |written| + 1);
    ClensOne(s);
    ClensAppend(q, [s]);
    assert s.data == written[s.pos..s.pos];
    hide Chain, Clens;
  }

  lemma CloseGood(st: State, total: nat, mem: nat)
    requires Inv(st, total)
    ensures Inv(Close(st, mem), total)
  {
    if st.open {
      Basics(st, total);
      CloseCases(st, mem);
      hide Inv, EnqueueFin, Close;
      FlagsGood(st, total, true, st.inFr);
      if st.unsent != [] {
        FinOnLastGood(st, total);
      } else if st.buf > 0 && mem >= 2 {
        EnqueueFinGood(st, total);
      }
    }
  }

  /** tcp_close puts the FIN on the last segment, or in one of its own, or fails. */
  lemma CloseCases(st: State, mem: nat)
    requires st.open && !st.finFlag && 0 <= st.buf
    ensures st.unsent != [] && !st.unsent[|st.unsent| - 1].fin ==>
              var n := |st.unsent| - 1;
              Close(st, mem) == st.(unsent := st.unsent[..n] + [st.unsent[n].(fin := true)],
                                    finFlag := true, finOnLast := true, open := false)
    ensures st.unsent == [] && st.buf > 0 && mem >= 2 ==> Close(st, mem) == EnqueueFin(st, 2).(open := false)
    ensures st.unsent == [] && !(st.buf > 0 && mem >= 2) ==>
              Close(st, mem) == st.(nagleMemErr := st.nagleMemErr || st.buf > 0, open := true)
  {
  }

  lemma Basics(st: State, total: nat)
    requires Inv(st, total)
    ensures 0 < st.cfg.mss && 0 <= st.buf
    ensures st.open ==> !st.finFlag
    ensures st.open && st.unsent != [] ==> !st.unsent[|st.unsent| - 1].fin
  {
    var q := Queue(st);
    assert st.unsent != [] ==> q[|q| - 1] == st.unsent[|st.unsent| - 1];
    hide Chain, Clens;
  }

  // ------------------------------------------------------------------- output

  /** The head of unsent belongs behind unacked. */
  lemma HeadGoesLast(st: State, total: nat)
    requires Core(st, total) && st.unsent != []
    ensures 0 < st.unsent[0].TcpLen()
    ensures InsertUnacked(st.unacked, st.unsent[0]) == st.unacked + [st.unsent[0]]
  {
    var q, n := Queue(st), |st.unacked|;
    assert q[n] == st.unsent[0];
    if n > 0 {
      assert q[n - 1].Next() == q[n].pos && q[n - 1] == st.unacked[n - 1];
    }
    hide Clens, SlicesOf;
  }

  lemma SendHeadGood(st: State, total: nat)
    requires Core(st, total) && st.unsent != []
    ensures Core(SendHead(st), total) && Queue(SendHead(st)) == Queue(st)
  {
    SendHeadQueue(st, total);
    HeadFacts(st, total);
    hide Chain, Clens, SlicesOf, HeadAt, InsertUnacked, Queue;
  }

  lemma SendHeadQueue(st: State, total: nat)
    requires Core(st, total) && st.unsent != []
    ensures SendHead(st).unacked == st.unacked + [st.unsent[0]] && Queue(SendHead(st)) == Queue(st)
  {
    hide Core, InsertUnacked;
    HeadGoesLast(st, total);
    assert st.unsent == [st.unsent[0]] + st.unsent[1..];
    Assoc(st.unacked, [st.unsent[0]], st.unsent[1..]);
  }

  lemma HeadFacts(st: State, total: nat)
    requires Core(st, total) && st.unsent != []
    ensures var s := st.unsent[0];
            s.Next() <= Hi(st) && RT.IsSlice(st.written, s.Wire()) && (s.fin ==> st.finFlag)
  {
    hide Clens, HeadAt, Accounts, Wired;
    assert Queue(st)[|st.unacked|] == st.unsent[0];
    ChainEnds(Queue(st), Hi(st), |st.unacked|);
  }

  lemma {:induction false} LoopGood(st: State, total: nat, wnd: nat, sends: nat)
    requires Core(st, total)
    ensures Inv(SendLoop(st, wnd, sends), total) && Queue(SendLoop(st, wnd, sends)) == Queue(st)
    decreases sends
  {
    if st.unsent == [] || !InWindow(st, wnd) || !MaySend(st) {
      SendDone(st, total, false, if st.unsent == [] then 0 else st.oversize);
    } else if sends == 0 {
      SendDone(st, total, true, st.oversize);
    } else {
      hide Core, Inv, InWindow, MaySend, SendHead;
      SendHeadGood(st, total);
      LoopGood(SendHead(st), total, wnd, sends - 1);
    }
  }

  lemma SendDone(st: State, total: nat, nagleMemErr: bool, oversize: nat)
    requires Core(st, total) && oversize == if st.unsent == [] then 0 else st.oversize
    ensures var st' := st.(nagleMemErr := nagleMemErr, oversize := oversize);
            Inv(st', total) && Queue(st') == Queue(st)
  {
    hide Chain, Clens, SlicesOf, HeadAt;
    var st' := st.(nagleMemErr := nagleMemErr, oversize := oversize);
    assert Queue(st') == Queue(st) && Hi(st') == Hi(st);
  }

  /** Sending moves segments from one queue to the other and changes neither
      their order nor their contents. */
  lemma OutputGood(st: State, total: nat, wnd: nat, ackNow: bool, sends: nat)
    requires Inv(st, total)
    ensures Inv(Output(st, wnd, ackNow, sends), total) && Queue(Output(st, wnd, ackNow, sends)) == Queue(st)
  {
    assert Core(st, total);
    hide Core, SendLoop, InWindow;
    LoopGood(st, total, wnd, sends);
  }

  lemma RequeueGood(st: State, total: nat)
    requires Inv(st, total)
    ensures Inv(Requeue(st), total) && Queue(Requeue(st)) == Queue(st)
  {
    RequeueQueue(st);
    SameQueue(st, total);
  }

  lemma SameQueue(st: State, total: nat)
    requires Inv(st, total) && Queue(Requeue(st)) == Queue(st)
    ensures Inv(Requeue(st), total)
  {
    hide Chain, Clens, SlicesOf, HeadAt, Queue;
  }

  lemma RequeueQueue(st: State)
    ensures Queue(Requeue(st)) == Queue(st)
  {
    assert [] + Queue(st) == Queue(st);
  }

  lemma RexmitRtoGood(st: State, total: nat, wnd: nat, ackNow: bool, sends: nat)
    requires Inv(st, total)
    ensures Inv(RexmitRto(st, wnd, ackNow, sends), total)
    ensures Queue(RexmitRto(st, wnd, ackNow, sends)) == Queue(st)
  {
    hide Inv, Output, Queue;
    RequeueGood(st, total);
    OutputGood(Requeue(st), total, wnd, ackNow, sends);
  }

  // ------------------------------------------------------------ acknowledgment

  lemma {:induction false} CoveredAt(q: seq<Seg>, p: int)
    ensures forall i :: 0 <= i < Covered(q, p) ==> q[i].Next() <= p
    ensures Covered(q, p) < |q| ==> p < q[Covered(q, p)].Next()
  {
    if q != [] && p >= q[0].Next() {
      CoveredAt(q[1..], p);
    }
  }

  /** The segments an acknowledgment removes are the head of the whole queue. */
  lemma CoveredSplit(a: seq<Seg>, b: seq<Seg>, hi: int, p: int)
    requires Chain(a + b, hi)
    ensures var n, m := Covered(a, p), Covered(b, p);
            && (n < |a| ==> m == 0)
            && a[..n] + b[..m] == (a + b)[..n + m] && a[n..] + b[m..] == (a + b)[n + m..]
  {
    hide Chain, Covered;
    CoveredNone(a, b, hi, p);
    TakeDrop(a, b, Covered(a, p), Covered(b, p));
  }

  lemma CoveredNone(a: seq<Seg>, b: seq<Seg>, hi: int, p: int)
    requires Chain(a + b, hi)
    ensures Covered(a, p) < |a| ==> Covered(b, p) == 0
  {
    var n, q := Covered(a, p), a + b;
    CoveredAt(a, p);
    if n < |a| && b != [] {
      ChainSorted(q, hi, n, |a|);
      assert q[n] == a[n] && q[|a|] == b[0];
    }
  }

  lemma TakeDrop(a: seq<Seg>, b: seq<Seg>, n: nat, m: nat)
    requires n <= |a| && m <= |b| && (n < |a| ==> m == 0)
    ensures a[..n] + b[..m] == (a + b)[..n + m] && a[n..] + b[m..] == (a + b)[n + m..]
  {
  }

  lemma ClensDrop(q: seq<Seg>, n: nat)
    requires n <= |q|
    ensures Clens(q[n..]) == Clens(q) - Clens(q[..n])
  {
    ClensAppend(q[..n], q[n..]);
    assert q == q[..n] + q[n..];
  }

  /** What is left after p is acknowledged. */
  lemma QueueAcked(q: seq<Seg>, written: seq<byte>, fin: bool, p0: int, p: int, k: nat)
    requires var hi := |written| + ToInt(fin);
             Chain(q, hi) && SlicesOf(written, fin, q) && HeadAt(q, p0, hi) && p0 <= p <= hi
    requires k <= |q| && (forall i :: 0 <= i < k ==> q[i].Next() <= p) && (k < |q| ==> p < q[k].Next())
    ensures var hi := |written| + ToInt(fin);
            Chain(q[k..], hi) && SlicesOf(written, fin, q[k..]) && HeadAt(q[k..], p, hi)
  {
    ChainDrop(q, |written| + ToInt(fin), k);
    if 0 < k < |q| { assert q[k - 1].Next() == q[k].pos; }
  }

  /** A FIN is on the last segment only, and goes when its position is
      acknowledged. */
  lemma FinIsLast(q: seq<Seg>, written: seq<byte>, fin: bool, i: nat)
    requires Chain(q, |written| + ToInt(fin)) && SlicesOf(written, fin, q) && i < |q|
    ensures q[i].fin <==> fin && i == |q| - 1
  {
    ChainEnds(q, |written| + ToInt(fin), i);
    assert RT.IsSlice(written, q[i].Wire());
  }

  lemma {:induction false} ReportedIs(acked: int, gone: seq<Seg>, fin: bool)
    requires 0 < acked
    requires forall i :: 0 <= i < |gone| ==> (gone[i].fin <==> fin && i == |gone| - 1)
    ensures Reported(acked, gone) == acked - ToInt(fin && gone != [])
    decreases |gone|
  {
    if |gone| > 1 {
      ReportedIs(acked, gone[1..], fin);
    } else if gone != [] {
      assert Reported(acked, gone) == Reported(acked - ToInt(fin), gone[1..]);
    }
  }

  /** The sent callback hears of every acknowledged byte once, and not of the FIN. */
  lemma ReportAcked(st: State, total: nat, p: int, k: nat)
    requires Inv(st, total) && st.lastack < p <= st.nxt
    requires var q := Queue(st);
             k <= |q| && (forall i :: 0 <= i < k ==> q[i].Next() <= p) && (k < |q| ==> p < q[k].Next())
    ensures Min(st.lastack, |st.written|) + Reported(p - st.lastack, Queue(st)[..k]) == Min(p, |st.written|)
  {
    hide Clens, Reported, Wired;
    var q := Queue(st);
    var fin := st.finFlag && k == |q|;
    forall i | 0 <= i < k
      ensures q[i].fin <==> fin && i == k - 1
    {
      FinIsLast(q, st.written, st.finFlag, i);
    }
    ReportedIs(p - st.lastack, q[..k], fin);
  }

  lemma AckGood(st: State, total: nat, p: int)
    requires Inv(st, total)
    ensures Inv(Ack(st, p), total)
  {
    if st.lastack < p <= st.nxt {
      NewAckGood(st, total, p);
    } else if p <= st.lastack {
      OldAck(st, total, p);
    }
  }

  /** An acknowledgment that is not new removes nothing. */
  lemma OldAck(st: State, total: nat, p: int)
    requires Inv(st, total) && p <= st.lastack
    ensures Ack(st, p) == st
  {
    hide Wired, SlicesOf;
    if st.unsent != [] {
      var q, n := Queue(st), |st.unacked|;
      assert q[n] == st.unsent[0];
      if n > 0 { ChainSorted(q, Hi(st), 0, n); }
    }
    assert st.unsent[..0] == [];
  }

  lemma NewAckGood(st: State, total: nat, p: int)
    requires Inv(st, total) && st.lastack < p <= st.nxt
    ensures Inv(Ack(st, p), total)
  {
    NewAckQueue(st, total, p);
    NewAckRest(st, total, p);
    hide Ack, Accounts, Chained, Sent, Wired;
  }

  /** A new acknowledgment takes the first k segments off the whole queue. */
  ghost predicate Acked(st: State, p: int, n: nat, m: nat, st': State) {
    && n <= |st.unacked| && m <= |st.unsent| && (n < |st.unacked| ==> m == 0)
    && Queue(st') == Queue(st)[n + m..]
    && st' == st.(lastack := p, buf := st.buf + (p - st.lastack), inFr := false,
                  unacked := st.unacked[n..], unsent := st.unsent[m..],
                  oversize := if m > 0 && m == |st.unsent| then 0 else st.oversize,
                  queuelen := st.queuelen - Clens(Queue(st)[..n + m]),
                  reported := st.reported + Reported(p - st.lastack, Queue(st)[..n + m]))
  }

  lemma NewAckParts(st: State, p: int) returns (n: nat, m: nat)
    requires Chain(Queue(st), Hi(st)) && st.lastack < p <= st.nxt
    ensures Acked(st, p, n, m, Ack(st, p))
    ensures var k, q := n + m, Queue(st);
            && k <= |q| && (forall i :: 0 <= i < k ==> q[i].Next() <= p) && (k < |q| ==> p < q[k].Next())
  {
    hide Chain, Clens, Reported, Covered, Queue, Ack, Acked;
    n, m := QueueSplit(st, p);
    AckIs(st, p, n, m);
  }

  lemma QueueIs(st: State)
    ensures Queue(st) == st.unacked + st.unsent
  {
  }

  lemma QueueSplit(st: State, p: int) returns (n: nat, m: nat)
    requires Chain(Queue(st), Hi(st))
    ensures n == Covered(st.unacked, p) <= |st.unacked| && m == Covered(st.unsent, p) <= |st.unsent|
    ensures n < |st.unacked| ==> m == 0
    ensures var k, q := n + m, Queue(st);
            && k <= |q| && (forall i :: 0 <= i < k ==> q[i].Next() <= p) && (k < |q| ==> p < q[k].Next())
            && st.unacked[..n] + st.unsent[..m] == q[..k] && st.unacked[n..] + st.unsent[m..] == q[k..]
  {
    hide Chain, Covered;
    n, m := Covered(st.unacked, p), Covered(st.unsent, p);
    CoveredSplit(st.unacked, st.unsent, Hi(st), p);
    CoveredQueue(st.unacked, st.unsent, Hi(st), p);
  }

  lemma AckIs(st: State, p: int, n: nat, m: nat)
    requires st.lastack < p <= st.nxt
    requires n == Covered(st.unacked, p) <= |st.unacked| && m == Covered(st.unsent, p) <= |st.unsent|
    requires n < |st.unacked| ==> m == 0
    requires var k, q := n + m, Queue(st);
             k <= |q| && st.unacked[..n] + st.unsent[..m] == q[..k] && st.unacked[n..] + st.unsent[m..] == q[k..]
    ensures Acked(st, p, n, m, Ack(st, p))
  {
    hide Covered, Clens, Reported, Queue;
    QueueIs(Ack(st, p));
  }

  lemma NewAckQueue(st: State, total: nat, p: int)
    requires Inv(st, total) && st.lastack < p <= st.nxt
    ensures Chained(Ack(st, p))
  {
    hide Ack, Clens, Reported, Chain, SlicesOf, HeadAt, Wired, Queue;
    var n, m := NewAckParts(st, p);
    var q := Queue(st);
    QueueAcked(q, st.written, st.finFlag, st.lastack, p, n + m);
    ClensDrop(q, n + m);
  }

  lemma NewAckRest(st: State, total: nat, p: int)
    requires Inv(st, total) && st.lastack < p <= st.nxt
    ensures var st' := Ack(st, p);
            && Accounts(st', total) && Sent(st') && Wired(st')
            && (st'.unsent == [] ==> st'.oversize == 0)
  {
    hide Ack, Clens, Reported, Chain, SlicesOf, HeadAt;
    var n, m := NewAckParts(st, p);
    ReportAcked(st, total, p, n + m);
    AckSent(st, n, p);
    hide Queue;
  }

  lemma CoveredQueue(a: seq<Seg>, b: seq<Seg>, hi: int, p: int)
    requires Chain(a + b, hi)
    ensures var k, q := Covered(a, p) + Covered(b, p), a + b;
            && k <= |q| && (forall i :: 0 <= i < k ==> q[i].Next() <= p) && (k < |q| ==> p < q[k].Next())
  {
    CoveredAt(a, p);
    CoveredAt(b, p);
    CoveredSplit(a, b, hi, p);
    hide Chain;
  }

  lemma AckSent(st: State, n: nat, p: int)
    requires Sent(st) && n <= |st.unacked|
    ensures n < |st.unacked| ==> st.unacked[n..][|st.unacked| - n - 1].Next() <= st.nxt
  {
  }

  // ---------------------------------------------------------- fast retransmit

  /** tcp_rexmit moves the first unacked segment in front of the unsent ones. */
  lemma RexmitIs(st: State, total: nat)
    requires Inv(st, total) && st.unacked != []
    ensures Rexmit(st) == st.(unacked := st.unacked[1..], unsent := [st.unacked[0]] + st.unsent)
    ensures |st.unacked| > 1 ==> st.unacked[0].pos < st.unacked[1].pos
    ensures |st.unacked| > 1 ==> st.unacked[0].pos < st.unacked[|st.unacked| - 1].pos
  {
    hide Core, Queue;
    QueueIs(st);
    ChainOf(st, total);
    UnackedSorted(Queue(st), Hi(st), st.unacked, st.unsent);
    var s := st.unacked[0];
    assert InsertSorted(st.unsent, s) == [s] + st.unsent && PlaceOf(st.unsent, s) == 0;
  }

  lemma ChainOf(st: State, total: nat)
    requires Inv(st, total)
    ensures Chain(Queue(st), Hi(st))
  {
  }

  lemma UnackedSorted(q: seq<Seg>, hi: int, a: seq<Seg>, b: seq<Seg>)
    requires Chain(q, hi) && q == a + b && a != []
    ensures forall i :: 0 < i < |a| ==> a[0].pos < a[i].pos
    ensures forall i :: 0 <= i < |b| ==> a[0].pos < b[i].pos
  {
    forall i | 0 < i < |q|
      ensures q[0].pos < q[i].pos
    {
      ChainSorted(q, hi, 0, i);
    }
    assert forall i :: 0 <= i < |a| ==> a[i] == q[i];
    assert forall i :: 0 <= i < |b| ==> b[i] == q[|a| + i];
  }

  /** The first unacked segment will leave again: it is in the window and the IP
      layer takes it. */
  predicate Resent(st: State, wnd: nat, sends: nat)
    requires st.unacked != []
  {
    st.unacked[0].End() - st.lastack <= wnd && sends > 0
  }

  lemma BackInPlace(st: State, total: nat)
    requires Inv(st, total) && st.unacked != []
    ensures InsertUnacked(st.unacked[1..], st.unacked[0]) == st.unacked
    ensures st.unacked[0].Next() <= st.nxt && 0 < st.unacked[0].TcpLen()
  {
    RexmitIs(st, total);
    UnackedNext(st);
    hide Core, Inv;
    if |st.unacked| > 1 {
      assert st.unacked[1..][0] == st.unacked[1];
    }
    assert [st.unacked[0]] + st.unacked[1..] == st.unacked;
  }

  lemma UnackedNext(st: State)
    requires Chained(st) && Sent(st) && st.unacked != []
    ensures st.unacked[0].Next() <= st.nxt && 0 < st.unacked[0].TcpLen()
  {
    var q, n := Queue(st), |st.unacked|;
    assert q[0] == st.unacked[0] && q[n - 1] == st.unacked[n - 1];
    if n > 1 { ChainSorted(q, Hi(st), 0, n - 1); }
    hide SlicesOf, Clens;
  }

  /** Once resent, it is back in its place. */
  lemma ResendRestores(st: State, total: nat)
    requires Inv(st, total) && st.unacked != [] && !st.inFr
    ensures RexmitFast(st).unsent != []
    ensures SendHead(RexmitFast(st)) == st.(inFr := true, wire := st.wire + [st.unacked[0].Wire()])
  {
    hide Inv, InsertUnacked, Rexmit;
    RexmitIs(st, total);
    BackInPlace(st, total);
    assert ([st.unacked[0]] + st.unsent)[1..] == st.unsent;
  }

  lemma ResentGood(st: State, total: nat)
    requires Inv(st, total) && st.unacked != []
    ensures Inv(st.(inFr := true, wire := st.wire + [st.unacked[0].Wire()]), total)
  {
    var st' := st.(inFr := true, wire := st.wire + [st.unacked[0].Wire()]);
    assert Queue(st)[0] == st.unacked[0];
    hide Chain, Clens, HeadAt;
    assert Queue(st') == Queue(st) && Hi(st') == Hi(st);
    assert Wired(st');
  }

  /** Fast retransmit keeps the invariant if and only if the segment really
      leaves again, or was the only unacknowledged one. */
  lemma FastRetransmitIff(st: State, total: nat, wnd: nat, ackNow: bool, sends: nat)
    requires Inv(st, total) && st.unacked != [] && !st.inFr
    ensures Inv(FastRetransmit(st, wnd, ackNow, sends), total) <==> |st.unacked| == 1 || Resent(st, wnd, sends)
  {
    hide Inv, Output, RexmitFast;
    if |st.unacked| == 1 {
      OnlyOne(st, total);
      OutputGood(RexmitFast(st), total, wnd, ackNow, sends);
    } else if Resent(st, wnd, sends) {
      ResentOutput(st, total, wnd, ackNow, sends);
    } else {
      NotResent(st, total, wnd, ackNow, sends);
    }
  }

  lemma OnlyOne(st: State, total: nat)
    requires Inv(st, total) && |st.unacked| == 1 && !st.inFr
    ensures Inv(RexmitFast(st), total)
  {
    hide Inv, Rexmit;
    RexmitIs(st, total);
    RequeueGood(st, total);
    assert st.unacked == [st.unacked[0]] && st.unacked[1..] == [];
    FlagsGood(Requeue(st), total, st.nagleMemErr, true);
  }

  lemma ResentOutput(st: State, total: nat, wnd: nat, ackNow: bool, sends: nat)
    requires Inv(st, total) && st.unacked != [] && !st.inFr && Resent(st, wnd, sends)
    ensures Inv(FastRetransmit(st, wnd, ackNow, sends), total)
    ensures SendHead(RexmitFast(st)) == st.(inFr := true, wire := st.wire + [st.unacked[0].Wire()])
    ensures FastRetransmit(st, wnd, ackNow, sends) == SendLoop(SendHead(RexmitFast(st)), wnd, sends - 1)
  {
    hide Inv, SendHead, Rexmit;
    RexmitIs(st, total);
    ResendRestores(st, total);
    ResentGood(st, total);
    CoreOf(st.(inFr := true, wire := st.wire + [st.unacked[0].Wire()]), total);
    LoopGood(SendHead(RexmitFast(st)), total, wnd, sends - 1);
  }

  lemma CoreOf(st: State, total: nat)
    requires Inv(st, total)
    ensures Core(st, total)
  {
  }

  lemma NotResent(st: State, total: nat, wnd: nat, ackNow: bool, sends: nat)
    requires Inv(st, total) && |st.unacked| > 1 && !st.inFr && !Resent(st, wnd, sends)
    ensures !Inv(FastRetransmit(st, wnd, ackNow, sends), total)
  {
    hide Inv, Rexmit;
    RexmitIs(st, total);
    var st', n := FastRetransmit(st, wnd, ackNow, sends), |st.unacked| - 1;
    assert st'.unacked == st.unacked[1..] && st'.unsent == [st.unacked[0]] + st.unsent;
    OutOfOrder(st', total, n);
  }

  lemma OutOfOrder(st: State, total: nat, n: nat)
    requires n == |st.unacked| > 0 && st.unsent != [] && st.unsent[0].pos < st.unacked[n - 1].pos
    ensures !Inv(st, total)
  {
    var q := Queue(st);
    assert q[n - 1] == st.unacked[n - 1] && q[n] == st.unsent[0];
  }

  lemma FastRetransmitGood(st: State, total: nat, wnd: nat, ackNow: bool, sends: nat)
    requires Inv(st, total)
    requires st.unacked == [] || st.inFr || |st.unacked| == 1 || Resent(st, wnd, sends)
    ensures Inv(FastRetransmit(st, wnd, ackNow, sends), total)
  {
    hide Inv, Output, Rexmit;
    if st.unacked == [] || st.inFr {
      OutputGood(st, total, wnd, ackNow, sends);
    } else {
      FastRetransmitIff(st, total, wnd, ackNow, sends);
    }
  }

  // --------------------------------------------------- what a step asks and bounds

  /** What each step asks for beyond the invariant. */
  predicate Legal(st: State, e: Event) {
    match e
    case ThirdDupAck(wnd, _, sends) => st.unacked == [] || st.inFr || |st.unacked| == 1 || Resent(st, wnd, sends)
    case _ => true
  }

  /** The queue limit; a FIN may exceed it by one. */
  ghost predicate Bounded(st: State) {
    st.queuelen <= st.cfg.queueMax + ToInt(!st.open)
  }

  lemma StepBounded(st: State, e: Event)
    requires 0 < st.cfg.mss && Bounded(st)
    ensures Bounded(Step(st, e))
  {
    hide Write, Close, Ack, SendLoop, Rexmit;
    match e
    case DoWrite(data, copy, more, mem) => WriteBounded(st, data, copy, more, mem);
    case DoClose(mem) => CloseBounded(st, mem);
    case DoOutput(wnd, ackNow, sends) => LoopKeepsCount(st, wnd, sends);
    case DoAck(p) => AckBounded(st, p);
    case Timeout(wnd, ackNow, sends) => LoopKeepsCount(Requeue(st), wnd, sends);
    case ThirdDupAck(wnd, ackNow, sends) =>
      LoopKeepsCount(RexmitFast(st), wnd, sends);
      RexmitKeepsCount(st);
    case OfferWindow(wnd) =>
  }

  lemma RexmitKeepsCount(st: State)
    ensures var st' := RexmitFast(st); st'.cfg == st.cfg && st'.queuelen == st.queuelen && st'.open == st.open
  {
    hide InsertSorted;
  }

  lemma CloseBounded(st: State, mem: nat)
    requires Bounded(st)
    ensures Bounded(Close(st, mem))
  {
  }

  lemma AckBounded(st: State, p: int)
    requires Bounded(st)
    ensures Bounded(Ack(st, p))
  {
    hide Covered, Clens, Reported;
  }

  lemma WriteBounded(st: State, data: seq<byte>, copy: bool, more: bool, mem: nat)
    requires 0 < st.cfg.mss && Bounded(st)
    ensures Bounded(Write(st, data, copy, more, mem))
  {
    hide PlanWrite, Commit;
    CommitCount(st, data, Copies(st.cfg, copy), more);
  }

  lemma CommitCount(st: State, data: seq<byte>, copy: bool, more: bool)
    requires 0 < st.cfg.mss
    ensures var p, st' := PlanWrite(st, data, copy, more), Commit(st, data, copy, more);
            && st'.queuelen == p.queuelen && st'.open == st.open && st'.cfg == st.cfg
            && (p.segs == [] ==> p.queuelen <= st.queuelen + ToInt(data != []))
  {
    hide Chop, NewOversize, AppendToLast, Spare, MssLocal;
  }

  lemma {:induction false} LoopKeepsCount(st: State, wnd: nat, sends: nat)
    ensures var st' := SendLoop(st, wnd, sends);
            st'.cfg == st.cfg && st'.queuelen == st.queuelen && st'.open == st.open
    decreases sends
  {
    hide InsertUnacked, InWindow, MaySend;
    if sends > 0 && st.unsent != [] {
      LoopKeepsCount(SendHead(st), wnd, sends - 1);
    }
  }

  /** A larger window changes no queue. */
  lemma OfferGood(st: State, total: nat, wnd: nat)
    requires Inv(st, total)
    ensures Inv(st.(sndWndMax := Max(st.sndWndMax, wnd)), total)
  {
    hide Chain, Clens, SlicesOf, HeadAt;
    var st' := st.(sndWndMax := Max(st.sndWndMax, wnd));
    assert Queue(st') == Queue(st) && Hi(st') == Hi(st);
  }

  lemma InitialGood(cfg: Config, total: nat, sndWnd: nat)
    requires 0 < cfg.mss
    ensures Inv(Initial(cfg, total, sndWnd), total)
  {
  }
}
