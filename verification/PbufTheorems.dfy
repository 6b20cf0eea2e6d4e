// What reference counts and chains guarantee over whole runs: every count is exact,
// nothing leaks, and chains hold the bytes they should.
module PbufTheorems {
  import opened Words
  import opened PbufChains

  ghost predicate LegalRun(st: State, es: seq<Event>)
    requires Good(st)
    decreases |es|
  {
    es == [] || (Legal(st, es[0]) && (StepGood(st, es[0]); LegalRun(Step(st, es[0]), es[1..])))
  }

  ghost function Run(st: State, es: seq<Event>): State
    requires Good(st) && LegalRun(st, es)
    decreases |es|
  {
    if es == [] then st else (StepGood(st, es[0]); Run(Step(st, es[0]), es[1..]))
  }

  /** A chain that does not reach l is not changed by linking behind l. */
  lemma {:induction false} SameBytes(m: Pbufs, rank: map<Ref, nat>, rank': map<Ref, nat>, x: Ref, l: Ref, t: Ref)
    requires Acyclic(m, rank) && l in m && x in m && !Reaches(m, rank, x, l)
    requires Acyclic(SetNext(m, l, To(t)), rank')
    ensures Bytes(SetNext(m, l, To(t)), rank', x) == Bytes(m, rank, x)
    decreases rank[x]
  {
    if m[x].next.To? {
      SameBytes(m, rank, rank', m[x].next.p, l, t);
    }
  }

  lemma {:induction false} JoinedBytes(m: Pbufs, rank: map<Ref, nat>, rank': map<Ref, nat>, h: Ref, t: Ref)
    requires Acyclic(m, rank) && h in m && t in m && !Reaches(m, rank, t, Last(m, rank, h))
    requires Acyclic(SetNext(m, Last(m, rank, h), To(t)), rank')
    ensures Bytes(SetNext(m, Last(m, rank, h), To(t)), rank', h) == Bytes(m, rank, h) + Bytes(m, rank, t)
    decreases rank[h]
  {
    var l := Last(m, rank, h);
    if m[h].next == Null {
      SameBytes(m, rank, rank', t, l, t);
    } else {
      var c := Chain(m, rank, m[h].next.p);
      assert Chain(m, rank, h)[|c|] == c[|c| - 1];
      JoinedBytes(m, rank, rank', m[h].next.p, t);
      assert m[h].payload + (Bytes(m, rank, m[h].next.p) + Bytes(m, rank, t)) ==
             m[h].payload + Bytes(m, rank, m[h].next.p) + Bytes(m, rank, t);
    }
  }

  /** pbuf_cat: the head chain then holds its own bytes and those of the tail. */
  lemma CatJoinsBytes(st: State, h: Ref, t: Ref)
    requires Good(st) && Legal(st, DoCat(h, t))
    ensures Good(Cat(st, h, t))
    ensures Bytes(Cat(st, h, t).m, Cat(st, h, t).rank, h) == Bytes(st.m, st.rank, h) + Bytes(st.m, st.rank, t)
  {
    CatGood(st, h, t);
    hide Counted, Bytes, Reaches, Last, Lifted;
    JoinedBytes(st.m, st.rank, Lifted(st.m, st.rank, Last(st.m, st.rank, h), t), h, t);
  }

  /** Over any run each live pbuf counts the pointers to it, and every pointer
      leads to a live pbuf. */
  lemma {:induction false} CountsAreExact(st: State, es: seq<Event>)
    requires Good(st) && LegalRun(st, es)
    ensures Good(Run(st, es))
    decreases |es|
  {
    hide Step, Good, Legal;
    if es != [] {
      StepGood(st, es[0]);
      CountsAreExact(Step(st, es[0]), es[1..]);
    }
  }

  /** Somebody refers to the pbufs from outside, as long as there are any. */
  lemma SomeReference(m: Pbufs, out: multiset<Ref>, rank: map<Ref, nat>)
    requires Counted(m, out) && Acyclic(m, rank) && m != map[]
    ensures exists p :: p in out
  {
    if p: Ref :| p in m {
      var top := Highest(m, rank, m.Keys);
      NoPointer(m, top);
      assert CountedAt(m, out, top);
      assert top in out;
    }
  }

  /** Nothing leaks: without outside references nothing is alive. */
  lemma NoReferencesNoPbufs(m: Pbufs, rank: map<Ref, nat>)
    requires Counted(m, multiset{}) && Acyclic(m, rank)
    ensures m == map[]
  {
    if m != map[] {
      SomeReference(m, multiset{}, rank);
    }
  }

  /** The pbuf of the highest rank. */
  lemma {:induction false} Highest(m: Pbufs, rank: map<Ref, nat>, s: set<Ref>) returns (p: Ref)
    requires Acyclic(m, rank) && s != {} && s <= m.Keys
    ensures p in s && forall q :: q in s ==> rank[q] <= rank[p]
    decreases |s|
  {
    p :| p in s;
    if s != {p} {
      var q := Highest(m, rank, s - {p});
      if rank[q] > rank[p] { p := q; }
    }
  }

  /** The examples beside pbuf_free, on chains a -> b -> c. */
  lemma DocumentedExamples()
    ensures Free(Abc(1, 2, 3), 0) == Bc(1, 3)
    ensures Free(Abc(3, 3, 3), 0) == Abc(2, 3, 3)
    ensures Free(Abc(1, 1, 2), 0) == C(1)
    ensures Free(Abc(2, 1, 1), 0) == Abc(1, 1, 1)
    ensures Free(Abc(1, 1, 1), 0) == map[]
  {
    FirstGone(2, 3);
    FirstGone(1, 2);
    FirstGone(1, 1);
    SecondGone(2);
    SecondGone(1);
    hide Abc, Bc, C;
    LastExample();
  }

  function Abc(a: nat, b: nat, c: nat): Pbufs {
    map[0 := Pbuf(To(1), [], a), 1 := Pbuf(To(2), [], b), 2 := Pbuf(Null, [], c)]
  }

  function Bc(b: nat, c: nat): Pbufs { map[1 := Pbuf(To(2), [], b), 2 := Pbuf(Null, [], c)] }

  function C(c: nat): Pbufs { map[2 := Pbuf(Null, [], c)] }

  lemma FirstGone(b: nat, c: nat)
    ensures Free(Abc(1, b, c), 0) == Free(Bc(b, c), 1)
  {
    assert Remove(Abc(1, b, c), 0) == Bc(b, c);
  }

  lemma SecondGone(c: nat)
    ensures Free(Bc(1, c), 1) == Free(C(c), 2)
  {
    assert Remove(Bc(1, c), 1) == C(c);
  }

  lemma LastExample()
    ensures Free(C(1), 2) == map[] && Free(C(2), 2) == C(1) && Free(Bc(2, 3), 1) == Bc(1, 3)
    ensures Free(Abc(3, 3, 3), 0) == Abc(2, 3, 3) && Free(Abc(2, 1, 1), 0) == Abc(1, 1, 1)
  {
    assert Remove(C(1), 2) == map[];
  }
}
