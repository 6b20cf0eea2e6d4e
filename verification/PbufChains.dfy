// Reference counts of pbufs: what pbuf_alloc, pbuf_ref, pbuf_free, pbuf_cat,
// pbuf_chain and pbuf_dechain do to the pbufs that are alive and to the number
// of pointers that each of them counts.
module PbufChains {
  import opened Words

  type Ref = nat   // a struct pbuf*, not NULL

  datatype Link = Null | To(p: Ref)

  datatype Pbuf = Pbuf(next: Link, payload: seq<byte>, ref: nat)

  type Pbufs = map<Ref, Pbuf>

  // ---------------------------------------------------------------- invariant

  /** The pbufs whose next points to p. */
  function Pointers(m: Pbufs, p: Ref): set<Ref> {
    set q | q in m && m[q].next == To(p)
  }

  /** ref is the number of pointers to a pbuf: next pointers of live pbufs and
      the references in out, held by the application and the stack.  A pbuf is
      alive only while there is one, and all pointers lead to live pbufs. */
  ghost predicate Counted(m: Pbufs, out: multiset<Ref>) {
    && (forall p :: p in m ==> CountedAt(m, out, p))
    && (forall p :: p in out ==> p in m)
  }

  ghost predicate CountedAt(m: Pbufs, out: multiset<Ref>, p: Ref)
    requires p in m
  {
    && m[p].ref == |Pointers(m, p)| + out[p] && m[p].ref > 0
    && (m[p].next.To? ==> m[p].next.p in m)
  }

  /** No chain runs in a circle: next leads to a smaller rank. */
  ghost predicate Acyclic(m: Pbufs, rank: map<Ref, nat>) {
    && (forall q :: q in m ==> q in rank)
    && (forall q :: q in m && m[q].next.To? ==> m[q].next.p in m && rank[m[q].next.p] < rank[q])
  }

  /** The chain that starts at p. */
  ghost function Chain(m: Pbufs, rank: map<Ref, nat>, p: Ref): (q: seq<Ref>)
    requires Acyclic(m, rank) && p in m
    ensures q != [] && q[0] == p && forall i :: 0 <= i < |q| ==> q[i] in m
    ensures m[q[|q| - 1]].next == Null
    decreases rank[p]
  {
    if m[p].next == Null then [p] else [p] + Chain(m, rank, m[p].next.p)
  }

  ghost function Last(m: Pbufs, rank: map<Ref, nat>, p: Ref): (l: Ref)
    requires Acyclic(m, rank) && p in m
    ensures l in m && m[l].next == Null
  {
    Chain(m, rank, p)[|Chain(m, rank, p)| - 1]
  }

  /** p leads to l. */
  ghost predicate Reaches(m: Pbufs, rank: map<Ref, nat>, p: Ref, l: Ref)
    requires Acyclic(m, rank) && p in m
    decreases rank[p]
  {
    p == l || (m[p].next.To? && Reaches(m, rank, m[p].next.p, l))
  }

  // --------------------------------------------------------------- operations

  function Alloc(m: Pbufs, p: Ref, payload: seq<byte>): Pbufs {
    m[p := Pbuf(Null, payload, 1)]
  }

  function AddRef(m: Pbufs, p: Ref): Pbufs
    requires p in m
  {
    m[p := m[p].(ref := m[p].ref + 1)]
  }

  function Remove(m: Pbufs, p: Ref): (r: Pbufs)
    ensures r.Keys == m.Keys - {p} && forall q :: q in r ==> r[q] == m[q]
    ensures p in m ==> |r| == |m| - 1
  {
    var r := map q | q in m && q != p :: m[q];
    assert p in m ==> m.Keys == r.Keys + {p};
    r
  }

  /** pbuf_free: give up pbufs from p on until one is still referenced. */
  function Free(m: Pbufs, p: Ref): Pbufs
    decreases |m|
  {
    if p !in m then m
    else if m[p].ref > 1 then m[p := m[p].(ref := m[p].ref - 1)]
    else if m[p].next == Null then Remove(m, p)
    else Free(Remove(m, p), m[p].next.p)
  }

  /** How many pbufs pbuf_free gives up. */
  function Freed(m: Pbufs, p: Ref): nat
    decreases |m|
  {
    if p !in m || m[p].ref > 1 then 0
    else if m[p].next == Null then 1
    else 1 + Freed(Remove(m, p), m[p].next.p)
  }

  function SetNext(m: Pbufs, p: Ref, next: Link): Pbufs
    requires p in m
  {
    m[p := m[p].(next := next)]
  }

  function Dechain(m: Pbufs, p: Ref): Pbufs
    requires p in m
  {
    if m[p].next == Null then m else Free(SetNext(m, p, Null), m[p].next.p)
  }

  // ------------------------------------------------------- what they preserve

  /** How the number of pointers to q follows a change of pbuf x. */
  lemma PointersMove(m: Pbufs, x: Ref, v: Pbuf, q: Ref)
    ensures |Pointers(m[x := v], q)| ==
            |Pointers(m, q)| - (if x in m && m[x].next == To(q) then 1 else 0) + (if v.next == To(q) then 1 else 0)
  {
    var rest := Pointers(m, q) - {x};
    assert Pointers(m, q) == if x in m && m[x].next == To(q) then rest + {x} else rest;
    assert Pointers(m[x := v], q) == if v.next == To(q) then rest + {x} else rest;
  }

  lemma PointersRemove(m: Pbufs, x: Ref, q: Ref)
    requires x in m
    ensures |Pointers(Remove(m, x), q)| == |Pointers(m, q)| - (if m[x].next == To(q) then 1 else 0)
  {
    var rest := Pointers(m, q) - {x};
    assert Pointers(m, q) == if m[x].next == To(q) then rest + {x} else rest;
    assert Pointers(Remove(m, x), q) == rest;
  }

  lemma NoPointer(m: Pbufs, p: Ref)
    ensures |Pointers(m, p)| == 0 <==> forall q :: q in m ==> m[q].next != To(p)
  {
    assert forall q :: q in m && m[q].next == To(p) ==> q in Pointers(m, p);
    if |Pointers(m, p)| != 0 {
      var q :| q in Pointers(m, p);
    }
  }

  lemma AllocCounted(m: Pbufs, out: multiset<Ref>, p: Ref, payload: seq<byte>)
    requires Counted(m, out) && p !in m
    ensures Counted(Alloc(m, p, payload), out + multiset{p})
  {
    hide Pointers;
    Nobody(m, out, p);
    forall q | q in Alloc(m, p, payload)
      ensures CountedAt(Alloc(m, p, payload), out + multiset{p}, q)
    {
      PointersMove(m, p, Pbuf(Null, payload, 1), q);
      assert q != p ==> CountedAt(m, out, q);
    }
  }

  /** Nobody knows a pbuf that is not alive. */
  lemma Nobody(m: Pbufs, out: multiset<Ref>, p: Ref)
    requires Counted(m, out) && p !in m
    ensures |Pointers(m, p)| == 0 && out[p] == 0
  {
    NoPointer(m, p);
    hide Pointers;
    forall q | q in m
      ensures m[q].next != To(p)
    {
      assert CountedAt(m, out, q);
    }
  }

  lemma AddRefCounted(m: Pbufs, out: multiset<Ref>, p: Ref)
    requires Counted(m, out) && p in m
    ensures Counted(AddRef(m, p), out + multiset{p})
  {
    hide Pointers;
    forall q | q in m
      ensures CountedAt(AddRef(m, p), out + multiset{p}, q)
    {
      PointersMove(m, p, m[p].(ref := m[p].ref + 1), q);
      assert CountedAt(m, out, q);
    }
  }

  /** One reference less, when it is not the last. */
  lemma DropCounted(m: Pbufs, out: multiset<Ref>, p: Ref)
    requires Counted(m, out) && p in out && m[p].ref > 1
    ensures Counted(m[p := m[p].(ref := m[p].ref - 1)], out - multiset{p})
  {
    hide Pointers;
    forall q | q in m
      ensures CountedAt(m[p := m[p].(ref := m[p].ref - 1)], out - multiset{p}, q)
    {
      PointersMove(m, p, m[p].(ref := m[p].ref - 1), q);
      assert CountedAt(m, out, q);
    }
  }

  /** The references after the last one to p is gone: p's pointer takes its place. */
  function Handed(m: Pbufs, out: multiset<Ref>, p: Ref): multiset<Ref>
    requires p in m
  {
    out - multiset{p} + (if m[p].next.To? then multiset{m[p].next.p} else multiset{})
  }

  /** The last reference: the pbuf goes. */
  lemma RemoveCounted(m: Pbufs, out: multiset<Ref>, p: Ref)
    requires Counted(m, out) && p in out && m[p].ref <= 1
    ensures Counted(Remove(m, p), Handed(m, out, p))
    ensures m[p].next.To? ==> m[p].next.p in Remove(m, p)
  {
    hide Pointers, Remove, CountedAt;
    OnlyOne(m, out, p);
    forall q | q in m && q != p
      ensures CountedAt(Remove(m, p), Handed(m, out, p), q)
    {
      RemoveCountedAt(m, out, p, q);
    }
  }

  lemma OnlyOne(m: Pbufs, out: multiset<Ref>, p: Ref)
    requires Counted(m, out) && p in out && m[p].ref <= 1
    ensures out[p] == 1 && (forall q :: q in m ==> m[q].next != To(p)) && (m[p].next.To? ==> m[p].next.p in m)
  {
    NoPointer(m, p);
    hide Pointers;
    assert CountedAt(m, out, p);
  }

  lemma RemoveCountedAt(m: Pbufs, out: multiset<Ref>, p: Ref, q: Ref)
    requires p in m && q in m && q != p && CountedAt(m, out, q) && m[q].next != To(p)
    ensures CountedAt(Remove(m, p), Handed(m, out, p), q)
  {
    PointersRemove(m, p, q);
    hide Pointers;
  }

  /** pbuf_free takes one reference away and keeps all counts right. */
  lemma {:induction false} FreeCounted(m: Pbufs, out: multiset<Ref>, p: Ref)
    requires Counted(m, out) && p in out
    ensures Counted(Free(m, p), out - multiset{p})
    decreases |m|
  {
    hide Counted, Remove;
    OutLive(m, out);
    if m[p].ref > 1 {
      DropCounted(m, out, p);
    } else {
      RemoveCounted(m, out, p);
      if m[p].next.To? {
        var q := m[p].next.p;
        FreeCounted(Remove(m, p), Handed(m, out, p), q);
        assert Handed(m, out, p) - multiset{q} == out - multiset{p};
      } else {
        assert Handed(m, out, p) == out - multiset{p};
      }
    }
  }

  lemma OutLive(m: Pbufs, out: multiset<Ref>)
    requires Counted(m, out)
    ensures forall p :: p in out ==> p in m
  {
  }

  /** pbuf_free gives up pbufs; it changes nothing but counts in the others. */
  lemma {:induction false} FreeShape(m: Pbufs, p: Ref)
    ensures Free(m, p).Keys <= m.Keys && Freed(m, p) == |m| - |Free(m, p)|
    ensures forall q :: q in Free(m, p) ==> Free(m, p)[q].next == m[q].next && Free(m, p)[q].payload == m[q].payload
    decreases |m|
  {
    hide Remove;
    if p in m && m[p].ref <= 1 && m[p].next.To? {
      FreeShape(Remove(m, p), m[p].next.p);
    }
  }

  /** pbuf_cat: the caller's reference to t becomes the next pointer of l. */
  lemma LinkCounted(m: Pbufs, out: multiset<Ref>, l: Ref, t: Ref)
    requires Counted(m, out) && l in m && m[l].next == Null && t in out
    ensures Counted(SetNext(m, l, To(t)), out - multiset{t})
  {
    hide Pointers;
    forall q | q in m
      ensures CountedAt(SetNext(m, l, To(t)), out - multiset{t}, q)
    {
      PointersMove(m, l, m[l].(next := To(t)), q);
      assert CountedAt(m, out, q);
    }
  }

  /** And the other way round. */
  lemma UnlinkCounted(m: Pbufs, out: multiset<Ref>, p: Ref)
    requires Counted(m, out) && p in m && m[p].next.To?
    ensures Counted(SetNext(m, p, Null), out + multiset{m[p].next.p})
  {
    hide Pointers;
    assert CountedAt(m, out, p);
    forall q | q in m
      ensures CountedAt(SetNext(m, p, Null), out + multiset{m[p].next.p}, q)
    {
      PointersMove(m, p, m[p].(next := Null), q);
      assert CountedAt(m, out, q);
    }
  }

  lemma DechainCounted(m: Pbufs, out: multiset<Ref>, p: Ref)
    requires Counted(m, out) && p in m
    ensures Counted(Dechain(m, p), out)
  {
    if m[p].next.To? {
      var q := m[p].next.p;
      UnlinkCounted(m, out, p);
      FreeCounted(SetNext(m, p, Null), out + multiset{q}, q);
      assert out + multiset{q} - multiset{q} == out;
    }
  }

  // -------------------------------------------------------------------- ranks

  /** The ranks once t hangs behind l. */
  ghost function Lifted(m: Pbufs, rank: map<Ref, nat>, l: Ref, t: Ref): map<Ref, nat>
    requires Acyclic(m, rank) && t in m
  {
    map x | x in m :: rank[x] + if Reaches(m, rank, x, l) then rank[t] + 1 else 0
  }

  lemma LinkAcyclic(m: Pbufs, rank: map<Ref, nat>, l: Ref, t: Ref)
    requires Acyclic(m, rank) && l in m && t in m && m[l].next == Null && !Reaches(m, rank, t, l)
    ensures Acyclic(SetNext(m, l, To(t)), Lifted(m, rank, l, t))
  {
    assert Reaches(m, rank, l, l);
  }

  /** Fewer pbufs and fewer links cannot make a circle. */
  lemma SubAcyclic(m: Pbufs, m': Pbufs, rank: map<Ref, nat>)
    requires Acyclic(m, rank) && m'.Keys <= m.Keys
    requires forall q :: q in m' ==> m'[q].next == m[q].next || m'[q].next == Null
    requires forall q :: q in m' && m'[q].next.To? ==> m'[q].next.p in m'
    ensures Acyclic(m', rank)
  {
  }

  // ------------------------------------------------------------------ shrinking

  /** What a chain holds. */
  ghost function Bytes(m: Pbufs, rank: map<Ref, nat>, p: Ref): seq<byte>
    requires Acyclic(m, rank) && p in m
    decreases rank[p]
  {
    m[p].payload + if m[p].next == Null then [] else Bytes(m, rank, m[p].next.p)
  }

  /** The pbuf in which the first n bytes of a chain end, and its share. */
  ghost function EndOf(m: Pbufs, rank: map<Ref, nat>, p: Ref, n: nat): (e: (Ref, nat))
    requires Acyclic(m, rank) && p in m && n <= |Bytes(m, rank, p)|
    ensures e.0 in m && e.1 <= |m[e.0].payload| && rank[e.0] <= rank[p]
    decreases rank[p]
  {
    if n <= |m[p].payload| then (p, n) else EndOf(m, rank, m[p].next.p, n - |m[p].payload|)
  }

  function Shorten(m: Pbufs, q: Ref, n: nat): Pbufs
    requires q in m && n <= |m[q].payload|
  {
    m[q := m[q].(payload := m[q].payload[..n])]
  }

  /** pbuf_realloc: the pbuf where the new length ends is the last one now. */
  ghost function Realloc(m: Pbufs, rank: map<Ref, nat>, p: Ref, newLen: nat): Pbufs
    requires Acyclic(m, rank) && p in m
  {
    if newLen >= |Bytes(m, rank, p)| then m
    else
      var (q, rem) := EndOf(m, rank, p, newLen);
      Dechain(Shorten(m, q, rem), q)
  }

  lemma ShortenGood(st: State, q: Ref, n: nat)
    requires Good(st) && q in st.m && n <= |st.m[q].payload|
    ensures Good(st.(m := Shorten(st.m, q, n)))
  {
    var m' := Shorten(st.m, q, n);
    forall p | p in m'
      ensures CountedAt(m', st.out, p)
    {
      PointersMove(st.m, q, m'[q], p);
    }
  }

  lemma ReallocGood(st: State, p: Ref, newLen: nat)
    requires Good(st) && p in st.m
    ensures Good(st.(m := Realloc(st.m, st.rank, p, newLen)))
  {
    hide Good, Dechain;
    AcyclicOf(st);
    if newLen < |Bytes(st.m, st.rank, p)| {
      var (q, rem) := EndOf(st.m, st.rank, p, newLen);
      ShortenGood(st, q, rem);
      DechainGood(st.(m := Shorten(st.m, q, rem)), q);
    }
  }

  lemma AcyclicOf(st: State)
    requires Good(st)
    ensures Acyclic(st.m, st.rank)
  {
  }

  /** Links lead to smaller ranks, as far as they lead to live pbufs. */
  ghost predicate Ranked(m: Pbufs, rank: map<Ref, nat>) {
    && (forall q :: q in m ==> q in rank)
    && forall q :: q in m && m[q].next.To? && m[q].next.p in m ==> rank[m[q].next.p] < rank[q]
  }

  /** pbuf_free does not touch what comes before its argument in a chain. */
  lemma {:induction false} FreeAbove(m: Pbufs, rank: map<Ref, nat>, p: Ref, y: Ref)
    requires Ranked(m, rank) && y in m && (p in m ==> rank[p] < rank[y])
    ensures y in Free(m, p) && Free(m, p)[y] == m[y]
    decreases |m|
  {
    if p in m && m[p].ref <= 1 && m[p].next.To? {
      FreeAbove(Remove(m, p), rank, m[p].next.p, y);
    }
  }

  lemma DechainAbove(m: Pbufs, rank: map<Ref, nat>, q: Ref, y: Ref)
    requires Acyclic(m, rank) && q in m && y in m && rank[q] <= rank[y]
    ensures y in Dechain(m, q) && Dechain(m, q)[y] == if y == q then m[q].(next := Null) else m[y]
  {
    if m[q].next.To? {
      FreeAbove(SetNext(m, q, Null), rank, m[q].next.p, y);
    }
  }

  /** pbuf_realloc keeps exactly the first bytes, or all if there are fewer. */
  lemma ReallocKeepsPrefix(st: State, p: Ref, newLen: nat)
    requires Good(st) && p in st.m
    ensures var m' := Realloc(st.m, st.rank, p, newLen);
      && p in m' && Acyclic(m', st.rank)
      && Bytes(m', st.rank, p) ==
           if newLen < |Bytes(st.m, st.rank, p)| then Bytes(st.m, st.rank, p)[..newLen] else Bytes(st.m, st.rank, p)
  {
    hide Counted, Dechain, Free;
    ReallocGood(st, p, newLen);
    if newLen < |Bytes(st.m, st.rank, p)| {
      var (q, rem) := EndOf(st.m, st.rank, p, newLen);
      ShortenGood(st, q, rem);
      ShortenedFrom(st.m, Realloc(st.m, st.rank, p, newLen), st.rank, p, newLen);
    }
  }

  lemma {:induction false} ShortenedFrom(m: Pbufs, m': Pbufs, rank: map<Ref, nat>, p: Ref, n: nat)
    requires Acyclic(m, rank) && Acyclic(m', rank) && p in m && n <= |Bytes(m, rank, p)|
    requires var (q, rem) := EndOf(m, rank, p, n);
      Acyclic(Shorten(m, q, rem), rank) && m' == Dechain(Shorten(m, q, rem), q)
    ensures p in m' && Bytes(m', rank, p) == Bytes(m, rank, p)[..n]
    decreases rank[p]
  {
    hide Dechain;
    var (q, rem) := EndOf(m, rank, p, n);
    DechainAbove(Shorten(m, q, rem), rank, q, p);
    if n > |m[p].payload| {
      ShortenedFrom(m, m', rank, m[p].next.p, n - |m[p].payload|);
    }
  }

  // --------------------------------------------------------------------- runs

  datatype Event =
    | DoAlloc(p: Ref, payload: seq<byte>)   // memory for p was found
    | DoRef(p: Ref)
    | DoFree(p: Ref)
    | DoCat(h: Ref, t: Ref)
    | DoChain(h: Ref, t: Ref)
    | DoDechain(p: Ref)
    | DoRealloc(p: Ref, newLen: nat)

  /** The live pbufs, the references from outside, and ranks that show that
      there is no circle. */
  datatype State = State(m: Pbufs, out: multiset<Ref>, rank: map<Ref, nat>)

  ghost predicate Good(st: State) {
    Counted(st.m, st.out) && Acyclic(st.m, st.rank)
  }

  /** What the API asks of its callers. */
  ghost predicate Legal(st: State, e: Event)
    requires Good(st)
  {
    match e
    case DoAlloc(p, _) => p !in st.m
    case DoRef(p) => p in st.m
    case DoFree(p) => p in st.out
    case DoCat(h, t) => h in st.m && t in st.out && !Reaches(st.m, st.rank, t, Last(st.m, st.rank, h))
    case DoChain(h, t) => h in st.m && t in st.out && !Reaches(st.m, st.rank, t, Last(st.m, st.rank, h))
    case DoDechain(p) => p in st.m
    case DoRealloc(p, _) => p in st.m
  }

  ghost function Cat(st: State, h: Ref, t: Ref): State
    requires Good(st) && h in st.m && t in st.m
  {
    var l := Last(st.m, st.rank, h);
    State(SetNext(st.m, l, To(t)), st.out - multiset{t}, Lifted(st.m, st.rank, l, t))
  }

  ghost function Step(st: State, e: Event): State
    requires Good(st) && Legal(st, e)
  {
    match e
    case DoAlloc(p, payload) => State(Alloc(st.m, p, payload), st.out + multiset{p}, st.rank[p := 0])
    case DoRef(p) => st.(m := AddRef(st.m, p), out := st.out + multiset{p})
    case DoFree(p) => st.(m := Free(st.m, p), out := st.out - multiset{p})
    case DoCat(h, t) => Cat(st, h, t)
    case DoChain(h, t) =>
      var st' := Cat(st, h, t);
      st'.(m := AddRef(st'.m, t), out := st'.out + multiset{t})
    case DoDechain(p) => st.(m := Dechain(st.m, p))
    case DoRealloc(p, newLen) => st.(m := Realloc(st.m, st.rank, p, newLen))
  }

  lemma CatGood(st: State, h: Ref, t: Ref)
    requires Good(st) && Legal(st, DoCat(h, t))
    ensures Good(Cat(st, h, t))
  {
    var l := Last(st.m, st.rank, h);
    hide Counted, Acyclic;
    LinkCounted(st.m, st.out, l, t);
    LinkAcyclic(st.m, st.rank, l, t);
  }

  lemma FreeGood(st: State, p: Ref)
    requires Good(st) && p in st.out
    ensures Good(st.(m := Free(st.m, p), out := st.out - multiset{p}))
  {
    hide Free, Freed, Counted;
    FreeCounted(st.m, st.out, p);
    FreeShape(st.m, p);
    ClosedOf(Free(st.m, p), st.out - multiset{p});
    SubAcyclic(st.m, Free(st.m, p), st.rank);
  }

  lemma ClosedOf(m: Pbufs, out: multiset<Ref>)
    requires Counted(m, out)
    ensures forall q :: q in m && m[q].next.To? ==> m[q].next.p in m
  {
    hide Pointers;
    assert forall q :: q in m ==> CountedAt(m, out, q);
  }

  lemma DechainGood(st: State, p: Ref)
    requires Good(st) && p in st.m
    ensures Good(st.(m := Dechain(st.m, p)))
  {
    hide Free, Freed, Counted;
    DechainCounted(st.m, st.out, p);
    if st.m[p].next.To? {
      FreeShape(SetNext(st.m, p, Null), st.m[p].next.p);
      ClosedOf(Dechain(st.m, p), st.out);
      SubAcyclic(st.m, Dechain(st.m, p), st.rank);
    }
  }

  /** Every operation keeps the counts right and the chains free of circles. */
  lemma StepGood(st: State, e: Event)
    requires Good(st) && Legal(st, e)
    ensures Good(Step(st, e))
  {
    hide Counted, Free, Dechain, Realloc;
    match e
    case DoAlloc(p, payload) => AllocCounted(st.m, st.out, p, payload);
    case DoRef(p) => AddRefCounted(st.m, st.out, p);
    case DoFree(p) => FreeGood(st, p);
    case DoCat(h, t) => CatGood(st, h, t);
    case DoChain(h, t) =>
      OutLive(st.m, st.out);
      CatGood(st, h, t);
      var st' := Cat(st, h, t);
      AddRefCounted(st'.m, st'.out, t);
    case DoDechain(p) => DechainGood(st, p);
    case DoRealloc(p, newLen) => ReallocGood(st, p, newLen);
  }

  // ------------------------------------------------------------- pool chains

  function Zeros(n: nat): seq<byte> { seq(n, _ => 0) }

  /** A chain of fresh pbufs ps of the given lengths, each with one reference. */
  function Built(m: Pbufs, ps: seq<Ref>, lens: seq<nat>): Pbufs
    requires |ps| == |lens|
  {
    if ps == [] then m
    else Built(m, ps[1..], lens[1..])[ps[0] := Pbuf(if |ps| > 1 then To(ps[1]) else Null, Zeros(lens[0]), 1)]
  }

  ghost predicate Fresh(m: Pbufs, ps: seq<Ref>) {
    && (forall i :: 0 <= i < |ps| ==> ps[i] !in m)
    && (forall i, j :: 0 <= i < j < |ps| ==> ps[i] != ps[j])
  }

  lemma {:induction false} BuiltKeys(m: Pbufs, ps: seq<Ref>, lens: seq<nat>)
    requires |ps| == |lens|
    ensures forall x :: x in Built(m, ps, lens) <==> x in m || x in ps
    decreases |ps|
  {
    if ps != [] {
      BuiltKeys(m, ps[1..], lens[1..]);
      assert ps == [ps[0]] + ps[1..];
    }
  }

  /** One more pbuf behind the last. */
  lemma {:induction false} BuiltNext(m: Pbufs, ps: seq<Ref>, lens: seq<nat>, q: Ref, n: nat)
    requires |ps| == |lens| && ps != [] && Fresh(m, ps + [q])
    ensures ps[|ps| - 1] in Built(m, ps, lens) && q !in Built(m, ps, lens)
    ensures Built(m, ps + [q], lens + [n]) ==
            SetNext(Built(m, ps, lens)[q := Pbuf(Null, Zeros(n), 1)], ps[|ps| - 1], To(q))
    decreases |ps|
  {
    hide Zeros;
    BuiltKeys(m, ps, lens);
    assert (ps + [q])[|ps|] == q;
    assert (ps + [q])[1..] == ps[1..] + [q] && (lens + [n])[1..] == lens[1..] + [n];
    forall i | 0 <= i < |ps|
      ensures ps[i] != q
    {
      assert (ps + [q])[i] == ps[i];
    }
    if |ps| == 1 {
      assert ps[1..] + [q] == [q] && lens[1..] + [n] == [n];
      assert [q][1..] == [] && [n][1..] == [];
    } else {
      FreshTail(m, ps + [q]);
      BuiltNext(m, ps[1..], lens[1..], q, n);
      assert (ps + [q])[0] != (ps + [q])[|ps| - 1];
    }
  }

  lemma FreshTail(m: Pbufs, ps: seq<Ref>)
    requires Fresh(m, ps) && ps != []
    ensures Fresh(m, ps[1..])
  {
  }

  /** pbuf_free of a chain that nobody else knows gives back all of it. */
  lemma {:induction false} FreeUndoesBuilt(m: Pbufs, ps: seq<Ref>, lens: seq<nat>)
    requires |ps| == |lens| && ps != [] && Fresh(m, ps)
    ensures Free(Built(m, ps, lens), ps[0]) == m
    decreases |ps|
  {
    hide Zeros;
    var rest := Built(m, ps[1..], lens[1..]);
    BuiltKeys(m, ps[1..], lens[1..]);
    assert forall i :: 0 <= i < |ps| - 1 ==> ps[1..][i] == ps[i + 1];
    assert ps[0] !in ps[1..];
    assert Remove(Built(m, ps, lens), ps[0]) == rest;
    if |ps| > 1 {
      FreshTail(m, ps);
      FreeUndoesBuilt(m, ps[1..], lens[1..]);
    }
  }
}
