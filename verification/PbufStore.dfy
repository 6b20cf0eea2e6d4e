// pbuf.c on the live pbufs: a store of struct pbuf records that the functions of
// pbuf.c link, count and give up in place.
module PbufStore {
  import opened Words
  import opened PbufChains

  /** PBUF_POOL_BUFSIZE_ALIGNED is bufsize; the first pbuf of a chain has room
      for first bytes behind its headers. */
  function PoolLen(k: nat, rem: nat, first: nat, bufsize: nat): nat {
    var room := if k == 0 then first else bufsize;
    if rem < room then rem else room
  }

  class Store {
    var pbufs: Pbufs

    /** References held outside, and ranks that show that no chain is a circle. */
    ghost var out: multiset<Ref>
    ghost var rank: map<Ref, nat>

    ghost predicate Valid()
      reads this
    {
      Good(View())
    }

    ghost function View(): State
      reads this
    {
      State(pbufs, out, rank)
    }

    constructor ()
      ensures Valid() && pbufs == map[] && out == multiset{}
    {
      pbufs, out, rank := map[], multiset{}, map[];
    }

    /** pbuf_alloc of type PBUF_RAM, PBUF_ROM or PBUF_REF, when memory for it was
        found at p. */
    method PbufAlloc(p: Ref, payload: seq<byte>)
      requires Valid() && p !in pbufs
      modifies this
      ensures Valid() && View() == Step(old(View()), DoAlloc(p, payload))
    {
      StepGood(View(), DoAlloc(p, payload));
      pbufs := pbufs[p := Pbuf(Null, payload, 1)];
      out, rank := out + multiset{p}, rank[p := 0];
    }

    /** pbuf_alloc of type PBUF_POOL: a chain long enough for length bytes, out of
        the free pbufs of the pool; all or nothing. */
    method PbufAllocPool(length: nat, first: nat, bufsize: nat, pool: seq<Ref>) returns (p: Link, ghost lens: seq<nat>)
      requires Valid() && Fresh(pbufs, pool) && 0 < first && 0 < bufsize
      modifies this
      ensures Valid()
      ensures p == Null <==> pool == [] || length > first + (|pool| - 1) * bufsize
      ensures p.To? ==> Filled(lens, first, bufsize)
      ensures p == Null ==> pbufs == old(pbufs) && out == old(out)
      ensures p.To? ==> 0 < |lens| <= |pool| && p.p == pool[0] && Sum(lens) == length
      ensures p.To? ==> pbufs == Built(old(pbufs), pool[..|lens|], lens) && out == old(out) + multiset{p.p}
    {
      hide Good, Built, Fresh, Sum, Zeros, Free, Freed, Filled, Filling;
      lens := [];
      if pool == [] {
        return Null, lens;
      }
      ghost var m0, out0 := pbufs, out;
      var rem: nat, k := length, 1;
      var n := PoolLen(0, rem, first, bufsize);
      FreshAt(m0, pool, 0);
      FirstOfPool(pool[0], n, |pool|);
      lens := [n];
      SumSnoc([], n);
      SumNone();
      rem := rem - n;
      FillingFirst(n, length, first, bufsize);
      BuiltOne(m0, pool[0], n);
      assert pool[..1] == [pool[0]];
      while rem > 0
        invariant 1 <= k <= |pool| && |lens| == k && Sum(lens) + rem == length
        invariant Filling(lens, length, rem, first, bufsize)
        invariant pbufs == Built(m0, pool[..k], lens) && out == out0 + multiset{pool[0]}
        invariant Valid() && pool[k - 1] in rank && rank[pool[k - 1]] == |pool| - k + 1
        decreases rem
      {
        if k == |pool| {
          // free chain so far allocated
          FillingMeans(lens, length, rem, first, bufsize, |pool|);
          GiveBack(m0, pool, lens, out0);
          return Null, lens;
        }
        n := PoolLen(k, rem, first, bufsize);
        FreshPrefix(m0, pool, k + 1);
        assert pool[..k + 1] == pool[..k] + [pool[k]];
        BuiltNext(m0, pool[..k], lens, pool[k], n);
        BuiltEnd(m0, pool[..k], lens);
        Extend(pool[k - 1], pool[k], n);
        SumSnoc(lens, n);
        FillingNext(lens, n, length, rem, first, bufsize);
        lens := lens + [n];
        rem := rem - n;
        k := k + 1;
      }
      FillingMeans(lens, length, rem, first, bufsize, |pool|);
      return To(pool[0]), lens;
    }

    method GiveBack(ghost m0: Pbufs, pool: seq<Ref>, ghost lens: seq<nat>, ghost out0: multiset<Ref>)
      requires Valid() && pool != [] && |lens| == |pool| && Fresh(m0, pool)
      requires pbufs == Built(m0, pool[..|pool|], lens) && out == out0 + multiset{pool[0]}
      modifies `pbufs, `out
      ensures Valid() && pbufs == m0 && out == out0
    {
      hide Good, Built, Fresh, Free, Freed;
      assert pool[..|pool|] == pool;
      FreeUndoesBuilt(m0, pool, lens);
      var _ := PbufFree(pool[0]);
      assert out0 + multiset{pool[0]} - multiset{pool[0]} == out0;
    }

    method FirstOfPool(p: Ref, n: nat, ghost top: nat)
      requires Valid() && p !in pbufs
      modifies this
      ensures Valid() && pbufs == old(pbufs)[p := Pbuf(Null, Zeros(n), 1)]
      ensures out == old(out) + multiset{p} && p in rank && rank[p] == top
    {
      hide Counted;
      AllocCounted(pbufs, out, p, Zeros(n));
      ClosedOf(pbufs, out);
      pbufs := pbufs[p := Pbuf(Null, Zeros(n), 1)];
      out, rank := out + multiset{p}, rank[p := top];
    }

    /** Make the previous pbuf point to the new one. */
    method Extend(r: Ref, q: Ref, n: nat)
      requires Valid() && r in pbufs && pbufs[r].next == Null && q !in pbufs && r in rank && rank[r] > 0
      modifies this
      ensures Valid() && out == old(out) && q in rank && rank[q] == old(rank[r]) - 1
      ensures pbufs == SetNext(old(pbufs)[q := Pbuf(Null, Zeros(n), 1)], r, To(q))
    {
      hide Counted, Zeros;
      ExtendCounted(pbufs, out, r, q, n);
      ClosedOf(pbufs, out);
      pbufs := pbufs[q := Pbuf(Null, Zeros(n), 1)];
      pbufs := pbufs[r := pbufs[r].(next := To(q))];
      rank := rank[q := rank[r] - 1];
    }

    /** pbuf_ref */
    method PbufRef(p: Link)
      requires Valid() && (p.To? ==> p.p in pbufs)
      modifies `pbufs, `out
      ensures Valid() && View() == if p == Null then old(View()) else Step(old(View()), DoRef(p.p))
    {
      hide Good;
      if p != Null {
        StepGood(View(), DoRef(p.p));
        pbufs := pbufs[p.p := pbufs[p.p].(ref := pbufs[p.p].ref + 1)];
        out := out + multiset{p.p};
      }
    }

    /** pbuf_free; returns the number of pbufs given up, counted in eight bits. */
    method PbufFree(p: Ref) returns (count: u8)
      requires Valid() && p in out
      modifies `pbufs, `out
      ensures Valid() && View() == Step(old(View()), DoFree(p))
      ensures count == Low8(Freed(old(pbufs), p)) && Freed(old(pbufs), p) == |old(pbufs)| - |pbufs|
    {
      hide Low8, Free, Freed, Counted, Good, Step;
      StepFree(View(), p);
      FreeGood(View(), p);
      FreeShape(pbufs, p);
      count := DropReferences(p);
      out := out - multiset{p};
    }

    /** The loop of pbuf_free. */
    method DropReferences(p: Ref) returns (count: u8)
      requires Valid() && p in out
      modifies `pbufs
      ensures pbufs == Free(old(pbufs), p) && count == Low8(Freed(old(pbufs), p))
    {
      hide Low8, Free, Freed, Counted, Good, Remove, Handed, Dropping;
      ghost var m0, o := pbufs, out;
      count := 0;
      var cur := To(p);
      CountedOf();
      DroppingFirst(m0, o, p);
      while cur != Null
        invariant Dropping(m0, p, pbufs, o, cur, count)
        decreases |pbufs|, cur != Null
      {
        var c := cur.p;
        DroppingNext(m0, p, pbufs, o, c, count);
        var ref := pbufs[c].ref - 1;
        if ref == 0 {
          o := Handed(pbufs, o, c);
          cur := pbufs[c].next;
          pbufs := Remove(pbufs, c);
          count := Low8(count + 1);
        } else {
          pbufs := pbufs[c := pbufs[c].(ref := ref)];
          cur := Null;
        }
      }
      DroppingLast(m0, p, pbufs, o, count);
    }

    lemma CountedOf()
      requires Valid()
      ensures Counted(pbufs, out)
    {
    }

    /** Walk to the last pbuf of a chain. */
    method LastOf(h: Ref) returns (l: Ref)
      requires Valid() && h in pbufs
      ensures l == Last(pbufs, rank, h)
    {
      hide Counted;
      l := h;
      while pbufs[l].next != Null
        invariant l in pbufs && Last(pbufs, rank, l) == Last(pbufs, rank, h)
        decreases rank[l]
      {
        LastNext(pbufs, rank, l);
        l := pbufs[l].next.p;
      }
    }

    /** pbuf_cat: take over the caller's reference to t. */
    method PbufCat(h: Ref, t: Ref)
      requires Valid() && Legal(View(), DoCat(h, t))
      modifies this
      ensures Valid() && View() == Step(old(View()), DoCat(h, t))
    {
      hide Good, Step, Legal, Last, Cat;
      StepGood(View(), DoCat(h, t));
      CatParts(View(), h, t);
      var l := LastOf(h);
      ghost var st := Cat(View(), h, t);
      pbufs := pbufs[l := pbufs[l].(next := To(t))];
      out, rank := st.out, st.rank;
    }

    /** pbuf_chain: the caller keeps its reference to t. */
    method PbufChain(h: Ref, t: Ref)
      requires Valid() && Legal(View(), DoChain(h, t))
      modifies this
      ensures Valid() && View() == Step(old(View()), DoChain(h, t))
    {
      OutLive(pbufs, out);
      PbufCat(h, t);
      PbufRef(To(t));
    }

    /** pbuf_dechain: the tail, or NULL if it was given up, unless so many pbufs go
        with it that pbuf_free's count comes round to 0. */
    method PbufDechain(p: Ref) returns (rest: Link)
      requires Valid() && p in pbufs
      modifies this
      ensures Valid() && View() == Step(old(View()), DoDechain(p))
      ensures var q, gone := old(pbufs)[p].next, |old(pbufs)| - |pbufs|;
              && (q.To? ==> (q.p in pbufs <==> gone == 0))
              && rest == (if q.To? && gone % 0x100 == 0 then q else Null)
              && (rest == (if q.To? && q.p in pbufs then q else Null) <==> gone == 0 || gone % 0x100 != 0)
    {
      hide Good, Free, Freed, Step, Dechain;
      StepDechain(View(), p);
      var q := pbufs[p].next;
      if q == Null {
        return Null;
      }
      DechainGood(View(), p);
      UnlinkGood(View(), p);
      FreeHead(SetNext(pbufs, p, Null), q.p);
      ghost var st1 := State(SetNext(pbufs, p, Null), out + multiset{q.p}, rank);
      Decouple(p, q.p);
      StepFree(st1, q.p);
      var gone := PbufFree(q.p);
      assert old(out) + multiset{q.p} - multiset{q.p} == old(out);
      return if gone > 0 then Null else q;
    }

    /** pbuf_realloc; totLen is the tot_len of p.  The remainder of the chain is
        freed. */
    method PbufRealloc(p: Ref, newLen: nat, totLen: nat)
      requires Valid() && p in pbufs && totLen == |Bytes(pbufs, rank, p)|
      modifies this
      ensures Valid() && View() == Step(old(View()), DoRealloc(p, newLen))
      ensures p in pbufs && Bytes(pbufs, rank, p) ==
        if newLen < totLen then old(Bytes(pbufs, rank, p))[..newLen] else old(Bytes(pbufs, rank, p))
    {
      hide Good, Counted, Free, Freed, Dechain, Step, Acyclic;
      ReallocGood(View(), p, newLen);
      ReallocKeepsPrefix(View(), p, newLen);
      StepRealloc(View(), p, newLen);
      AcyclicOf(View());
      if newLen >= totLen {
        return;
      }
      var q, rem := FindEnd(p, newLen);
      ShortenGood(View(), q, rem);
      StepDechain(View().(m := Shorten(pbufs, q, rem)), q);
      pbufs := pbufs[q := pbufs[q].(payload := pbufs[q].payload[..rem])];
      var _ := PbufDechain(q);
    }

    /** Step over the pbufs that remain in the chain. */
    method FindEnd(p: Ref, newLen: nat) returns (q: Ref, rem: nat)
      requires Valid() && p in pbufs && newLen <= |Bytes(pbufs, rank, p)|
      ensures (q, rem) == EndOf(pbufs, rank, p, newLen)
    {
      hide Counted;
      q, rem := p, newLen;
      while rem > |pbufs[q].payload|
        invariant q in pbufs && rem <= |Bytes(pbufs, rank, q)|
        invariant EndOf(pbufs, rank, q, rem) == EndOf(pbufs, rank, p, newLen)
        decreases rank[q]
      {
        rem := rem - |pbufs[q].payload|;
        q := pbufs[q].next.p;
      }
    }

    /** Decouple the pbuf from the remainder, whose reference is now the caller's. */
    method Decouple(p: Ref, ghost q: Ref)
      requires p in pbufs
      modifies `pbufs, `out
      ensures pbufs == SetNext(old(pbufs), p, Null) && out == old(out) + multiset{q}
    {
      pbufs := pbufs[p := pbufs[p].(next := Null)];
      out := out + multiset{q};
    }
  }

  lemma StepRealloc(st: State, p: Ref, newLen: nat)
    requires Good(st) && p in st.m
    ensures Acyclic(st.m, st.rank)
    ensures Legal(st, DoRealloc(p, newLen))
    ensures Step(st, DoRealloc(p, newLen)) == st.(m := Realloc(st.m, st.rank, p, newLen))
  {
  }

  lemma ExtendCounted(m: Pbufs, out: multiset<Ref>, r: Ref, q: Ref, n: nat)
    requires Counted(m, out) && r in m && m[r].next == Null && q !in m
    ensures Counted(SetNext(m[q := Pbuf(Null, Zeros(n), 1)], r, To(q)), out)
  {
    AllocCounted(m, out, q, Zeros(n));
    hide Counted, Zeros;
    LinkCounted(Alloc(m, q, Zeros(n)), out + multiset{q}, r, q);
    assert out + multiset{q} - multiset{q} == out;
  }

  /** The last pbuf of a chain that has just been built. */
  lemma {:induction false} BuiltEnd(m: Pbufs, ps: seq<Ref>, lens: seq<nat>)
    requires |ps| == |lens| && ps != [] && Fresh(m, ps)
    ensures ps[|ps| - 1] in Built(m, ps, lens) && Built(m, ps, lens)[ps[|ps| - 1]].next == Null
    decreases |ps|
  {
    if |ps| > 1 {
      FreshTail(m, ps);
      BuiltEnd(m, ps[1..], lens[1..]);
      assert ps[0] != ps[|ps| - 1];
    }
  }

  lemma FreshAt(m: Pbufs, ps: seq<Ref>, i: nat)
    requires Fresh(m, ps) && i < |ps|
    ensures ps[i] !in m
  {
  }

  lemma HandedOn(m: Pbufs, out: multiset<Ref>, p: Ref)
    requires p in m
    ensures m[p].next.To? ==> m[p].next.p in Handed(m, out, p)
  {
  }

  lemma Low8Add(a: nat, b: nat)
    ensures Low8(Low8(a) + b) == Low8(a + b)
    ensures a < 0x100 ==> Low8(a) == a
  {
  }

  /** What the loop of pbuf_free has done, and what it has still to do from cur on. */
  ghost predicate Dropping(m0: Pbufs, p: Ref, m: Pbufs, o: multiset<Ref>, cur: Link, count: u8) {
    if cur == Null then m == Free(m0, p) && count == Low8(Freed(m0, p))
    else
      && Counted(m, o) && cur.p in o && Free(m, cur.p) == Free(m0, p)
      && Low8(count + Freed(m, cur.p)) == Low8(Freed(m0, p))
  }

  lemma DroppingFirst(m0: Pbufs, o: multiset<Ref>, p: Ref)
    requires Counted(m0, o) && p in o
    ensures Dropping(m0, p, m0, o, To(p), 0)
  {
    hide Low8, Free, Freed, Counted;
  }

  lemma DroppingLast(m0: Pbufs, p: Ref, m: Pbufs, o: multiset<Ref>, count: u8)
    requires Dropping(m0, p, m, o, Null, count)
    ensures m == Free(m0, p) && count == Low8(Freed(m0, p))
  {
  }

  lemma DroppingNext(m0: Pbufs, p: Ref, m: Pbufs, o: multiset<Ref>, c: Ref, count: u8)
    requires Dropping(m0, p, m, o, To(c), count)
    ensures c in m && m[c].ref > 0
    ensures m[c].ref == 1 ==> Dropping(m0, p, Remove(m, c), Handed(m, o, c), m[c].next, Low8(count + 1))
    ensures m[c].ref > 1 ==> Dropping(m0, p, m[c := m[c].(ref := m[c].ref - 1)], o, Null, count)
  {
    hide Low8, Free, Freed, Counted, Remove, Handed;
    RefPositive(m, o, c);
    FreeUnfold(m, c);
    Low8Add(count, 0);
    if m[c].ref == 1 {
      RemoveCounted(m, o, c);
      HandedOn(m, o, c);
      if m[c].next.To? { Low8Add(count + 1, Freed(Remove(m, c), m[c].next.p)); }
    }
  }

  /** All pbufs of a chain are full but the last, which is not empty unless it is the
      only one. */
  ghost predicate Filled(lens: seq<nat>, first: nat, bufsize: nat) {
    && lens != []
    && forall i :: 0 <= i < |lens| ==>
         var room := if i == 0 then first else bufsize;
         lens[i] <= room && (i + 1 < |lens| ==> lens[i] == room) && (i > 0 ==> lens[i] > 0)
  }

  /** The chain so far, with rem bytes to go. */
  ghost predicate Filling(lens: seq<nat>, length: nat, rem: nat, first: nat, bufsize: nat) {
    && Filled(lens, first, bufsize)
    && (if rem > 0 then length - rem == first + (|lens| - 1) * bufsize && Filled(lens + [1], first, bufsize)
        else length <= first + (|lens| - 1) * bufsize)
  }

  lemma FillingFirst(n: nat, length: nat, first: nat, bufsize: nat)
    requires n == Min(length, first) && 0 < bufsize
    ensures Filling([n], length, length - n, first, bufsize)
  {
    assert [n] + [1] == [n, 1];
  }

  lemma FillingNext(lens: seq<nat>, n: nat, length: nat, rem: nat, first: nat, bufsize: nat)
    requires Filling(lens, length, rem, first, bufsize) && 0 < rem && 0 < bufsize && n == Min(rem, bufsize)
    ensures Filling(lens + [n], length, rem - n, first, bufsize)
  {
    var r := lens + [n];
    assert forall i :: 0 <= i < |lens| ==> (lens + [1])[i] == lens[i];
    assert (|r| - 1) * bufsize == (|lens| - 1) * bufsize + bufsize;
    assert forall i :: 0 <= i < |r| ==> (r + [1])[i] == r[i];
  }

  lemma FillingMeans(lens: seq<nat>, length: nat, rem: nat, first: nat, bufsize: nat, n: nat)
    requires Filling(lens, length, rem, first, bufsize) && |lens| <= n
    ensures Filled(lens, first, bufsize)
    ensures rem == 0 ==> length <= first + (n - 1) * bufsize
    ensures rem > 0 && |lens| == n ==> length > first + (n - 1) * bufsize
  {
    assert (|lens| - 1) * bufsize <= (n - 1) * bufsize;
  }

  lemma StepFree(st: State, p: Ref)
    requires Good(st) && p in st.out
    ensures Step(st, DoFree(p)) == st.(m := Free(st.m, p), out := st.out - multiset{p})
  {
    hide Good, Free;
  }

  lemma StepDechain(st: State, p: Ref)
    requires Good(st) && p in st.m
    ensures Step(st, DoDechain(p)) == st.(m := Dechain(st.m, p))
    ensures Dechain(st.m, p) == if st.m[p].next == Null then st.m else Free(SetNext(st.m, p, Null), st.m[p].next.p)
  {
    hide Good, Free;
  }

  lemma CatParts(st: State, h: Ref, t: Ref)
    requires Good(st) && Legal(st, DoCat(h, t))
    ensures h in st.m && t in st.m && Step(st, DoCat(h, t)) == Cat(st, h, t)
    ensures Cat(st, h, t).m == SetNext(st.m, Last(st.m, st.rank, h), To(t))
  {
    hide Acyclic, Last;
    OutLive(st.m, st.out);
  }

  lemma SumNone()
    ensures Sum([]) == 0
  {
  }

  lemma RefPositive(m: Pbufs, out: multiset<Ref>, p: Ref)
    requires Counted(m, out) && p in out
    ensures p in m && m[p].ref > 0
  {
    assert p in m && CountedAt(m, out, p);
  }

  lemma FreeUnfold(m: Pbufs, p: Ref)
    requires p in m
    ensures m[p].ref > 1 ==> Free(m, p) == m[p := m[p].(ref := m[p].ref - 1)] && Freed(m, p) == 0
    ensures m[p].ref <= 1 && m[p].next == Null ==> Free(m, p) == Remove(m, p) && Freed(m, p) == 1
    ensures m[p].ref <= 1 && m[p].next.To? ==>
              Free(m, p) == Free(Remove(m, p), m[p].next.p) && Freed(m, p) == 1 + Freed(Remove(m, p), m[p].next.p)
  {
  }

  /** The first pbuf of a chain goes if and only if any does. */
  lemma FreeHead(m: Pbufs, p: Ref)
    requires p in m
    ensures p in Free(m, p) <==> Freed(m, p) == 0
  {
    if m[p].ref <= 1 && m[p].next.To? { FreeShape(Remove(m, p), m[p].next.p); }
  }

  lemma LastNext(m: Pbufs, rank: map<Ref, nat>, p: Ref)
    requires Acyclic(m, rank) && p in m && m[p].next.To?
    ensures Last(m, rank, m[p].next.p) == Last(m, rank, p)
  {
  }

  lemma UnlinkGood(st: State, p: Ref)
    requires Good(st) && p in st.m && st.m[p].next.To?
    ensures Good(State(SetNext(st.m, p, Null), st.out + multiset{st.m[p].next.p}, st.rank))
    ensures st.m[p].next.p in st.m
  {
    UnlinkCounted(st.m, st.out, p);
    hide Counted;
  }

  function Sum(lens: seq<nat>): nat {
    if lens == [] then 0 else Sum(lens[..|lens| - 1]) + lens[|lens| - 1]
  }

  lemma SumSnoc(lens: seq<nat>, n: nat)
    ensures Sum(lens + [n]) == Sum(lens) + n && [] + [n] == [n]
  {
    assert (lens + [n])[..|lens|] == lens;
  }

  lemma BuiltOne(m: Pbufs, p: Ref, n: nat)
    ensures Built(m, [p], [n]) == m[p := Pbuf(Null, Zeros(n), 1)]
  {
    assert [p][1..] == [] && [n][1..] == [];
  }

  lemma FreshPrefix(m: Pbufs, pool: seq<Ref>, k: nat)
    requires Fresh(m, pool) && k <= |pool|
    ensures Fresh(m, pool[..k]) && (k < |pool| ==> Fresh(m, pool[..k + 1]))
    ensures k > 0 ==> Fresh(m, pool[..k - 1])
  {
  }

  // --------------------------------------------------------------- copying out

  /** The bytes of a chain. */
  function Flat(p: seq<seq<byte>>): seq<byte> {
    if p == [] then [] else p[0] + Flat(p[1..])
  }

  /** pbuf_copy_partial on the payloads of a chain: len bytes from offset on, or
      what there is of them. */
  method PbufCopyPartial(buf: seq<seq<byte>>, len0: nat, offset0: nat) returns (data: seq<byte>)
    ensures var all := Flat(buf);
            data == if offset0 >= |all| then []
                    else all[offset0..if offset0 + len0 < |all| then offset0 + len0 else |all|]
  {
    hide Flat, Window;
    var len: nat, offset: nat, i: nat := len0, offset0, 0;
    data := [];
    assert buf[0..] == buf;
    WindowMeans(Flat(buf), offset0, len0);
    while len != 0 && i < |buf|
      invariant 0 <= i <= |buf|
      invariant data + Window(Flat(buf[i..]), offset, len) == Window(Flat(buf), offset0, len0)
    {
      FlatFirst(buf, i);
      if offset != 0 && offset >= |buf[i]| {
        // don't copy from this buffer
        WindowSkip(buf[i], Flat(buf[i + 1..]), offset, len);
        offset := offset - |buf[i]|;
      } else {
        var n: nat := |buf[i]| - offset;
        if n > len {
          n := len;
        }
        WindowTake(buf[i], Flat(buf[i + 1..]), offset, len, n);
        data := data + buf[i][offset..offset + n];
        len := len - n;
        offset := 0;
      }
      i := i + 1;
    }
    WindowEmpty(buf, i, offset, len);
  }

  lemma WindowMeans(all: seq<byte>, offset: nat, len: nat)
    ensures Window(all, offset, len) == if offset >= |all| then []
                                        else all[offset..if offset + len < |all| then offset + len else |all|]
  {
  }

  lemma WindowEmpty(buf: seq<seq<byte>>, i: nat, offset: nat, len: nat)
    requires i <= |buf| && (len == 0 || i == |buf|)
    ensures Window(Flat(buf[i..]), offset, len) == []
  {
  }

  function Window(all: seq<byte>, offset: nat, len: nat): seq<byte> {
    if offset >= |all| then [] else all[offset..if offset + len < |all| then offset + len else |all|]
  }

  lemma FlatFirst(buf: seq<seq<byte>>, i: nat)
    requires i < |buf|
    ensures Flat(buf[i..]) == buf[i] + Flat(buf[i + 1..])
  {
    assert buf[i..][1..] == buf[i + 1..];
  }

  lemma WindowSkip(a: seq<byte>, b: seq<byte>, offset: nat, len: nat)
    requires offset >= |a|
    ensures Window(a + b, offset, len) == Window(b, offset - |a|, len)
  {
  }

  lemma WindowTake(a: seq<byte>, b: seq<byte>, offset: nat, len: nat, n: nat)
    requires offset <= |a| && n == if |a| - offset > len then len else |a| - offset
    ensures Window(a + b, offset, len) == a[offset..offset + n] + Window(b, 0, len - n)
  {
  }

  lemma {:induction false} FreedBuilt(m: Pbufs, ps: seq<Ref>, lens: seq<nat>)
    requires |ps| == |lens| && ps != [] && Fresh(m, ps)
    ensures Freed(Built(m, ps, lens), ps[0]) == |ps|
    decreases |ps|
  {
    hide Zeros;
    BuiltKeys(m, ps[1..], lens[1..]);
    assert forall i :: 0 <= i < |ps| - 1 ==> ps[1..][i] == ps[i + 1];
    assert ps[0] !in ps[1..];
    assert Remove(Built(m, ps, lens), ps[0]) == Built(m, ps[1..], lens[1..]);
    if |ps| > 1 {
      FreshTail(m, ps);
      FreedBuilt(m, ps[1..], lens[1..]);
    }
  }

  /** What is built on top of a pbuf does not mind when that is added. */
  lemma {:induction false} BuiltBeside(m: Pbufs, ps: seq<Ref>, lens: seq<nat>, x: Ref, v: Pbuf)
    requires |ps| == |lens| && x !in ps
    ensures Built(m, ps, lens)[x := v] == Built(m[x := v], ps, lens)
    decreases |ps|
  {
    hide Zeros;
    if ps != [] {
      assert forall i :: 0 <= i < |ps| - 1 ==> ps[1..][i] == ps[i + 1];
      BuiltBeside(m, ps[1..], lens[1..], x, v);
    }
  }

  /** Taking the head off a fresh chain, as pbuf_alloc makes it, gives up all the
      others; with 257 of them pbuf_free counts 0, and the tail is taken to be
      alive. */
  lemma LongTailExample(m: Pbufs, ps: seq<Ref>, lens: seq<nat>)
    requires |ps| == |lens| == 257 && Fresh(m, ps)
    ensures var c := Built(m, ps, lens);
            && ps[0] in c && c[ps[0]].next == To(ps[1])
            && Low8(Freed(SetNext(c, ps[0], Null), ps[1])) == 0 && ps[1] !in Dechain(c, ps[0])
  {
    hide Zeros, Free, Freed;
    var c, v := Built(m, ps, lens), Pbuf(Null, Zeros(lens[0]), 1);
    var base := m[ps[0] := v];
    assert forall i :: 0 <= i < |ps| - 1 ==> ps[1..][i] == ps[i + 1];
    assert ps[0] !in ps[1..];
    BuiltBeside(m, ps[1..], lens[1..], ps[0], v);
    assert SetNext(c, ps[0], Null) == Built(base, ps[1..], lens[1..]);
    FreedBuilt(base, ps[1..], lens[1..]);
    FreeUndoesBuilt(base, ps[1..], lens[1..]);
  }
}
