// Guarantees of the heap: over every run of its operations, for every request,
// and after everything has been given back.
module HeapTheorems {
  import opened HeapLayout
  import opened Heap

  datatype Op = Alloc(size: nat) | Release(off: int) | Shrink(off: int, newsize: nat)

  ghost function Step(a: seq<Blk>, op: Op, n: int): seq<Blk> {
    match op
    case Alloc(size) => if size == 0 then a else Malloc(a, size, n)
    case Release(off) => if LiveAt(a, off) then Free(a, IndexAt(a, off)) else a
    case Shrink(off, newsize) =>
      if LiveAt(a, off) && Rounded(newsize) <= a[IndexAt(a, off)].Payload()
      then Trim(a, IndexAt(a, off), Rounded(newsize)) else a
  }

  ghost function Run(a: seq<Blk>, ops: seq<Op>, n: int): seq<Blk>
    decreases |ops|
  {
    if ops == [] then a else Run(Step(a, ops[0], n), ops[1..], n)
  }

  lemma StepGood(a: seq<Blk>, op: Op, n: int)
    requires Good(a, n)
    ensures Good(Step(a, op, n), n)
  {
    match op
    case Alloc(size) =>
      var i := FirstFit(a, Rounded(size));
      if size > 0 && i < |a| { TakeGood(a, i, Rounded(size), n); }
    case Release(off) =>
      if LiveAt(a, off) { FreeGood(a, IndexAt(a, off), n); }
    case Shrink(off, newsize) =>
      if LiveAt(a, off) && Rounded(newsize) <= a[IndexAt(a, off)].Payload() {
        TrimGood(a, IndexAt(a, off), Rounded(newsize), n);
      }
  }

  /** Any run of mem_malloc, mem_free and mem_trim leaves blocks that tile the
      heap, with no two free neighbours. */
  lemma {:induction false} RunGood(a: seq<Blk>, ops: seq<Op>, n: int)
    requires Good(a, n)
    ensures Good(Run(a, ops, n), n)
    decreases |ops|
  {
    if ops != [] {
      StepGood(a, ops[0], n);
      RunGood(Step(a, ops[0], n), ops[1..], n);
    }
  }

  // ------------------------------------------------------------------ service

  /** Alignment arithmetic is 16 bits wide: the request is covered if and only if
      it is at most 0xFFFC. */
  lemma RoundedCovers(size: nat)
    requires 0 < size < 0x1_0000
    ensures size <= Rounded(size) <==> size <= 0xfffc
  {
  }

  /** And up to there it is the least size that a block can have and still hold the
      request. */
  lemma RoundedIsLeast(size: nat, m: nat)
    requires 0 < size <= 0xfffc && m % 4 == 0 && size <= m && 12 <= m
    ensures Rounded(size) <= m && Rounded(size) % 4 == 0 && size <= Rounded(size) && 12 <= Rounded(size)
  {
  }

  /** A request of 0xFFFE bytes is rounded to 0, raised to MIN_SIZE, and served
      with a block of 12 bytes. */
  lemma RoundingExample()
    ensures Malloc(Hole(1600), 0xfffe, 1600)[0] == Blk(0, SIZEOF_MEM + MIN_SIZE, true)
  {
    assert Rounded(0xfffe) == MIN_SIZE;
    assert FitsIn(Hole(1600)[0], MIN_SIZE);
    assert FirstFit(Hole(1600), MIN_SIZE) == 0;
  }

  /** nb is a new live block, aligned, apart from the others, which all stay. */
  ghost predicate Serves(a: seq<Blk>, b: seq<Blk>, nb: Blk, size: int) {
    && size <= nb.Payload() && nb.off % 4 == 0 && !Live(a, nb)
    && (forall x :: Live(b, x) <==> Live(a, x) || x == nb)
    && (forall x: Blk :: Live(a, x) ==> x.End() <= nb.off || nb.End() <= x.off)
  }

  lemma TakeServes(a: seq<Blk>, i: nat, size: int, n: int)
    requires Good(a, n) && i < |a| && FitsIn(a[i], size) && size % 4 == 0 && MIN_SIZE <= size
    ensures Serves(a, Take(a, i, size), TakeFrom(a[i], size)[0], size)
  {
    hide Good, Take;
    var nb, b := TakeFrom(a[i], size)[0], Take(a, i, size);
    GoodDisjoint(a, n);
    Around(a, i, n);
    forall x
      ensures Live(b, x) <==> Live(a, x) || x == nb
    {
      TakeLive(a, i, size, n, x);
    }
    assert forall k :: 0 <= k < |a| && k != i ==> a[k].End() <= nb.off || nb.End() <= a[k].off;
    forall x: Blk | Live(a, x)
      ensures x.End() <= nb.off || nb.End() <= x.off
    {
      var k :| 0 <= k < |a| && a[k] == x;
      assert k != i;
    }
    assert nb.off < nb.End();
  }

  /** mem_malloc serves every request of at most 0xFFFC bytes that some free block
      can hold: it adds one live block of at least that size, aligned and apart
      from all others, and leaves every live block as it is.  Otherwise nothing
      changes. */
  lemma MallocServes(a: seq<Blk>, size: nat, n: int)
    requires Good(a, n) && 0 < size <= 0xfffc && n <= 64000
    ensures (exists b :: b in a && FitsIn(b, Rounded(size))) ==>
              exists nb :: Serves(a, Malloc(a, size, n), nb, size)
    ensures !(exists b :: b in a && FitsIn(b, Rounded(size))) ==> Malloc(a, size, n) == a
  {
    var r := Rounded(size);
    RoundedCovers(size);
    var i := FirstFit(a, r);
    GoodDisjoint(a, n);
    hide Good, Rounded, Take, TakeFrom;
    if i < |a| {
      assert a[i] in a && r <= n;
      TakeServes(a, i, r, n);
      assert Serves(a, Malloc(a, size, n), TakeFrom(a[i], r)[0], size);
    } else {
      assert forall b :: b in a ==> !FitsIn(b, r);
    }
  }

  /** The block served lies as low as any that fits, and is no larger than the least
      size for the request unless what is left over could be no block of its own. */
  lemma MallocIsThrifty(a: seq<Blk>, size: nat, n: int, m: nat, nb: Blk, b: Blk)
    requires Good(a, n) && 0 < size <= 0xfffc && n <= 64000
    requires m % 4 == 0 && size <= m && 12 <= m && !b.used && b in a && b.Payload() >= m
    requires Live(Malloc(a, size, n), nb) && !Live(a, nb)
    ensures nb.off <= b.off && nb.Payload() < m + SIZEOF_MEM + 12
  {
    hide Good, Rounded, Take, TakeFrom, Live, FitsIn, Serves;
    RoundedIsLeast(size, m);
    var i := LowestFit(a, size, n, b);
    OneTaken(a, i, Rounded(size), n, nb);
  }

  lemma LowestFit(a: seq<Blk>, size: nat, n: int, b: Blk) returns (i: nat)
    requires Good(a, n) && 0 < size && !b.used && b in a && b.Payload() >= Rounded(size)
    ensures i < |a| && FitsIn(a[i], Rounded(size)) && Malloc(a, size, n) == Take(a, i, Rounded(size))
    ensures a[i].off <= b.off
  {
    GoodDisjoint(a, n);
    hide Rounded, Take, Good;
    i := FirstFit(a, Rounded(size));
    var j :| 0 <= j < |a| && a[j] == b;
    assert FitsIn(a[j], Rounded(size)) && i <= j;
    BlocksAscend(a, n, i, j);
  }

  /** The block that taking block i makes live. */
  lemma OneTaken(a: seq<Blk>, i: nat, size: int, n: int, nb: Blk)
    requires Good(a, n) && i < |a| && FitsIn(a[i], size) && size % 4 == 0 && MIN_SIZE <= size
    requires Live(Take(a, i, size), nb) && !Live(a, nb)
    ensures nb.off == a[i].off && nb.Payload() < size + SIZEOF_MEM + MIN_SIZE
  {
    hide Good, Take;
    TakeServes(a, i, size, n);
  }

  lemma BlocksAscend(a: seq<Blk>, n: int, i: nat, j: nat)
    requires Good(a, n) && i <= j < |a|
    ensures a[i].off <= a[j].off
  {
    GoodDisjoint(a, n);
  }

  /** mem_trim really gives the rest back: the block is cut to the least size unless
      what is left over could be no block of its own. */
  lemma TrimIsThrifty(a: seq<Blk>, i: nat, newsize: int, n: int)
    requires Good(a, n) && i < |a| && a[i].used && MIN_SIZE <= newsize <= a[i].Payload() && newsize % 4 == 0
    ensures |Trim(a, i, newsize)| > i
    ensures var b := Trim(a, i, newsize)[i];
            b.off == a[i].off && b.used && newsize <= b.Payload() < newsize + SIZEOF_MEM + 12
  {
  }

  // -------------------------------------------------------------- giving back

  lemma LiveAtMeans(a: seq<Blk>, n: int, i: nat)
    requires Good(a, n) && i < |a|
    ensures IndexAt(a, a[i].off) == i
  {
    GoodDisjoint(a, n);
    assert forall k :: 0 <= k < |a| && k != i ==> a[k].off != a[i].off;
  }

  /** The live blocks after a release, by offset. */
  lemma ReleaseLiveAt(a: seq<Blk>, n: int, off: int, x: int)
    requires Good(a, n) && LiveAt(a, off)
    ensures LiveAt(Free(a, IndexAt(a, off)), x) <==> LiveAt(a, x) && x != off
  {
    hide Good, Free, Tiled, Coalesced;
    var i := IndexAt(a, off);
    var b := Free(a, i);
    FreeGood(a, i, n);
    if LiveAt(b, x) {
      var y := b[IndexAt(b, x)];
      FreeLive(a, i, n, y);
      var k :| 0 <= k < |a| && a[k] == y;
      LiveAtMeans(a, n, k);
      assert x == off ==> k == i;
    }
    if LiveAt(a, x) && x != off {
      var y := a[IndexAt(a, x)];
      FreeLive(a, i, n, y);
      assert y in b;
      var k :| 0 <= k < |b| && b[k] == y;
      LiveAtMeans(b, n, k);
    }
  }

  /** With nothing in use the heap is the hole that mem_init made. */
  lemma EmptyIsHole(a: seq<Blk>, n: int)
    requires Good(a, n) && forall off :: !LiveAt(a, off)
    ensures a == Hole(n)
  {
    assert |a| > 1 ==> a[0].used || a[1].used;
    forall i | 0 <= i < |a|
      ensures !a[i].used
    {
      LiveAtMeans(a, n, i);
      assert !LiveAt(a, a[i].off);
    }
    assert a[0] == Blk(0, n, false);
  }

  ghost function Releases(order: seq<int>): (ops: seq<Op>)
    ensures |ops| == |order|
  {
    if order == [] then [] else [Release(order[0])] + Releases(order[1..])
  }

  /** Freeing all live blocks, in any order, gives back the single hole. */
  lemma {:induction false} FreeAllGivesHole(a: seq<Blk>, n: int, order: seq<int>)
    requires Good(a, n)
    requires forall i, j :: 0 <= i < j < |order| ==> order[i] != order[j]
    requires forall off :: off in order <==> LiveAt(a, off)
    ensures Run(a, Releases(order), n) == Hole(n)
    decreases |order|
  {
    if order == [] {
      EmptyIsHole(a, n);
    } else {
      var off := order[0];
      assert LiveAt(a, off) by { assert off in order; }
      var b := Free(a, IndexAt(a, off));
      FreeGood(a, IndexAt(a, off), n);
      var rest := order[1..];
      forall x
        ensures x in rest <==> LiveAt(b, x)
      {
        ReleaseLiveAt(a, n, off, x);
        assert x in order <==> x == off || x in rest;
      }
      assert Releases(order)[1..] == Releases(rest);
      FreeAllGivesHole(b, n, rest);
    }
  }

  /** And from mem_init on: whatever was done, freeing what is live at the end
      restores the heap as it was. */
  lemma RunThenFreeAll(n: int, ops: seq<Op>, order: seq<int>)
    requires n % 4 == 0 && SIZEOF_MEM + MIN_SIZE <= n <= 64000
    requires forall i, j :: 0 <= i < j < |order| ==> order[i] != order[j]
    requires forall off :: off in order <==> LiveAt(Run(Hole(n), ops, n), off)
    ensures Run(Run(Hole(n), ops, n), Releases(order), n) == Hole(n)
  {
    assert Good(Hole(n), n);
    RunGood(Hole(n), ops, n);
    FreeAllGivesHole(Run(Hole(n), ops, n), n, order);
  }

  // ------------------------------------------------------------ user's stores

  /** What a user stores into the payload of its own block cannot damage the
      heap: the struct mem cells that overlap the payload are no headers. */
  lemma StoresKeepRep(r: seq<Mem>, r': seq<Mem>, a: seq<Blk>, n: int, i: nat)
    requires Rep(r, a, n) && i < |a| && a[i].used && |r'| == |r|
    requires forall o :: 0 <= o < |r| && !(a[i].off < o < a[i].End()) ==> r'[o] == r[o]
    ensures Rep(r', a, n)
  {
    Disjoint(a, n);
    forall k | 0 <= k < |a|
      ensures HeaderOf(r', a, k)
    {
      assert HeaderOf(r, a, k);
      assert k != i ==> a[k].End() <= a[i].off || a[i].End() <= a[k].off;
    }
  }
}
