// The heap of mem.c seen as a row of blocks, and what its operations promise.
//
// The configuration is the one of opt.h: 4-byte alignment, 16-bit mem_size_t,
// so struct mem takes SIZEOF_MEM bytes once aligned.
module HeapLayout {

  const SIZEOF_MEM: int := 8    // SIZEOF_STRUCT_MEM
  const MIN_SIZE: int := 12     // MIN_SIZE_ALIGNED

  /** A block: its header's offset, its extent (header included), its state. */
  datatype Blk = Blk(off: int, size: int, used: bool) {
    function End(): int { off + size }

    /** The bytes a user gets. */
    function Payload(): int { size - SIZEOF_MEM }
  }

  /** The blocks tile [0, n) in order, each aligned and large enough. */
  ghost predicate Tiled(a: seq<Blk>, n: int) {
    && a != [] && a[0].off == 0 && a[|a| - 1].End() == n
    && (forall i :: 0 <= i < |a| ==> Sound(a[i]))
    && (forall i {:trigger a[i].End()} :: 0 <= i < |a| - 1 ==> a[i].End() == a[i + 1].off)
  }

  lemma {:induction false} Ascending(a: seq<Blk>, n: int, i: nat, j: nat)
    requires Tiled(a, n) && i < j < |a|
    ensures a[i].End() <= a[j].off
  {
    if i + 1 < j {
      Ascending(a, n, i, j - 1);
      assert a[j - 1].End() == a[j].off;
    }
  }

  lemma ChainAt(a: seq<Blk>, n: int, i: nat)
    requires Tiled(a, n) && i < |a|
    ensures Sound(a[i]) && (i + 1 < |a| ==> a[i].End() == a[i + 1].off && Sound(a[i + 1]))
    ensures i + 1 == |a| ==> a[i].End() == n
  {
    assert i + 1 < |a| ==> a[i].End() == a[i + 1].off;
  }

  /** Two neighbours as one block. */
  lemma JoinStretch(a: seq<Blk>, n: int, i: nat)
    requires Tiled(a, n) && i + 1 < |a|
    ensures TilesStretch([Blk(a[i].off, a[i].size + a[i + 1].size, false)], a[i].off, a[i + 1].End())
  {
    ChainAt(a, n, i);
  }

  /** Blocks lie in the heap and do not overlap. */
  lemma Disjoint(a: seq<Blk>, n: int)
    requires Tiled(a, n)
    ensures forall i, j :: 0 <= i < j < |a| ==> a[i].End() <= a[j].off
    ensures forall i :: 0 <= i < |a| ==> 0 <= a[i].off < a[i].End() <= n
    ensures a[0].off == 0
  {
    forall i, j | 0 <= i < j < |a|
      ensures a[i].End() <= a[j].off
    {
      Ascending(a, n, i, j);
    }
  }

  /** mid tiles the stretch from lo to hi. */
  ghost predicate TilesStretch(mid: seq<Blk>, lo: int, hi: int) {
    && mid != [] && mid[0].off == lo && mid[|mid| - 1].End() == hi
    && (forall x :: 0 <= x < |mid| ==> Sound(mid[x]))
    && (forall x {:trigger mid[x].End()} :: 0 <= x < |mid| - 1 ==> mid[x].End() == mid[x + 1].off)
  }

  ghost predicate Sound(b: Blk) {
    0 <= b.off && b.off % 4 == 0 && b.size % 4 == 0 && SIZEOF_MEM + MIN_SIZE <= b.size
  }

  /** No two adjacent blocks are free. */
  ghost predicate Coalesced(a: seq<Blk>) {
    forall i, j :: 0 <= i && i + 1 == j < |a| ==> a[i].used || a[j].used
  }

  /** lfree is the lowest free block, or n. */
  ghost predicate LowestFree(a: seq<Blk>, n: int, lfree: int) {
    && (forall i :: 0 <= i < |a| && !a[i].used ==> lfree <= a[i].off)
    && (lfree == n || exists i :: 0 <= i < |a| && !a[i].used && a[i].off == lfree)
  }

  /** Bytes in used blocks. */
  ghost function Used(a: seq<Blk>): int {
    if a == [] then 0 else Used(a[..|a| - 1]) + if a[|a| - 1].used then a[|a| - 1].size else 0
  }

  ghost predicate Live(a: seq<Blk>, b: Blk) {
    b in a && b.used
  }

  /** The index of the block at off, or |a|. */
  ghost function IndexAt(a: seq<Blk>, off: int): (i: nat)
    ensures i <= |a|
    ensures i < |a| ==> a[i].off == off
    ensures forall k :: 0 <= k < i ==> a[k].off != off
  {
    if a == [] || a[0].off == off then 0 else 1 + IndexAt(a[1..], off)
  }

  /** A block a user holds starts at off. */
  ghost predicate LiveAt(a: seq<Blk>, off: int) {
    IndexAt(a, off) < |a| && a[IndexAt(a, off)].used
  }

  // ----------------------------------------------------------------- operations

  /** (size + 3) & ~3 in 16 bits, at least MIN_SIZE. */
  function Rounded(size: nat): (r: nat)
    ensures r % 4 == 0 && MIN_SIZE <= r
  {
    var aligned := (size + 3) / 4 * 4 % 0x1_0000;
    if aligned < MIN_SIZE then MIN_SIZE else aligned
  }

  predicate FitsIn(b: Blk, size: int) {
    !b.used && b.Payload() >= size
  }

  /** The first free block that fits, or |a|. */
  function FirstFit(a: seq<Blk>, size: int): (i: nat)
    ensures i <= |a|
    ensures i < |a| ==> FitsIn(a[i], size)
    ensures forall k :: 0 <= k < i ==> !FitsIn(a[k], size)
  {
    if a == [] || FitsIn(a[0], size) then 0 else 1 + FirstFit(a[1..], size)
  }

  /** Replace the k blocks at i. */
  function Replace(a: seq<Blk>, i: nat, k: nat, mid: seq<Blk>): seq<Blk>
    requires i + k <= |a|
  {
    a[..i] + mid + a[i + k..]
  }

  /** Put block i to use for size bytes; what is left over is split off if it
      can hold a block of its own. */
  function Take(a: seq<Blk>, i: nat, size: int): seq<Blk>
    requires i < |a|
  {
    Replace(a, i, 1, TakeFrom(a[i], size))
  }

  function TakeFrom(b: Blk, size: int): (mid: seq<Blk>)
    ensures mid != []
  {
    if b.Payload() >= size + SIZEOF_MEM + MIN_SIZE then
      [Blk(b.off, SIZEOF_MEM + size, true), Blk(b.off + SIZEOF_MEM + size, b.size - SIZEOF_MEM - size, false)]
    else
      [b.(used := true)]
  }

  /** mem_malloc on a size that is not 0. */
  function Malloc(a: seq<Blk>, size: nat, n: int): seq<Blk> {
    var i := FirstFit(a, Rounded(size));
    if Rounded(size) > n || i == |a| then a else Take(a, i, Rounded(size))
  }

  /** Where the free stretch around free block i begins and ends. */
  function HoleLo(a: seq<Blk>, i: nat): (lo: nat)
    requires i < |a|
    ensures lo <= i
  {
    if i > 0 && !a[i - 1].used then i - 1 else i
  }

  function HoleHi(a: seq<Blk>, i: nat): (hi: nat)
    requires i < |a|
    ensures i < hi <= |a|
  {
    if i + 1 < |a| && !a[i + 1].used then i + 2 else i + 1
  }

  /** plug_holes: free block i and its free neighbours become one. */
  function PlugHoles(a: seq<Blk>, i: nat): seq<Blk>
    requires i < |a|
  {
    var lo, hi := HoleLo(a, i), HoleHi(a, i);
    Replace(a, lo, hi - lo, [Blk(a[lo].off, a[hi - 1].End() - a[lo].off, false)])
  }

  /** mem_free */
  function Free(a: seq<Blk>, i: nat): seq<Blk>
    requires i < |a|
  {
    PlugHoles(a[i := a[i].(used := false)], i)
  }

  /** mem_trim of block i to newsize bytes, which it is large enough for. */
  function Trim(a: seq<Blk>, i: nat, newsize: int): seq<Blk>
    requires i < |a|
  {
    var b, cut := a[i], SIZEOF_MEM + newsize;
    if b.Payload() == newsize then a
    else if i + 1 < |a| && !a[i + 1].used then
      Replace(a, i, 2, [Blk(b.off, cut, b.used), Blk(b.off + cut, b.size + a[i + 1].size - cut, false)])
    else if newsize + SIZEOF_MEM + MIN_SIZE <= b.Payload() then
      Replace(a, i, 1, [Blk(b.off, cut, b.used), Blk(b.off + cut, b.size - cut, false)])
    else a
  }

  /** mem_init */
  function Hole(n: int): seq<Blk> { [Blk(0, n, false)] }

  // -------------------------------------------------------- what they preserve

  ghost predicate Good(a: seq<Blk>, n: int) {
    Tiled(a, n) && Coalesced(a)
  }

  /** Replacing the k blocks at i by others that tile the same stretch. */
  lemma SpliceTiled(a: seq<Blk>, i: nat, k: nat, mid: seq<Blk>, n: int)
    requires Tiled(a, n) && i + k <= |a| && 0 < k
    requires TilesStretch(mid, a[i].off, a[i + k - 1].End())
    ensures Tiled(Replace(a, i, k, mid), n)
  {
    var r := Replace(a, i, k, mid);
    forall x {:trigger r[x].End()} | 0 <= x < |r| - 1
      ensures r[x].End() == r[x + 1].off
    {
      if x < i {
        assert r[x] == a[x] && a[x].End() == a[x + 1].off;
      } else if x < i + |mid| {
        assert r[x] == mid[x - i];
        assert x - i < |mid| - 1 ==> mid[x - i].End() == mid[x - i + 1].off;
        assert i + k < |a| ==> a[i + k - 1].End() == a[i + k].off;
      } else {
        assert r[x] == a[x - |mid| + k] && a[x - |mid| + k].End() == a[x - |mid| + k + 1].off;
      }
    }
  }

  lemma {:induction false} UsedSplice(a: seq<Blk>, b: seq<Blk>)
    ensures Used(a + b) == Used(a) + Used(b)
  {
    if b == [] {
      assert a + b == a;
    } else {
      assert (a + b)[..|a + b| - 1] == a + b[..|b| - 1];
      UsedSplice(a, b[..|b| - 1]);
    }
  }

  /** The statistic changes by what the replaced blocks change. */
  lemma UsedReplaced(a: seq<Blk>, i: nat, k: nat, mid: seq<Blk>)
    requires i + k <= |a|
    ensures Used(Replace(a, i, k, mid)) == Used(a) - Used(a[i..i + k]) + Used(mid)
  {
    UsedSplice(a[..i] + mid, a[i + k..]);
    UsedSplice(a[..i], mid);
    assert a == a[..i] + a[i..i + k] + a[i + k..];
    UsedSplice(a[..i] + a[i..i + k], a[i + k..]);
    UsedSplice(a[..i], a[i..i + k]);
  }

  lemma UsedOne(b: Blk)
    ensures Used([b]) == if b.used then b.size else 0
  {
    assert [b][..0] == [];
  }

  lemma UsedTwo(b: Blk, c: Blk)
    ensures Used([b, c]) == (if b.used then b.size else 0) + if c.used then c.size else 0
  {
    assert [b, c][..1] == [b];
    UsedOne(b);
  }

  /** What Good says around block i. */
  lemma Around(a: seq<Blk>, i: nat, n: int)
    requires Good(a, n) && i < |a|
    ensures Sound(a[i])
    ensures i + 1 < |a| ==> Sound(a[i + 1]) && a[i].End() == a[i + 1].off && (a[i].used || a[i + 1].used)
    ensures i + 2 < |a| ==> a[i + 1].used || a[i + 2].used
    ensures i > 0 ==> a[i - 1].End() == a[i].off && (a[i - 1].used || a[i].used)
  {
    assert i + 1 < |a| ==> a[i].End() == a[i + 1].off;
    assert i > 0 ==> a[i - 1].End() == a[i].off;
  }

  /** A block cut in two. */
  lemma CutStretch(off: int, cut: int, size: int, used: bool)
    requires 0 <= off && off % 4 == 0 && cut % 4 == 0 && size % 4 == 0
    requires SIZEOF_MEM + MIN_SIZE <= cut && SIZEOF_MEM + MIN_SIZE <= size - cut
    ensures TilesStretch([Blk(off, cut, used), Blk(off + cut, size - cut, false)], off, off + size)
  {
  }

  lemma CoalescedMid(mid: seq<Blk>)
    requires 0 < |mid| <= 2 && mid[0].used
    ensures Coalesced(mid)
  {
  }

  lemma ReplaceGood(a: seq<Blk>, i: nat, k: nat, mid: seq<Blk>, n: int)
    requires Good(a, n) && i + k <= |a| && 0 < k
    requires TilesStretch(mid, a[i].off, a[i + k - 1].End())
    requires Coalesced(mid)
    requires i > 0 ==> a[i - 1].used || mid[0].used
    requires i + k < |a| ==> mid[|mid| - 1].used || a[i + k].used
    ensures Good(Replace(a, i, k, mid), n)
    ensures Used(Replace(a, i, k, mid)) == Used(a) - Used(a[i..i + k]) + Used(mid)
    ensures i < |Replace(a, i, k, mid)| && Replace(a, i, k, mid)[i] == mid[0]
  {
    SpliceTiled(a, i, k, mid, n);
    SpliceCoalesced(a, i, k, mid);
    UsedReplaced(a, i, k, mid);
  }

  /** Splitting one used block off a free one, or taking it whole. */
  lemma TakeGood(a: seq<Blk>, i: nat, size: int, n: int)
    requires Good(a, n) && i < |a| && FitsIn(a[i], size) && size % 4 == 0 && MIN_SIZE <= size
    ensures Good(Take(a, i, size), n)
    ensures Used(Take(a, i, size)) == Used(a) + Take(a, i, size)[i].size
    ensures Take(a, i, size)[i] == TakeFrom(a[i], size)[0]
  {
    hide Good, Tiled, Coalesced, Used, Replace;
    Around(a, i, n);
    var b := a[i];
    var mid := TakeFrom(b, size);
    if |mid| == 2 {
      CutStretch(b.off, SIZEOF_MEM + size, b.size, true);
    }
    CoalescedMid(mid);
    ReplaceGood(a, i, 1, mid, n);
    assert a[i..i + 1] == [b];
    UsedOne(b);
    if |mid| == 2 { UsedTwo(mid[0], mid[1]); } else { UsedOne(mid[0]); }
  }

  lemma ReplaceAt(a: seq<Blk>, i: nat, k: nat, mid: seq<Blk>)
    requires i + k <= |a|
    ensures |Replace(a, i, k, mid)| == |a| - k + |mid|
    ensures forall x :: 0 <= x < i ==> Replace(a, i, k, mid)[x] == a[x]
    ensures forall x :: 0 <= x < |mid| ==> Replace(a, i, k, mid)[i + x] == mid[x]
    ensures mid != [] ==> Replace(a, i, k, mid)[i] == mid[0]
    ensures forall x :: i + k <= x < |a| ==> Replace(a, i, k, mid)[x - k + |mid|] == a[x]
  {
  }

  lemma SpliceCoalesced(a: seq<Blk>, i: nat, k: nat, mid: seq<Blk>)
    requires i + k <= |a| && 0 < k && mid != []
    requires forall x, y :: 0 <= x && x + 1 == y < |a| && (y < i || i + k <= x) ==> a[x].used || a[y].used
    requires Coalesced(mid)
    requires i > 0 ==> a[i - 1].used || mid[0].used
    requires i + k < |a| ==> mid[|mid| - 1].used || a[i + k].used
    ensures Coalesced(Replace(a, i, k, mid))
  {
    var r := Replace(a, i, k, mid);
    forall x, y | 0 <= x && x + 1 == y < |r|
      ensures r[x].used || r[y].used
    {
      if x < i {
        assert r[x] == a[x];
        assert y < i ==> r[y] == a[y] && (a[x].used || a[y].used);
      } else if x < i + |mid| {
        assert r[x] == mid[x - i];
        assert x - i < |mid| - 1 ==> mid[x - i].used || mid[y - i].used;
      } else {
        var z := x - |mid| + k;
        assert r[x] == a[z] && r[y] == a[z + 1] && (a[z].used || a[z + 1].used);
      }
    }
  }

  lemma TrimGood(a: seq<Blk>, i: nat, newsize: int, n: int)
    requires Good(a, n) && i < |a| && a[i].used
    requires newsize % 4 == 0 && MIN_SIZE <= newsize <= a[i].Payload()
    ensures i < |Trim(a, i, newsize)| && Trim(a, i, newsize)[i].off == a[i].off
    ensures Good(Trim(a, i, newsize), n)
    ensures Used(Trim(a, i, newsize)) == Used(a) - (a[i].size - Trim(a, i, newsize)[i].size)
  {
    hide Good, Tiled, Coalesced, Used, Replace;
    Around(a, i, n);
    var b, cut := a[i], SIZEOF_MEM + newsize;
    if b.Payload() == newsize {
    } else if i + 1 < |a| && !a[i + 1].used {
      CutStretch(b.off, cut, b.size + a[i + 1].size, true);
      var mid := [Blk(b.off, cut, true), Blk(b.off + cut, b.size + a[i + 1].size - cut, false)];
      CoalescedMid(mid);
      ReplaceGood(a, i, 2, mid, n);
      assert a[i..i + 2] == [b, a[i + 1]];
      UsedTwo(mid[0], mid[1]);
      UsedTwo(b, a[i + 1]);
    } else if newsize + SIZEOF_MEM + MIN_SIZE <= b.Payload() {
      CutStretch(b.off, cut, b.size, true);
      var mid := [Blk(b.off, cut, true), Blk(b.off + cut, b.size - cut, false)];
      CoalescedMid(mid);
      ReplaceGood(a, i, 1, mid, n);
      assert a[i..i + 1] == [b];
      UsedTwo(mid[0], mid[1]);
      UsedOne(b);
    }
  }

  /** The free stretch around a used block tiles what its parts tiled. */
  lemma HoleStretch(a: seq<Blk>, i: nat, n: int)
    requires Good(a, n) && i < |a| && a[i].used
    ensures var lo, hi := HoleLo(a, i), HoleHi(a, i);
            && TilesStretch([Blk(a[lo].off, a[hi - 1].End() - a[lo].off, false)], a[lo].off, a[hi - 1].End())
            && (lo > 0 ==> a[lo - 1].used) && (hi < |a| ==> a[hi].used)
  {
    hide Good, Tiled, Coalesced;
    var lo := HoleLo(a, i);
    Around(a, i, n);
    Around(a, lo, n);
    if i + 1 < |a| { Around(a, i + 1, n); }
  }

  lemma HoleUsed(a: seq<Blk>, i: nat)
    requires i < |a| && a[i].used
    ensures Used(a[HoleLo(a, i)..HoleHi(a, i)]) == a[i].size
  {
    hide Used;
    var lo, hi := HoleLo(a, i), HoleHi(a, i);
    UsedOne(a[i]);
    if lo < i {
      UsedTwo(a[i - 1], a[i]);
      assert a[lo..i + 1] == [a[i - 1], a[i]];
    } else {
      assert a[lo..i + 1] == [a[i]];
    }
    if hi > i + 1 {
      UsedOne(a[i + 1]);
      assert a[lo..hi] == a[lo..i + 1] + [a[i + 1]];
      UsedSplice(a[lo..i + 1], [a[i + 1]]);
    }
  }

  lemma FreeIsReplace(a: seq<Blk>, i: nat)
    requires i < |a| && a[i].used
    ensures var lo, hi := HoleLo(a, i), HoleHi(a, i);
            Free(a, i) == Replace(a, lo, hi - lo, [Blk(a[lo].off, a[hi - 1].End() - a[lo].off, false)])
  {
    var lo, hi := HoleLo(a, i), HoleHi(a, i);
    var b := a[i := a[i].(used := false)];
    assert HoleLo(b, i) == lo && HoleHi(b, i) == hi;
    assert b[..lo] == a[..lo] && b[hi..] == a[hi..];
  }

  lemma FreeGood(a: seq<Blk>, i: nat, n: int)
    requires Good(a, n) && i < |a| && a[i].used
    ensures Good(Free(a, i), n)
    ensures Used(Free(a, i)) == Used(a) - a[i].size
  {
    hide Good, Used, Free, Replace, TilesStretch;
    HoleStretch(a, i, n);
    HoleUsed(a, i);
    FreeIsReplace(a, i);
    var lo, hi := HoleLo(a, i), HoleHi(a, i);
    var hole := Blk(a[lo].off, a[hi - 1].End() - a[lo].off, false);
    ReplaceGood(a, lo, hi - lo, [hole], n);
    UsedOne(hole);
  }

  // ------------------------------------------------------------ live blocks

  lemma InReplace(a: seq<Blk>, i: nat, k: nat, mid: seq<Blk>, x: Blk)
    requires i + k <= |a|
    ensures x in Replace(a, i, k, mid) <==> x in a[..i] || x in mid || x in a[i + k..]
    ensures x in a <==> x in a[..i] || x in a[i..i + k] || x in a[i + k..]
  {
    assert a == a[..i] + a[i..i + k] + a[i + k..];
  }

  /** A block inside the replaced stretch is nowhere else. */
  lemma OnlyOnce(a: seq<Blk>, n: int, i: nat, k: nat, x: Blk)
    requires Tiled(a, n) && i + k <= |a| && x in a[i..i + k]
    ensures x !in a[..i] && x !in a[i + k..]
  {
    Disjoint(a, n);
    var j :| i <= j < i + k && a[j] == x;
    assert Sound(a[j]);
  }

  /** Allocation adds one live block and leaves the others as they are. */
  lemma TakeLive(a: seq<Blk>, i: nat, size: int, n: int, x: Blk)
    requires Good(a, n) && i < |a| && FitsIn(a[i], size) && size % 4 == 0 && MIN_SIZE <= size
    ensures Live(Take(a, i, size), x) <==> Live(a, x) || x == TakeFrom(a[i], size)[0]
  {
    InReplace(a, i, 1, TakeFrom(a[i], size), x);
    assert a[i..i + 1] == [a[i]];
  }

  /** Freeing removes one live block and leaves the others as they are. */
  lemma FreeLive(a: seq<Blk>, i: nat, n: int, x: Blk)
    requires Good(a, n) && i < |a| && a[i].used
    ensures Live(Free(a, i), x) <==> Live(a, x) && x != a[i]
  {
    FreeIsReplace(a, i);
    var lo, hi := HoleLo(a, i), HoleHi(a, i);
    var hole := Blk(a[lo].off, a[hi - 1].End() - a[lo].off, false);
    InReplace(a, lo, hi - lo, [hole], x);
    OnlyOnce(a, n, lo, hi - lo, a[i]) by { assert a[lo..hi][i - lo] == a[i]; }
    hide Good, Tiled, Coalesced, Free, Replace;
    if x in a[lo..hi] && x.used {
      assert x == a[i];
    }
  }

  /** Shrinking changes one live block and leaves the others as they are. */
  lemma TrimLive(a: seq<Blk>, i: nat, newsize: int, n: int, x: Blk)
    requires Good(a, n) && i < |a| && a[i].used
    requires newsize % 4 == 0 && MIN_SIZE <= newsize <= a[i].Payload()
    ensures i < |Trim(a, i, newsize)|
    ensures Live(Trim(a, i, newsize), x) <==>
            x == Trim(a, i, newsize)[i] || (Live(a, x) && x != a[i])
    ensures newsize <= Trim(a, i, newsize)[i].Payload() <= a[i].Payload()
    ensures Trim(a, i, newsize)[i].off == a[i].off
  {
    hide Good, Tiled, Coalesced, Replace;
    TrimGood(a, i, newsize, n);
    var b, cut := a[i], SIZEOF_MEM + newsize;
    if b.Payload() == newsize {
    } else if i + 1 < |a| && !a[i + 1].used {
      var mid := [Blk(b.off, cut, true), Blk(b.off + cut, b.size + a[i + 1].size - cut, false)];
      ReplaceAt(a, i, 2, mid);
      assert a[i..i + 2] == [b, a[i + 1]];
      ReplaceLive(a, i, 2, mid, n, x);
    } else if newsize + SIZEOF_MEM + MIN_SIZE <= b.Payload() {
      var mid := [Blk(b.off, cut, true), Blk(b.off + cut, b.size - cut, false)];
      ReplaceAt(a, i, 1, mid);
      assert a[i..i + 1] == [b];
      ReplaceLive(a, i, 1, mid, n, x);
    }
  }

  /** Live blocks after a splice. */
  lemma ReplaceLive(a: seq<Blk>, i: nat, k: nat, mid: seq<Blk>, n: int, x: Blk)
    requires Good(a, n) && i + k <= |a|
    ensures Live(Replace(a, i, k, mid), x) <==>
            x.used && (x in mid || (x in a && x !in a[i..i + k]))
  {
    InReplace(a, i, k, mid, x);
    if x in a[i..i + k] { OnlyOnce(a, n, i, k, x); }
  }
}
