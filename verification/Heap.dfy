// The heap of mem.c: struct mem headers inside the ram array, and the lfree
// cursor.  The methods are proved to change the row of blocks as HeapLayout says
// and to touch no byte of a live block.
module Heap {
  import opened Words
  import opened HeapLayout

  /** struct mem */
  datatype Mem = Mem(next: u16, prev: u16, used: bool)

  datatype Pointer = Null | At(off: int)

  /** The headers in r describe the blocks of a; the last header ends the heap. */
  ghost predicate Rep(r: seq<Mem>, a: seq<Blk>, n: int) {
    && 0 <= n < 0x1_0000 && |r| == n + 1 && r[n].used && r[n].next == n
    && Tiled(a, n) && InHeap(a, n)
    && forall i :: 0 <= i < |a| ==> HeaderOf(r, a, i)
  }

  ghost predicate InHeap(a: seq<Blk>, n: int) {
    forall i :: 0 <= i < |a| ==> 0 <= a[i].off < a[i].End() <= n
  }

  ghost predicate Is(h: Mem, next: int, prev: int, used: bool) {
    h.next == next && h.prev == prev && h.used == used
  }

  ghost predicate HeaderOf(r: seq<Mem>, a: seq<Blk>, i: int)
    requires 0 <= i < |a|
  {
    0 <= a[i].off < |r| && Is(r[a[i].off], a[i].End(), PrevOf(a, i), a[i].used)
  }

  ghost function PrevOf(a: seq<Blk>, i: int): int
    requires 0 <= i < |a|
  {
    if i == 0 then 0 else a[i - 1].off
  }

  /** A header at off lies outside the payload of every live block. */
  ghost predicate Clear(off: int, a: seq<Blk>) {
    forall i :: 0 <= i < |a| && a[i].used ==> off <= a[i].off || a[i].End() <= off
  }

  /** Only headers that are clear of live payloads were written. */
  ghost predicate Untouched(r: seq<Mem>, r': seq<Mem>, a: seq<Blk>) {
    |r| == |r'| && forall off :: 0 <= off < |r| && r[off] != r'[off] ==> Clear(off, a)
  }

  /** A header at the start of a block, inside a free one, or at the end. */
  lemma HeaderClear(a: seq<Blk>, n: int, i: nat, off: int)
    requires Tiled(a, n)
    requires off == n || (i < |a| && a[i].off <= off < a[i].End() && (off == a[i].off || !a[i].used))
    ensures Clear(off, a)
  {
    Disjoint(a, n);
  }

  /** Headers after a splice. */
  lemma RepReplace(r: seq<Mem>, r': seq<Mem>, a: seq<Blk>, i: nat, k: nat, mid: seq<Blk>, n: int)
    requires Rep(r, a, n) && |r'| == |r| && i + k <= |a| && 0 < k && mid != []
    requires TilesStretch(mid, a[i].off, a[i + k - 1].End())
    requires forall x :: 0 <= x < i ==> r'[a[x].off] == r[a[x].off]
    requires forall x :: i + k < x < |a| ==> r'[a[x].off] == r[a[x].off]
    requires i + k < |a| ==> Is(r'[a[i + k].off], a[i + k].End(), mid[|mid| - 1].off, a[i + k].used)
    requires r'[n].used && r'[n].next == n
    requires forall x :: 0 <= x < |mid| ==>
               && 0 <= mid[x].off < |r'|
               && Is(r'[mid[x].off], mid[x].End(), if x == 0 then PrevOf(a, i) else mid[x - 1].off, mid[x].used)
    ensures Rep(r', Replace(a, i, k, mid), n)
  {
    hide Replace, Tiled, TilesStretch;
    var b := Replace(a, i, k, mid);
    ReplaceAt(a, i, k, mid);
    SpliceTiled(a, i, k, mid, n);
    Disjoint(b, n);
    hide InHeap, HeaderOf;
    forall y | 0 <= y < |b|
      ensures HeaderOf(r', b, y)
    {
      if y < i {
        assert HeaderOf(r, a, y);
        HeaderBefore(r, r', a, i, k, mid, y);
      } else if y < i + |mid| {
        HeaderMid(r', a, i, k, mid, y - i);
      } else {
        assert HeaderOf(r, a, y - |mid| + k);
        HeaderAfter(r, r', a, i, k, mid, y - |mid| + k);
      }
    }
  }

  lemma HeaderBefore(r: seq<Mem>, r': seq<Mem>, a: seq<Blk>, i: nat, k: nat, mid: seq<Blk>, x: nat)
    requires i + k <= |a| && 0 < k && mid != [] && x < i && |r| == |r'|
    requires HeaderOf(r, a, x) && r'[a[x].off] == r[a[x].off]
    ensures x < |Replace(a, i, k, mid)| && HeaderOf(r', Replace(a, i, k, mid), x)
  {
    ReplaceAt(a, i, k, mid);
    SpliceIndex(a, i, k, mid, x);
  }

  lemma HeaderMid(r': seq<Mem>, a: seq<Blk>, i: nat, k: nat, mid: seq<Blk>, x: nat)
    requires i + k <= |a| && 0 < k && x < |mid| && 0 <= mid[x].off < |r'|
    requires Is(r'[mid[x].off], mid[x].End(), if x == 0 then PrevOf(a, i) else mid[x - 1].off, mid[x].used)
    ensures i + x < |Replace(a, i, k, mid)| && HeaderOf(r', Replace(a, i, k, mid), i + x)
  {
    ReplaceAt(a, i, k, mid);
    SpliceIndex(a, i, k, mid, i + x);
  }

  lemma HeaderAfter(r: seq<Mem>, r': seq<Mem>, a: seq<Blk>, i: nat, k: nat, mid: seq<Blk>, x: nat)
    requires i + k <= x < |a| && 0 < k && mid != [] && |r| == |r'|
    requires HeaderOf(r, a, x) && 0 <= a[x].off < |r|
    requires if x == i + k then Is(r'[a[x].off], a[x].End(), mid[|mid| - 1].off, a[x].used)
             else r'[a[x].off] == r[a[x].off]
    ensures x - k + |mid| < |Replace(a, i, k, mid)| && HeaderOf(r', Replace(a, i, k, mid), x - k + |mid|)
  {
    ReplaceAt(a, i, k, mid);
    SpliceIndex(a, i, k, mid, x - k + |mid|);
  }

  /** Where the block at y of a splice comes from, and the one before it. */
  lemma SpliceIndex(a: seq<Blk>, i: nat, k: nat, mid: seq<Blk>, y: nat)
    requires i + k <= |a| && 0 < k && mid != [] && y < |a| - k + |mid|
    ensures var b := Replace(a, i, k, mid);
            && |b| == |a| - k + |mid|
            && (y < i ==> b[y] == a[y] && PrevOf(b, y) == PrevOf(a, y))
            && (i <= y < i + |mid| ==> b[y] == mid[y - i])
            && (y == i ==> PrevOf(b, y) == PrevOf(a, y))
            && (i < y < i + |mid| ==> PrevOf(b, y) == mid[y - i - 1].off)
            && (y == i + |mid| ==> b[y] == a[i + k] && PrevOf(b, y) == mid[|mid| - 1].off)
            && (y > i + |mid| ==> b[y] == a[y - |mid| + k] && PrevOf(b, y) == PrevOf(a, y - |mid| + k))
  {
    ReplaceAt(a, i, k, mid);
  }

  /** Block i and the next become one free block. */
  ghost function MergeAt(a: seq<Blk>, i: nat): seq<Blk>
    requires i + 1 < |a|
  {
    Replace(a, i, 2, [Blk(a[i].off, a[i].size + a[i + 1].size, false)])
  }

  /** The two writes that merge blocks i and i + 1. */
  lemma RepMerge(r: seq<Mem>, a: seq<Blk>, i: nat, n: int)
    requires Rep(r, a, n) && i + 1 < |a| && !a[i].used && !a[i + 1].used
    ensures var p, q := a[i].off, a[i + 1].End();
            && 0 <= p < q < |r| && q < 0x1_0000
            && Rep(r[p := r[p].(next := q)][q := r[q].(prev := p)], MergeAt(a, i), n)
  {
    hide Tiled, Replace, TilesStretch;
    var p, q := a[i].off, a[i + 1].End();
    Disjoint(a, n);
    ChainAt(a, n, i);
    ChainAt(a, n, i + 1);
    JoinStretch(a, n, i);
    assert HeaderOf(r, a, i) && HeaderOf(r, a, i + 1);
    assert i + 2 < |a| ==> HeaderOf(r, a, i + 2);
    var r' := r[p := r[p].(next := q)][q := r[q].(prev := p)];
    assert forall x :: 0 <= x < i ==> a[x].End() <= p;
    assert forall x :: i + 2 < x < |a| ==> a[i + 2].End() <= a[x].off;
    var mid := [Blk(p, a[i].size + a[i + 1].size, false)];
    assert mid[0].End() == q;
    assert Is(r'[p], q, PrevOf(a, i), false);
    RepReplace(r, r', a, i, 2, mid, n);
  }

  /** lfree is a free block and, but for the free stretch of blocks lo to hi in
      which it may itself lie, no free block is lower. */
  ghost predicate LowestBut(a: seq<Blk>, lo: nat, hi: nat, lfree: int)
    requires lo < hi <= |a|
  {
    && (exists k :: 0 <= k < |a| && !a[k].used && a[k].off == lfree)
    && forall k :: 0 <= k < |a| && !a[k].used ==>
         lfree <= a[k].off || (lo <= k < hi && a[lo].off <= lfree <= a[hi - 1].off)
  }

  lemma LowestButIsLowest(a: seq<Blk>, i: nat, n: int, lfree: int)
    requires i < |a| && LowestBut(a, i, i + 1, lfree)
    ensures LowestFree(a, n, lfree)
  {
  }

  /** Block x after a merge at i is block Old(x) before it. */
  ghost function Old(i: nat, x: int): int { if x <= i then x else x + 1 }

  lemma MergeAtIndex(a: seq<Blk>, i: nat)
    requires i + 1 < |a| && !a[i].used
    ensures var b := MergeAt(a, i);
            && |b| == |a| - 1
            && forall x :: 0 <= x < |b| ==> b[x].off == a[Old(i, x)].off && b[x].used == a[Old(i, x)].used
  {
    hide Replace;
    var b, mid := MergeAt(a, i), [Blk(a[i].off, a[i].size + a[i + 1].size, false)];
    ReplaceAt(a, i, 2, mid);
    forall x | 0 <= x < |b|
      ensures b[x].off == a[Old(i, x)].off && b[x].used == a[Old(i, x)].used
    {
      if x < i {
        assert b[x] == a[x];
      } else if x == i {
        assert b[x] == mid[0];
      } else {
        assert b[(x + 1) - 2 + |mid|] == a[x + 1];
      }
    }
  }

  /** What a merge and its adjustment of lfree keep. */
  lemma MergeLowest(a: seq<Blk>, i: nat, lo: nat, n: int, lfree: int)
    requires Tiled(a, n) && lo <= i && i + 1 < |a| && !a[i].used && !a[i + 1].used
    requires LowestBut(a, lo, i + 2, lfree)
    ensures |MergeAt(a, i)| == |a| - 1
    ensures LowestBut(MergeAt(a, i), lo, i + 1, if lfree == a[i + 1].off then a[i].off else lfree)
  {
    hide Tiled, MergeAt;
    Disjoint(a, n);
    MergeAtIndex(a, i);
    var b, l := MergeAt(a, i), if lfree == a[i + 1].off then a[i].off else lfree;
    var k :| 0 <= k < |a| && !a[k].used && a[k].off == lfree;
    var k' := if k <= i then k else k - 1;
    assert k != i + 1 ==> Old(i, k') == k;
    assert !b[k'].used && b[k'].off == l;
    assert l == lfree || (l == a[i].off && lfree == a[i + 1].off);
    forall x | 0 <= x < |b| && !b[x].used
      ensures l <= b[x].off || (lo <= x < i + 1 && b[lo].off <= l <= b[i].off)
    {
      assert lfree <= a[Old(i, x)].off || (lo <= Old(i, x) < i + 2 && a[lo].off <= lfree <= a[i + 1].off);
    }
  }

  ghost function Forward(a: seq<Blk>, i: nat): seq<Blk>
    requires i < |a|
  {
    if i + 1 < |a| && !a[i + 1].used then MergeAt(a, i) else a
  }

  ghost function Backward(b: seq<Blk>, i: nat): seq<Blk>
    requires i < |b|
  {
    if i > 0 && !b[i - 1].used then MergeAt(b, i - 1) else b
  }

  /** Merging forward, then backward, is what HeapLayout calls PlugHoles. */
  lemma PlugTwoSteps(a: seq<Blk>, i: nat, n: int)
    requires Tiled(a, n) && i < |a| && !a[i].used
    ensures var b := Forward(a, i);
            && i < |b| && (i > 0 ==> b[i - 1] == a[i - 1]) && b[i].off == a[i].off && !b[i].used
            && PlugHoles(a, i) == Backward(b, i)
  {
    hide Tiled, Replace;
    ChainAt(a, n, i);
    if i > 0 { ChainAt(a, n, i - 1); }
    var fwd, back := i + 1 < |a| && !a[i + 1].used, i > 0 && !a[i - 1].used;
    if fwd { ReplaceAt(a, i, 2, [Blk(a[i].off, a[i].size + a[i + 1].size, false)]); }
    if !fwd && !back {
      ReplaceSelf(a, i);
    } else if fwd && back {
      ReplaceTwice(a, i, Blk(a[i].off, a[i].size + a[i + 1].size, false),
                   Blk(a[i - 1].off, a[i - 1].size + (a[i].size + a[i + 1].size), false));
    }
  }

  lemma ReplaceSelf(a: seq<Blk>, i: nat)
    requires i < |a|
    ensures Replace(a, i, 1, [a[i]]) == a
  {
  }

  lemma ReplaceTwice(a: seq<Blk>, i: nat, h: Blk, g: Blk)
    requires 0 < i && i + 1 < |a|
    ensures Replace(Replace(a, i, 2, [h]), i - 1, 2, [g]) == Replace(a, i - 1, 3, [g])
  {
    var b := Replace(a, i, 2, [h]);
    assert b[..i - 1] == a[..i - 1];
    assert b[i + 1..] == a[i + 2..];
  }

  /** A merge frees no live payload, so what was clear stays clear. */
  lemma ClearMerge(off: int, a: seq<Blk>, i: nat)
    requires i + 1 < |a| && Clear(off, a)
    ensures Clear(off, MergeAt(a, i))
  {
    var b := MergeAt(a, i);
    forall x | 0 <= x < |b| && b[x].used
      ensures off <= b[x].off || b[x].End() <= off
    {
      SpliceIndex(a, i, 2, [Blk(a[i].off, a[i].size + a[i + 1].size, false)], x);
    }
  }

  lemma UntouchedTwice(r: seq<Mem>, r1: seq<Mem>, r2: seq<Mem>, b: seq<Blk>, i: nat)
    requires i < |b| && Untouched(r, r1, b) && Untouched(r1, r2, Backward(b, i))
    ensures Untouched(r, r2, Backward(b, i))
  {
    forall off | 0 <= off < |r| && r[off] != r2[off]
      ensures Clear(off, Backward(b, i))
    {
      if Clear(off, b) && i > 0 && !b[i - 1].used { ClearMerge(off, b, i - 1); }
    }
  }

  /** Marking a block. */
  lemma RepMark(r: seq<Mem>, a: seq<Blk>, i: nat, n: int, used: bool)
    requires Rep(r, a, n) && i < |a|
    ensures 0 <= a[i].off < |r|
    ensures Rep(r[a[i].off := r[a[i].off].(used := used)], a[i := a[i].(used := used)], n)
  {
    hide Replace, Tiled;
    Disjoint(a, n);
    ChainAt(a, n, i);
    var mid := [a[i].(used := used)];
    assert HeaderOf(r, a, i);
    assert i + 1 < |a| ==> HeaderOf(r, a, i + 1);
    assert forall x :: 0 <= x < i ==> a[x].End() <= a[i].off;
    var r' := r[a[i].off := r[a[i].off].(used := used)];
    assert Is(r'[mid[0].off], mid[0].End(), PrevOf(a, i), used);
    RepReplace(r, r', a, i, 1, mid, n);
    MarkIsReplace(a, i, used);
  }

  lemma MarkIsReplace(a: seq<Blk>, i: nat, used: bool)
    requires i < |a|
    ensures Replace(a, i, 1, [a[i].(used := used)]) == a[i := a[i].(used := used)]
  {
  }

  /** A block, or a used block and the free one behind it, cut in two. */
  ghost function CutAt(a: seq<Blk>, i: nat, k: nat, cut: int, used: bool): seq<Blk>
    requires 0 < k && i + k <= |a|
  {
    Replace(a, i, k, Halves(a, i, k, cut, used))
  }

  ghost function Halves(a: seq<Blk>, i: nat, k: nat, cut: int, used: bool): seq<Blk>
    requires 0 < k && i + k <= |a|
  {
    [Blk(a[i].off, cut, used), Blk(a[i].off + cut, a[i + k - 1].End() - a[i].off - cut, false)]
  }

  ghost predicate Cuttable(a: seq<Blk>, i: nat, k: nat, cut: int)
    requires 0 < k && i + k <= |a|
  {
    cut % 4 == 0 && SIZEOF_MEM + MIN_SIZE <= cut && SIZEOF_MEM + MIN_SIZE <= a[i + k - 1].End() - a[i].off - cut
  }

  lemma StretchSize(a: seq<Blk>, i: nat, k: nat, n: int)
    requires Tiled(a, n) && 0 < k <= 2 && i + k <= |a|
    ensures (a[i + k - 1].End() - a[i].off) % 4 == 0 && 0 <= a[i].off && a[i].off % 4 == 0
  {
    ChainAt(a, n, i);
    ChainAt(a, n, i + k - 1);
  }

  /** The headers written when a block is cut. */
  ghost function CutHeaders(r: seq<Mem>, p: int, p2: int, q: int, used: bool, n: int): seq<Mem>
    requires 0 <= p < p2 < q < |r| && q < 0x1_0000
  {
    var r1 := r[p2 := Mem(q, p, false)][p := Mem(p2, r[p].prev, used)];
    if q != n then r1[q := r1[q].(prev := p2)] else r1
  }

  lemma CutHeadersAt(r: seq<Mem>, p: int, p2: int, q: int, used: bool, n: int)
    requires 0 <= p < p2 < q < |r| && q < 0x1_0000
    ensures var r' := CutHeaders(r, p, p2, q, used, n);
            && |r'| == |r| && r'[p] == Mem(p2, r[p].prev, used) && r'[p2] == Mem(q, p, false)
            && r'[q] == (if q != n then r[q].(prev := p2) else r[q])
            && forall x :: 0 <= x < |r| && x != p && x != p2 && x != q ==> r'[x] == r[x]
  {
  }

  lemma RepCut(r: seq<Mem>, a: seq<Blk>, i: nat, k: nat, cut: int, used: bool, n: int)
    requires Rep(r, a, n) && 0 < k <= 2 && i + k <= |a| && Cuttable(a, i, k, cut)
    ensures var p, p2, q := a[i].off, a[i].off + cut, a[i + k - 1].End();
            && 0 <= p < p2 < q < |r| && q < 0x1_0000
            && Rep(CutHeaders(r, p, p2, q, used, n), CutAt(a, i, k, cut, used), n)
  {
    hide CutHeaders, Tiled, Replace, TilesStretch, Cuttable, Sound;
    CutBounds(a, i, k, cut, used, n);
    var p, p2, q := a[i].off, a[i].off + cut, a[i + k - 1].End();
    CutHeadersAt(r, p, p2, q, used, n);
    assert HeaderOf(r, a, i);
    assert i + k < |a| ==> HeaderOf(r, a, i + k);
    var r', mid := CutHeaders(r, p, p2, q, used, n), Halves(a, i, k, cut, used);
    hide HeaderOf, InHeap;
    assert mid[0].End() == p2 && mid[1].End() == q;
    assert Is(r'[mid[0].off], mid[0].End(), PrevOf(a, i), mid[0].used);
    assert Is(r'[mid[1].off], mid[1].End(), mid[0].off, mid[1].used);
    RepReplace(r, r', a, i, k, mid, n);
  }

  lemma CutBounds(a: seq<Blk>, i: nat, k: nat, cut: int, used: bool, n: int)
    requires Tiled(a, n) && 0 < k <= 2 && i + k <= |a| && Cuttable(a, i, k, cut)
    ensures 0 <= a[i].off < a[i].off + cut < a[i + k - 1].End() <= n
    ensures i + k < |a| ==> a[i + k - 1].End() == a[i + k].off < n
    ensures i + k == |a| ==> a[i + k - 1].End() == n
    ensures forall x :: 0 <= x < i ==> a[x].off < a[i].off
    ensures forall x :: i + k < x < |a| ==> a[i + k - 1].End() < a[x].off
    ensures TilesStretch(Halves(a, i, k, cut, used), a[i].off, a[i + k - 1].End())
  {
    hide Tiled, TilesStretch;
    Disjoint(a, n);
    StretchSize(a, i, k, n);
    CutStretch(a[i].off, cut, a[i + k - 1].End() - a[i].off, used);
    ChainAt(a, n, i + k - 1);
    hide Sound;
    assert forall x :: 0 <= x < i ==> a[x].End() <= a[i].off;
    assert forall x :: i + k < x < |a| ==> a[i + k].End() <= a[x].off;
  }

  lemma CutClear(a: seq<Blk>, i: nat, k: nat, cut: int, used: bool, n: int)
    requires Tiled(a, n) && 0 < k <= 2 && i + k <= |a| && Cuttable(a, i, k, cut)
    ensures var b := CutAt(a, i, k, cut, used);
            Clear(a[i].off, b) && Clear(a[i].off + cut, b) && Clear(a[i + k - 1].End(), b)
  {
    hide Tiled, Replace, TilesStretch, Clear, Sound;
    var b := CutAt(a, i, k, cut, used);
    var mid := Halves(a, i, k, cut, used);
    StretchSize(a, i, k, n);
    CutStretch(a[i].off, cut, a[i + k - 1].End() - a[i].off, used);
    SpliceTiled(a, i, k, mid, n);
    ReplaceAt(a, i, k, mid);
    ChainAt(a, n, i + k - 1);
    StartClear(b, n, i);
    assert b[i + 1] == mid[1];
    StartClear(b, n, i + 1);
    if i + k < |a| {
      assert b[i + 2] == a[i + k];
      StartClear(b, n, i + 2);
    } else {
      HeaderClear(b, n, 0, n);
    }
  }

  class MemHeap {
    const memSize: int          // MEM_SIZE_ALIGNED
    const ram: array<Mem>       // the struct mem found at each byte offset
    var lfree: int
    var used: int               // lwip_stats.mem.used
    ghost var blocks: seq<Blk>

    ghost predicate Valid()
      reads this, ram
    {
      && Rep(ram[..], blocks, memSize) && Coalesced(blocks)
      && LowestFree(blocks, memSize, lfree) && used == Used(blocks)
    }

    /** mem_init: MEM_SIZE is aligned, leaves room for a block and is at most
        64000 for a 16-bit mem_size_t. */
    constructor (memSize: int)
      requires memSize % 4 == 0 && SIZEOF_MEM + MIN_SIZE <= memSize <= 64000
      ensures Valid() && this.memSize == memSize && blocks == Hole(memSize) && fresh(ram)
    {
      this.memSize := memSize;
      ram := new Mem[memSize + 1](_ => Mem(0, 0, false));
      lfree, used, blocks := 0, 0, Hole(memSize);
      new;
      ram[0] := Mem(memSize, 0, false);
      ram[memSize] := Mem(memSize, memSize, true);
      assert HeaderOf(ram[..], blocks, 0);
      UsedOne(blocks[0]);
      assert blocks[0].off == lfree;
    }
  
    /** The two writes that make the free block at p swallow the free block that
        follows it. */
    method MergeHeaders(p: int, nmem: int, ghost a: seq<Blk>, ghost i: nat)
      requires Rep(ram[..], a, memSize) && i + 1 < |a| && !a[i].used && !a[i + 1].used
      requires p == a[i].off && nmem == a[i + 1].off
      modifies ram
      ensures Rep(ram[..], MergeAt(a, i), memSize)
      ensures Untouched(old(ram[..]), ram[..], MergeAt(a, i))
    {
      hide MergeAt, Replace, Tiled, Clear;
      assert HeaderOf(ram[..], a, i) && HeaderOf(ram[..], a, i + 1);
      RepMerge(ram[..], a, i, memSize);
      MergedClear(ram[..], a, i, memSize);
      var q := ram[nmem].next;
      ghost var r := ram[..];
      ram[p] := ram[p].(next := q);
      ram[q] := ram[q].(prev := p);
      assert ram[..] == r[p := r[p].(next := q)][q := r[q].(prev := p)];
    }

    /** The writes with which mem_malloc and mem_trim make a free block at ptr2
        out of the end of the one at ptr. */
    method SplitOff(ptr: int, ptr2: int, next: int, inUse: bool,
                    ghost a: seq<Blk>, ghost i: nat, ghost k: nat)
      requires Rep(ram[..], a, memSize) && 0 < k <= 2 && i + k <= |a| && Cuttable(a, i, k, ptr2 - ptr)
      requires ptr == a[i].off && next == a[i + k - 1].End()
      modifies ram
      ensures Rep(ram[..], CutAt(a, i, k, ptr2 - ptr, inUse), memSize)
      ensures Untouched(old(ram[..]), ram[..], CutAt(a, i, k, ptr2 - ptr, inUse))
    {
      hide CutAt, Replace, Tiled, Clear, Cuttable;
      RepCut(ram[..], a, i, k, ptr2 - ptr, inUse, memSize);
      CutClear(a, i, k, ptr2 - ptr, inUse, memSize);
      ghost var r := ram[..];
      ram[ptr2] := Mem(next, ptr, false);
      ram[ptr] := Mem(ptr2, ram[ptr].prev, inUse);
      ghost var r1 := ram[..];
      assert r1 == r[ptr2 := Mem(next, ptr, false)][ptr := Mem(ptr2, r[ptr].prev, inUse)];
      if next != memSize {
        ram[next] := ram[next].(prev := ptr2);
        assert ram[..] == r1[next := r1[next].(prev := ptr2)];
      }
    }

    /** plug_holes */
    method PlugHolesAt(mem: int, ghost a: seq<Blk>, ghost i: nat)
      requires Rep(ram[..], a, memSize) && i < |a| && !a[i].used && mem == a[i].off
      requires LowestBut(a, HoleLo(a, i), HoleHi(a, i), lfree)
      modifies `lfree, ram
      ensures Rep(ram[..], PlugHoles(a, i), memSize)
      ensures LowestFree(PlugHoles(a, i), memSize, lfree)
      ensures Untouched(old(ram[..]), ram[..], PlugHoles(a, i))
    {
      hide Replace, PlugHoles, Forward, Backward, LowestFree, LowestBut, Tiled, Untouched;
      PlugTwoSteps(a, i, memSize);
      ghost var lo, b, r := HoleLo(a, i), Forward(a, i), ram[..];
      PlugForward(mem, a, i, lo);
      ghost var r1 := ram[..];
      PlugBackward(mem, b, i);
      UntouchedTwice(r, r1, ram[..], b, i);
      LowestButIsLowest(PlugHoles(a, i), lo, memSize, lfree);
    }

    /** plug hole forward */
    method PlugForward(mem: int, ghost a: seq<Blk>, ghost i: nat, ghost lo: nat)
      requires Rep(ram[..], a, memSize) && i < |a| && !a[i].used && mem == a[i].off
      requires lo <= i && LowestBut(a, lo, HoleHi(a, i), lfree)
      modifies `lfree, ram
      ensures Rep(ram[..], Forward(a, i), memSize) && Untouched(old(ram[..]), ram[..], Forward(a, i))
      ensures i < |Forward(a, i)| && LowestBut(Forward(a, i), lo, i + 1, lfree)
    {
      hide Replace, MergeAt, LowestBut, Clear, Untouched, Tiled, Sound;
      UntouchedSame(ram[..]);
      ChainAt(a, memSize, i);
      Disjoint(a, memSize);
      assert HeaderOf(ram[..], a, i);
      var nmem := ram[mem].next;
      assert i + 1 < |a| ==> HeaderOf(ram[..], a, i + 1);
      if mem != nmem && !ram[nmem].used && nmem != memSize {
        MergeLowest(a, i, lo, memSize, lfree);
        if lfree == nmem {
          lfree := mem;
        }
        MergeHeaders(mem, nmem, a, i);
      }
    }

    /** plug hole backward */
    method PlugBackward(mem: int, ghost b: seq<Blk>, ghost i: nat)
      requires Rep(ram[..], b, memSize) && i < |b| && !b[i].used && mem == b[i].off
      requires LowestBut(b, HoleLo(b, i), i + 1, lfree)
      modifies `lfree, ram
      ensures Rep(ram[..], Backward(b, i), memSize) && Untouched(old(ram[..]), ram[..], Backward(b, i))
      ensures HoleLo(b, i) < |Backward(b, i)| && LowestBut(Backward(b, i), HoleLo(b, i), HoleLo(b, i) + 1, lfree)
    {
      hide Replace, MergeAt, LowestBut, Clear, Untouched, Tiled, Sound;
      UntouchedSame(ram[..]);
      Disjoint(b, memSize);
      assert HeaderOf(ram[..], b, i);
      var pmem := ram[mem].prev;
      assert i > 0 ==> HeaderOf(ram[..], b, i - 1);
      if pmem != mem && !ram[pmem].used {
        MergeLowest(b, i - 1, i - 1, memSize, lfree);
        if lfree == mem {
          lfree := pmem;
        }
        MergeHeaders(pmem, mem, b, i - 1);
      }
    }

    /** mem_free.  A pointer inside the heap must be one that mem_malloc returned
        and that is still in use; one outside is ignored. */
    method MemFree(rmem: Pointer)
      requires Valid()
      requires rmem.At? && 0 <= rmem.off < memSize ==> LiveAt(blocks, rmem.off - SIZEOF_MEM)
      modifies this, ram
      ensures Valid()
      ensures blocks == if rmem.At? && 0 <= rmem.off < memSize
                        then Free(old(blocks), IndexAt(old(blocks), rmem.off - SIZEOF_MEM)) else old(blocks)
      ensures Untouched(old(ram[..]), ram[..], blocks)
    {
      if rmem.Null? || rmem.off < 0 || rmem.off >= memSize {
        return;
      }
      FreeBlock(rmem.off - SIZEOF_MEM, IndexAt(blocks, rmem.off - SIZEOF_MEM));
    }

    method FreeBlock(mem: int, ghost i: nat)
      requires Valid() && i < |blocks| && blocks[i].used && blocks[i].off == mem
      modifies this, ram
      ensures Valid() && blocks == Free(old(blocks), i)
      ensures Untouched(old(ram[..]), ram[..], blocks)
    {
      hide Free, PlugHoles, Untouched, Clear, Tiled, Used, LowestFree, LowestBut, Coalesced, HoleLo, HoleHi;
      ghost var a, r := blocks, ram[..];
      FreeGood(a, i, memSize);
      FreedClear(a, i, memSize);
      MarkFree(mem, a, i);
      ghost var r1 := ram[..];
      PlugHolesAt(mem, a[i := a[i].(used := false)], i);
      blocks := Free(a, i);
      FreeIsPlug(a, i);
      UntouchedFirst(r, r1, ram[..], mem, blocks);
    }

    /** The block is now unused, and perhaps the lowest. */
    method MarkFree(mem: int, ghost a: seq<Blk>, ghost i: nat)
      requires Rep(ram[..], a, memSize) && LowestFree(a, memSize, lfree)
      requires i < |a| && a[i].used && a[i].off == mem
      modifies `lfree, `used, ram
      ensures var b := a[i := a[i].(used := false)];
              && Rep(ram[..], b, memSize) && LowestBut(b, HoleLo(b, i), HoleHi(b, i), lfree)
      ensures used == old(used) - a[i].size
      ensures forall x :: 0 <= x < ram.Length && x != mem ==> ram[x] == old(ram[x])
    {
      hide Tiled, LowestFree, LowestBut;
      RepMark(ram[..], a, i, memSize, false);
      FreedLowest(a, i, memSize, lfree);
      assert HeaderOf(ram[..], a, i);
      ghost var r := ram[..];
      ram[mem] := ram[mem].(used := false);
      assert ram[..] == r[mem := r[mem].(used := false)];
      if mem < lfree {
        lfree := mem;
      }
      used := used - (ram[mem].next - mem);
    }

    /** mem_trim.  Anything but shrinking is refused with NULL. */
    method MemTrim(rmem: int, newsize0: u16) returns (r: Pointer)
      requires Valid()
      requires 0 <= rmem < memSize ==> LiveAt(blocks, rmem - SIZEOF_MEM)
      modifies this, ram
      ensures Valid() && Untouched(old(ram[..]), ram[..], blocks)
      ensures var i, newsize := IndexAt(old(blocks), rmem - SIZEOF_MEM), Rounded(newsize0);
              if newsize > memSize then r == Null && blocks == old(blocks)
              else if !(0 <= rmem < memSize) then r == At(rmem) && blocks == old(blocks)
              else if newsize > old(blocks)[i].Payload() then r == Null && blocks == old(blocks)
              else r == At(rmem) && blocks == Trim(old(blocks), i, newsize)
    {
      UntouchedSame(ram[..]);
      var newsize := Rounded(newsize0);
      if newsize > memSize {
        return Null;
      }
      if rmem < 0 || rmem >= memSize {
        return At(rmem);
      }
      hide Trim, Untouched, Clear, Tiled, Used, LowestFree, Coalesced, Rounded;
      var ptr := rmem - SIZEOF_MEM;
      ghost var i := IndexAt(blocks, ptr);
      assert HeaderOf(ram[..], blocks, i);
      var size := ram[ptr].next - ptr - SIZEOF_MEM;
      if newsize > size {
        return Null;
      }
      if newsize < size {
        ShrinkBlock(ptr, size, newsize, i);
      } else {
        TrimNothing(blocks, i);
      }
      return At(rmem);
    }

    method ShrinkBlock(ptr: int, size: int, newsize: int, ghost i: nat)
      requires Valid() && i < |blocks| && blocks[i].used && blocks[i].off == ptr
      requires size == blocks[i].Payload() && newsize % 4 == 0 && MIN_SIZE <= newsize < size
      modifies this, ram
      ensures Valid() && blocks == Trim(old(blocks), i, newsize)
      ensures Untouched(old(ram[..]), ram[..], blocks)
    {
      hide Trim, Untouched, Clear, Tiled, Used, LowestFree, Coalesced, Replace, CutAt;
      ghost var a := blocks;
      UntouchedSame(ram[..]);
      TrimGood(a, i, newsize, memSize);
      TrimIsCut(a, i, newsize, memSize);
      TrimLowest(a, i, newsize, memSize, lfree);
      ChainAt(a, memSize, i);
      assert HeaderOf(ram[..], a, i);
      assert i + 1 < |a| ==> HeaderOf(ram[..], a, i + 1);
      var mem2 := ram[ptr].next;
      var ptr2 := ptr + SIZEOF_MEM + newsize;
      if !ram[mem2].used {
        // the next struct is unused: move it
        var next := ram[mem2].next;
        if lfree == mem2 {
          lfree := ptr2;
        }
        SplitOff(ptr, ptr2, next, true, a, i, 2);
        used := used - (size - newsize);
      } else if newsize + SIZEOF_MEM + MIN_SIZE <= size {
        // room for another struct mem
        if ptr2 < lfree {
          lfree := ptr2;
        }
        SplitOff(ptr, ptr2, mem2, true, a, i, 1);
        used := used - (size - newsize);
      }
      blocks := Trim(a, i, newsize);
    }

    /** mem_malloc: NULL exactly when no free block is large enough. */
    method MemMalloc(size0: u16) returns (r: Pointer)
      requires Valid()
      modifies this, ram
      ensures Valid() && Untouched(old(ram[..]), ram[..], blocks)
      ensures size0 == 0 ==> r == Null && blocks == old(blocks)
      ensures size0 > 0 ==> blocks == Malloc(old(blocks), size0, memSize)
      ensures size0 > 0 ==> (r == Null <==> forall b :: b in old(blocks) ==> !FitsIn(b, Rounded(size0)))
      ensures r.At? ==> var i := FirstFit(old(blocks), Rounded(size0));
                        i < |old(blocks)| && r == At(old(blocks)[i].off + SIZEOF_MEM)
    {
      hide Valid, Take, Untouched, FirstFit, FitsIn;
      UntouchedSame(ram[..]);
      if size0 == 0 {
        return Null;
      }
      var size := Rounded(size0);
      hide Rounded;
      FirstFitNone(blocks, size);
      if size > memSize {
        TooLarge(size);
        return Null;
      }
      r := ScanForFit(size);
      if r.At? {
        TakeBlock(r.off, size, FirstFit(blocks, size));
        return At(r.off + SIZEOF_MEM);
      }
    }

    lemma TooLarge(size: int)
      requires Valid() && memSize < size
      ensures FirstFit(blocks, size) == |blocks|
    {
      Disjoint(blocks, memSize);
    }

    /** Scan through the heap for a free block that is big enough, beginning
        with the lowest free block. */
    method ScanForFit(size: int) returns (r: Pointer)
      requires Valid() && 0 < size <= memSize
      ensures var i := FirstFit(blocks, size);
              r == if i < |blocks| then At(blocks[i].off) else Null
    {
      hide Used, Coalesced, Tiled, LowestFree;
      var ptr := lfree;
      ghost var i := LowestIndex(blocks, memSize, lfree);
      Disjoint(blocks, memSize);
      while ptr < memSize - size
        invariant 0 <= i <= |blocks| && ptr == if i < |blocks| then blocks[i].off else memSize
        invariant forall k :: 0 <= k < i ==> !FitsIn(blocks[k], size)
        decreases memSize - ptr
      {
        assert HeaderOf(ram[..], blocks, i);
        ChainAt(blocks, memSize, i);
        if !ram[ptr].used && ram[ptr].next - (ptr + SIZEOF_MEM) >= size {
          return At(ptr);
        }
        ptr := ram[ptr].next;
        i := i + 1;
      }
      assert forall k :: i <= k < |blocks| ==> ptr <= blocks[k].off;
      return Null;
    }

    /** Put the free block at ptr to use, and move lfree on if it was there. */
    method TakeBlock(ptr: int, size: int, ghost i: nat)
      requires Valid() && i < |blocks| && blocks[i].off == ptr && FitsIn(blocks[i], size)
      requires size % 4 == 0 && MIN_SIZE <= size
      modifies this, ram
      ensures Valid() && blocks == Take(old(blocks), i, size)
      ensures Untouched(old(ram[..]), ram[..], blocks)
    {
      hide Take, Untouched, Clear, Used, LowestFree, Coalesced, Tiled, Replace, CutAt;
      ghost var a, r, b := blocks, ram[..], Take(blocks, i, size);
      TakeGood(a, i, size, memSize);
      TakeIsCut(a, i, size, memSize);
      ChainAt(a, memSize, i);
      assert HeaderOf(ram[..], a, i);
      var next := ram[ptr].next;
      if next - (ptr + SIZEOF_MEM) >= size + SIZEOF_MEM + MIN_SIZE {
        SplitOff(ptr, ptr + SIZEOF_MEM + size, next, true, a, i, 1);
        used := used + size + SIZEOF_MEM;
      } else {
        RepMark(r, a, i, memSize, true);
        StartClear(b, memSize, i);
        ram[ptr] := ram[ptr].(used := true);
        assert ram[..] == r[ptr := r[ptr].(used := true)];
        UntouchedFirst(r, ram[..], ram[..], ptr, b) by { UntouchedSame(ram[..]); }
        used := used + (next - ptr);
      }
      TakenLowest(a, i, size, memSize, lfree);
      if ptr == lfree {
        NextFree(b, i);
      }
      blocks := b;
    }

    /** Find the next free block and make it the lowest. */
    method NextFree(ghost b: seq<Blk>, ghost i: nat)
      requires Rep(ram[..], b, memSize) && i < |b| && b[i].off == lfree
      requires forall k :: 0 <= k <= i ==> b[k].used
      modifies `lfree
      ensures LowestFree(b, memSize, lfree)
    {
      hide Tiled;
      Disjoint(b, memSize);
      var cur := lfree;
      ghost var j: nat := i;
      while cur != memSize && ram[cur].used
        invariant 0 <= j <= |b| && cur == if j < |b| then b[j].off else memSize
        invariant forall k :: 0 <= k < j ==> b[k].used
        decreases memSize - cur
      {
        assert HeaderOf(ram[..], b, j);
        ChainAt(b, memSize, j);
        cur := ram[cur].next;
        j := j + 1;
      }
      lfree := cur;
      assert j < |b| ==> HeaderOf(ram[..], b, j);
      assert j < |b| ==> !b[j].used && b[j].off == lfree;
    }
  }

  /** Both headers written by a merge are clear of live blocks. */
  lemma MergedClear(r: seq<Mem>, a: seq<Blk>, i: nat, n: int)
    requires Rep(r, a, n) && i + 1 < |a| && !a[i].used && !a[i + 1].used
    ensures Clear(a[i].off, MergeAt(a, i)) && Clear(a[i + 1].End(), MergeAt(a, i))
    ensures Tiled(MergeAt(a, i), n)
  {
    hide Tiled, Replace, TilesStretch, HeaderOf, Clear;
    var b := MergeAt(a, i);
    var mid := [Blk(a[i].off, a[i].size + a[i + 1].size, false)];
    JoinStretch(a, n, i);
    ChainAt(a, n, i + 1);
    SpliceTiled(a, i, 2, mid, n);
    ReplaceAt(a, i, 2, mid);
    Disjoint(b, n);
    HeaderClear(b, n, i, a[i].off);
    HeaderClear(b, n, i + 1, a[i + 1].End());
  }

  lemma UntouchedSame(r: seq<Mem>)
    ensures forall a :: Untouched(r, r, a)
  {
  }

  lemma FreeIsPlug(a: seq<Blk>, i: nat)
    requires i < |a|
    ensures Free(a, i) == PlugHoles(a[i := a[i].(used := false)], i)
  {
  }

  lemma UntouchedFirst(r: seq<Mem>, r1: seq<Mem>, r2: seq<Mem>, off: int, a: seq<Blk>)
    requires |r| == |r1| && (forall x :: 0 <= x < |r| && x != off ==> r[x] == r1[x])
    requires Clear(off, a) && Untouched(r1, r2, a)
    ensures Untouched(r, r2, a)
  {
  }

  /** lfree after the freed block has been compared with it. */
  lemma FreedLowest(a: seq<Blk>, i: nat, n: int, lfree: int)
    requires Tiled(a, n) && i < |a| && a[i].used && LowestFree(a, n, lfree)
    ensures var b := a[i := a[i].(used := false)];
            LowestBut(b, HoleLo(b, i), HoleHi(b, i), if a[i].off < lfree then a[i].off else lfree)
  {
    hide Tiled, HoleLo, HoleHi;
    Disjoint(a, n);
    var b := a[i := a[i].(used := false)];
    var l := if a[i].off < lfree then a[i].off else lfree;
    if l == a[i].off {
      assert !b[i].used && b[i].off == l;
    } else {
      var k :| 0 <= k < |a| && !a[k].used && a[k].off == lfree;
      assert !b[k].used && b[k].off == l;
    }
    assert forall k :: 0 <= k < |b| && k != i ==> b[k] == a[k];
  }

  /** The header of the freed block lies in the hole it leaves. */
  lemma FreedClear(a: seq<Blk>, i: nat, n: int)
    requires Good(a, n) && i < |a| && a[i].used
    ensures Clear(a[i].off, Free(a, i))
  {
    hide Good, Tiled, Coalesced, Free, Replace, TilesStretch;
    var lo, hi := HoleLo(a, i), HoleHi(a, i);
    var hole := Blk(a[lo].off, a[hi - 1].End() - a[lo].off, false);
    FreeIsReplace(a, i);
    FreeGood(a, i, n);
    ReplaceAt(a, lo, hi - lo, [hole]);
    GoodDisjoint(a, n);
    GoodDisjoint(Free(a, i), n);
    assert Free(a, i)[lo] == hole;
    GoodHeaderClear(Free(a, i), n, lo, a[i].off);
  }

  lemma GoodDisjoint(a: seq<Blk>, n: int)
    requires Good(a, n)
    ensures forall i, j :: 0 <= i < j < |a| ==> a[i].End() <= a[j].off
    ensures forall i :: 0 <= i < |a| ==> 0 <= a[i].off < a[i].End() <= n
  {
    Disjoint(a, n);
  }

  lemma GoodHeaderClear(a: seq<Blk>, n: int, i: nat, off: int)
    requires Good(a, n) && i < |a| && a[i].off <= off < a[i].End() && !a[i].used
    ensures Clear(off, a)
  {
    HeaderClear(a, n, i, off);
  }

  lemma TrimNothing(a: seq<Blk>, i: nat)
    requires i < |a|
    ensures Trim(a, i, a[i].Payload()) == a
  {
  }

  lemma TrimIsCut(a: seq<Blk>, i: nat, newsize: int, n: int)
    requires Good(a, n) && i < |a| && a[i].used
    requires newsize % 4 == 0 && MIN_SIZE <= newsize < a[i].Payload()
    ensures var cut := SIZEOF_MEM + newsize;
            if i + 1 < |a| && !a[i + 1].used then
              Cuttable(a, i, 2, cut) && Trim(a, i, newsize) == CutAt(a, i, 2, cut, true)
              && Trim(a, i, newsize)[i].size == cut
            else if newsize + SIZEOF_MEM + MIN_SIZE <= a[i].Payload() then
              Cuttable(a, i, 1, cut) && Trim(a, i, newsize) == CutAt(a, i, 1, cut, true)
              && Trim(a, i, newsize)[i].size == cut
            else Trim(a, i, newsize) == a
  {
    ChainAt(a, n, i);
    hide Good, Tiled, Coalesced;
  }

  lemma TrimLowest(a: seq<Blk>, i: nat, newsize: int, n: int, lfree: int)
    requires Good(a, n) && i < |a| && a[i].used && LowestFree(a, n, lfree)
    requires newsize % 4 == 0 && MIN_SIZE <= newsize < a[i].Payload()
    ensures var ptr2 := a[i].off + SIZEOF_MEM + newsize;
            LowestFree(Trim(a, i, newsize), n,
              if i + 1 < |a| && !a[i + 1].used then
                if lfree == a[i + 1].off then ptr2 else lfree
              else if newsize + SIZEOF_MEM + MIN_SIZE <= a[i].Payload() then
                if ptr2 < lfree then ptr2 else lfree
              else lfree)
  {
    hide Good, Trim, CutAt, LowestFree;
    TrimIsCut(a, i, newsize, n);
    if i + 1 < |a| && !a[i + 1].used {
      CutTwoLowest(a, i, SIZEOF_MEM + newsize, n, lfree);
    } else if newsize + SIZEOF_MEM + MIN_SIZE <= a[i].Payload() {
      CutOneLowest(a, i, SIZEOF_MEM + newsize, n, lfree);
    }
  }

  lemma CutTwoLowest(a: seq<Blk>, i: nat, cut: int, n: int, lfree: int)
    requires Good(a, n) && i + 1 < |a| && a[i].used && !a[i + 1].used && LowestFree(a, n, lfree)
    requires 0 < cut < a[i].size
    ensures LowestFree(CutAt(a, i, 2, cut, true), n, if lfree == a[i + 1].off then a[i].off + cut else lfree)
  {
    hide Good, Replace, LowestFree;
    GoodDisjoint(a, n);
    var b, mid := CutAt(a, i, 2, cut, true), Halves(a, i, 2, cut, true);
    ReplaceAt(a, i, 2, mid);
    assert b[i + 1] == mid[1] && b[i] == mid[0];
    assert forall x :: 0 <= x < |a| && x != i && x != i + 1 ==> b[x] == a[x];
    MovedLowest(a, b, i + 1, n, lfree);
  }

  lemma CutOneLowest(a: seq<Blk>, i: nat, cut: int, n: int, lfree: int)
    requires Good(a, n) && i < |a| && a[i].used && LowestFree(a, n, lfree)
    requires 0 < cut < a[i].size
    ensures LowestFree(CutAt(a, i, 1, cut, true), n, if a[i].off + cut < lfree then a[i].off + cut else lfree)
  {
    hide Good, Replace, LowestFree;
    GoodDisjoint(a, n);
    var b, mid := CutAt(a, i, 1, cut, true), Halves(a, i, 1, cut, true);
    ReplaceAt(a, i, 1, mid);
    assert b[i + 1] == mid[1] && b[i] == mid[0] && b[i + 1].off < a[i].End();
    assert forall x :: i < x < |a| ==> b[x - 1 + |mid|] == a[x];
    AddedLowest(a, b, i + 1, n, lfree);
  }

  /** Free block j starts elsewhere now, but still between its neighbours. */
  lemma MovedLowest(a: seq<Blk>, b: seq<Blk>, j: nat, n: int, lfree: int)
    requires |a| == |b| && 0 < j < |a| && !a[j].used && !b[j].used && a[j - 1].used && b[j - 1].used
    requires forall x :: 0 <= x < |a| && x != j && x != j - 1 ==> b[x] == a[x]
    requires forall x, y :: 0 <= x < y < |a| ==> a[x].End() <= a[y].off
    requires forall x :: 0 <= x < |a| ==> 0 <= a[x].off < a[x].End() <= n
    requires LowestFree(a, n, lfree) && a[j - 1].off <= b[j].off < a[j].off
    ensures LowestFree(b, n, if lfree == a[j].off then b[j].off else lfree)
  {
    if lfree != a[j].off {
      var k :| 0 <= k < |a| && !a[k].used && a[k].off == lfree;
      assert !b[k].used && b[k].off == lfree;
      assert k < j;
    }
  }

  /** A free block was put in at j. */
  lemma AddedLowest(a: seq<Blk>, b: seq<Blk>, j: nat, n: int, lfree: int)
    requires |b| == |a| + 1 && 0 < j <= |a| && !b[j].used && a[j - 1].used && b[j - 1].used
    requires forall x :: 0 <= x < j - 1 ==> b[x] == a[x]
    requires forall x :: j <= x < |a| ==> b[x + 1] == a[x]
    requires LowestFree(a, n, lfree) && b[j].off < n
    ensures LowestFree(b, n, if b[j].off < lfree then b[j].off else lfree)
  {
    if lfree != n {
      var k :| 0 <= k < |a| && !a[k].used && a[k].off == lfree;
      var k' := if k < j then k else k + 1;
      assert !b[k'].used && b[k'].off == lfree;
    }
    assert !b[j].used;
    forall x | 0 <= x < |b| && !b[x].used && x != j
      ensures lfree <= b[x].off
    {
      assert if x < j then b[x] == a[x] else b[x] == a[x - 1];
    }
  }

  /** The block lfree points to; those before it are in use. */
  ghost function LowestIndex(a: seq<Blk>, n: int, lfree: int): (i: nat)
    requires Tiled(a, n) && LowestFree(a, n, lfree)
    ensures i <= |a| && lfree == (if i < |a| then a[i].off else n)
    ensures forall k :: 0 <= k < i ==> a[k].used
  {
    Disjoint(a, n);
    if lfree == n then |a|
    else
      var i :| 0 <= i < |a| && !a[i].used && a[i].off == lfree;
      i
  }

  lemma FirstFitNone(a: seq<Blk>, size: int)
    ensures FirstFit(a, size) == |a| <==> forall b :: b in a ==> !FitsIn(b, size)
  {
    var i := FirstFit(a, size);
    assert i < |a| ==> a[i] in a;
  }

  lemma StartClear(a: seq<Blk>, n: int, i: nat)
    requires Tiled(a, n) && i < |a|
    ensures Clear(a[i].off, a)
  {
    HeaderClear(a, n, i, a[i].off) by { ChainAt(a, n, i); }
  }

  lemma TakeIsCut(a: seq<Blk>, i: nat, size: int, n: int)
    requires Good(a, n) && i < |a| && FitsIn(a[i], size) && size % 4 == 0 && MIN_SIZE <= size
    ensures |Take(a, i, size)| >= |a| && Take(a, i, size)[i].off == a[i].off
    ensures if a[i].Payload() >= size + SIZEOF_MEM + MIN_SIZE then
              Cuttable(a, i, 1, SIZEOF_MEM + size) && Take(a, i, size) == CutAt(a, i, 1, SIZEOF_MEM + size, true)
              && Take(a, i, size)[i].size == SIZEOF_MEM + size
            else
              Take(a, i, size) == a[i := a[i].(used := true)]
  {
    ChainAt(a, n, i);
    hide Good, Tiled, Coalesced;
  }

  /** lfree after a block was taken: unless it was that block, it stays. */
  lemma TakenLowest(a: seq<Blk>, i: nat, size: int, n: int, lfree: int)
    requires Good(a, n) && i < |a| && FitsIn(a[i], size) && size % 4 == 0 && MIN_SIZE <= size
    requires LowestFree(a, n, lfree)
    ensures var b := Take(a, i, size);
            if lfree == a[i].off then i < |b| && forall k :: 0 <= k <= i ==> b[k].used
            else LowestFree(b, n, lfree)
  {
    hide Tiled, Coalesced, Replace, Good;
    GoodDisjoint(a, n);
    var mid := TakeFrom(a[i], size);
    var b := Take(a, i, size);
    assert b == Replace(a, i, 1, mid);
    ReplaceAt(a, i, 1, mid);
    assert lfree <= a[i].off;
    if lfree != a[i].off {
      var k :| 0 <= k < |a| && !a[k].used && a[k].off == lfree;
      assert k < i && b[k] == a[k];
      forall x | 0 <= x < |b| && !b[x].used
        ensures lfree <= b[x].off
      {
        if x < i {
          assert b[x] == a[x];
        } else if x < i + |mid| {
          assert b[x] == mid[x - i];
        } else {
          assert b[x] == a[x + 1 - |mid|];
        }
      }
    }
  }
}
