// The fixed-size pools of memp.c: the free list *desc->tab threaded through the
// elements, and memp_sanity, which looks for a circle in it.
module MemPool {

  const NULL: int := -1

  /** Where k links behind p lead to; nothing lies behind what is no element. */
  function Walk(next: seq<int>, p: int, k: nat): int
    decreases k
  {
    if k == 0 || !(0 <= p < |next|) then p else Walk(next, next[p], k - 1)
  }

  /** All links behind p lead to elements, or to NULL.  Other links may hold
      anything: an element in use has no link, its user's data lie there. */
  ghost predicate Sound(next: seq<int>, p: int) {
    forall k: nat :: Walk(next, p, k) == NULL || 0 <= Walk(next, p, k) < |next|
  }

  /** Some element is met twice. */
  ghost predicate Circular(next: seq<int>, p: int) {
    exists i: nat, j: nat :: i < j && Walk(next, p, i) == Walk(next, p, j) != NULL
  }

  lemma {:induction false} WalkOn(next: seq<int>, p: int, i: nat, k: nat)
    ensures Walk(next, p, i + k) == Walk(next, Walk(next, p, i), k)
    decreases i
  {
    if 0 <= p < |next| && i > 0 {
      WalkOn(next, next[p], i - 1, k);
    }
  }

  lemma WalkOne(next: seq<int>, p: int, i: nat)
    ensures Walk(next, p, i + 1) == var q := Walk(next, p, i); if 0 <= q < |next| then next[q] else q
  {
    WalkOn(next, p, i, 1);
    var q := Walk(next, p, i);
    if 0 <= q < |next| { assert Walk(next, q, 1) == Walk(next, next[q], 0); }
  }

  /** Past NULL there is only NULL. */
  lemma WalkEnded(next: seq<int>, p: int, i: nat, j: nat)
    requires i <= j && Walk(next, p, i) == NULL
    ensures Walk(next, p, j) == NULL
  {
    WalkOn(next, p, i, j - i);
  }

  // --------------------------------------------------------------- pigeonhole

  /** The first place of v in f, or |f|. */
  function Place(f: seq<int>, v: int): (k: nat)
    ensures k <= |f| && (k < |f| ==> f[k] == v) && forall l :: 0 <= l < k ==> f[l] != v
  {
    if f == [] || f[0] == v then 0 else 1 + Place(f[1..], v)
  }

  /** n + 1 numbers below n: two are the same. */
  lemma {:induction false} SameTwice(f: seq<int>, n: nat) returns (i: nat, j: nat)
    requires 0 < n && |f| == n + 1 && forall k :: 0 <= k < |f| ==> 0 <= f[k] < n
    ensures i < j < |f| && f[i] == f[j]
    decreases n
  {
    i, j := 0, 1;
    if n > 1 {
      var k := Place(f, n - 1);
      if k == |f| {
        i, j := SameTwice(f[..n], n - 1);
      } else {
        var rest := f[..k] + f[k + 1..];
        var l := Place(f[k + 1..], n - 1);
        if l < |f[k + 1..]| {
          i, j := k, k + 1 + l;
        } else {
          assert forall x :: 0 <= x < |rest| ==> rest[x] == f[if x < k then x else x + 1];
          assert forall x :: k < x < |f| ==> f[x] == f[k + 1..][x - k - 1];
          i, j := SameTwice(rest, n - 1);
          i, j := if i < k then i else i + 1, if j < k then j else j + 1;
        }
      }
    }
  }

  /** The first n elements that a walk meets. */
  function Met(next: seq<int>, p: int, n: nat): (q: seq<int>)
    ensures |q| == n && forall k :: 0 <= k < n ==> q[k] == Walk(next, p, k)
  {
    if n == 0 then [] else Met(next, p, n - 1) + [Walk(next, p, n - 1)]
  }

  /** Walking |next| links ends at NULL or meets an element twice. */
  lemma Pigeonhole(next: seq<int>, p: int) returns (i: nat, j: nat)
    requires Sound(next, p)
    ensures Walk(next, p, |next|) == NULL || (i < j <= |next| && Walk(next, p, i) == Walk(next, p, j))
  {
    hide Walk;
    i, j := 0, 0;
    if Walk(next, p, |next|) != NULL {
      var q := Met(next, p, |next| + 1);
      forall k | 0 <= k < |q|
        ensures 0 <= q[k] < |next|
      {
        NotEnded(next, p, k, |next|);
      }
      i, j := SameTwice(q, |next|);
    }
  }

  lemma NotEnded(next: seq<int>, p: int, i: nat, j: nat)
    requires i <= j && Walk(next, p, j) != NULL
    ensures Walk(next, p, i) != NULL
  {
    WalkOn(next, p, i, j - i);
  }

  function Range(n: nat): (r: set<int>)
    ensures forall x :: x in r <==> 0 <= x < n
  {
    if n == 0 then {} else Range(n - 1) + {n - 1}
  }

  /** A circle brings everything behind its start back. */
  lemma {:induction false} RoundAndRound(next: seq<int>, p: int, i: nat, len: nat, k: nat, times: nat)
    requires Walk(next, p, i) == Walk(next, p, i + len) && i <= k
    ensures Walk(next, p, k) == Walk(next, p, k + len * times)
    decreases times
  {
    if times > 0 {
      RoundAndRound(next, p, i, len, k, times - 1);
      var j := k + len * (times - 1);
      assert i <= j;
      WalkOn(next, p, i, j - i);
      WalkOn(next, p, i + len, j - i);
      assert i + len + (j - i) == k + len * times;
    }
  }

  /** When the hare, at 2k + 1, stands on the tortoise, at k, at the latest. */
  lemma Meeting(next: seq<int>, p: int) returns (k: nat)
    requires Sound(next, p)
    ensures Walk(next, p, 2 * k + 1) == NULL || Walk(next, p, k) == Walk(next, p, 2 * k + 1)
  {
    hide Walk;
    var i, j := Pigeonhole(next, p);
    if Walk(next, p, |next|) == NULL {
      k := |next|;
      WalkEnded(next, p, |next|, 2 * k + 1);
    } else {
      var times;
      k, times := Rounds(i, j - i);
      RoundAndRound(next, p, i, j - i, k, times);
    }
  }

  /** A place k behind i such that k + 1 is a whole number of rounds. */
  lemma Rounds(i: nat, len: nat) returns (k: nat, times: nat)
    requires len > 0
    ensures i <= k && k + len * times == 2 * k + 1
  {
    times := i / len + 1;
    assert i == len * (i / len) + i % len;
    k := len * times - 1;
  }

  /** Two walkers on one element, and one that has ended. */
  lemma MetOrEnded(next: seq<int>, p: int, k: nat)
    ensures Walk(next, p, k) == Walk(next, p, 2 * k + 1) != NULL ==> Circular(next, p)
    ensures Walk(next, p, k) == NULL || Walk(next, p, 2 * k + 1) == NULL ==> !Circular(next, p)
  {
    if Walk(next, p, k) == NULL { WalkEnded(next, p, k, 2 * k + 1); }
    if Walk(next, p, 2 * k + 1) == NULL && Circular(next, p) {
      var i: nat, j: nat :| i < j && Walk(next, p, i) == Walk(next, p, j) != NULL;
      var len := j - i;
      RoundAndRound(next, p, i, len, i, 2 * k + 1);
      LongEnough(len, 2 * k + 1);
      WalkEnded(next, p, 2 * k + 1, i + len * (2 * k + 1));
    }
  }

  lemma LongEnough(len: nat, n: nat)
    requires len > 0
    ensures n <= len * n
  {
  }

  /** memp_sanity: always ends, and finds a circle if and only if there is one. */
  method MempSanity(next: seq<int>, tab: int) returns (sane: bool)
    requires Sound(next, tab)
    ensures sane <==> !Circular(next, tab)
  {
    hide Circular, Walk;
    var t := tab;
    Begin(next, tab);
    if t != NULL {
      var h := next[t];
      ghost var k: nat := 0;
      ghost var last := Meeting(next, tab);
      while t != NULL && h != NULL
        invariant t == Walk(next, tab, k) && h == Walk(next, tab, 2 * k + 1)
        invariant k <= last
        decreases last - k
      {
        MetOrEnded(next, tab, k);
        if t == h {
          return false;
        }
        WalkOne(next, tab, k);
        WalkOne(next, tab, 2 * k + 1);
        WalkOne(next, tab, 2 * k + 2);
        t := next[t];
        h := if next[h] != NULL then next[next[h]] else NULL;
        k := k + 1;
      }
      MetOrEnded(next, tab, k);
    } else {
      MetOrEnded(next, tab, 0);
    }
    return true;
  }

  lemma Begin(next: seq<int>, p: int)
    ensures Walk(next, p, 0) == p && (0 <= p < |next| ==> Walk(next, p, 1) == next[p])
  {
    WalkOne(next, p, 0);
  }

  // -------------------------------------------------------------------- pools

  class Pool {
    const num: nat
    var next: array<int>
    var tab: int

    /** The free list, and the elements in use. */
    ghost var free: seq<int>
    ghost var live: set<int>

    ghost predicate Valid()
      reads this, next
    {
      && next.Length == num && Listed(next[..], tab, free)
      && (forall i :: 0 <= i < |free| ==> free[i] !in live)
      && live + Elements(free) == Range(num)
    }

    constructor (num: nat)
      ensures Valid() && live == {} && this.num == num && |free| == num && fresh(next)
    {
      // memp_init_pool: create a linked list of the elements
      this.num, next, tab := num, new int[num], NULL;
      free, live := [], {};
      new;
      var i := 0;
      while i < num
        invariant 0 <= i <= num == next.Length && fresh(next)
        invariant Listed(next[..], tab, free) && Elements(free) == Range(i) && |free| == i && live == {}
      {
        Push(i);
        free := [i] + free;
        i := i + 1;
      }
    }

    /** Link an element in front. */
    method Push(memp: int)
      requires 0 <= memp < next.Length && Listed(next[..], tab, free) && memp !in Elements(free)
      modifies next, `tab
      ensures Listed(next[..], tab, [memp] + free) && Elements([memp] + free) == Elements(free) + {memp}
    {
      ghost var before := next[..];
      PushListed(before, tab, free, memp);
      next[memp] := tab;
      assert next[..] == before[memp := tab];
      tab := memp;
    }

    /** memp_malloc_pool: NULL exactly when every element is in use. */
    method Malloc() returns (memp: int)
      requires Valid()
      modifies `tab, `free, `live
      ensures Valid()
      ensures memp == NULL <==> old(live) == Range(num)
      ensures memp == NULL ==> live == old(live)
      ensures memp != NULL ==> memp !in old(live) && live == old(live) + {memp} && |free| + 1 == |old(free)|
    {
      memp := tab;
      if memp != NULL {
        PopListed(next[..], tab, free);
        tab := next[memp];
        live := live + {memp};
        free := free[1..];
      }
    }

    /** The user of an element stores into it, where the link was: MEMP_SIZE is 0. */
    method Store(memp: int, word: int)
      requires Valid() && memp in live
      modifies next
      ensures Valid() && next[..] == old(next[..])[memp := word]
    {
      assert memp in Range(num);
      ghost var before := next[..];
      NotFree(memp, free, live);
      StoresKeepList(before, tab, free, memp, word);
      next[memp] := word;
      assert next[..] == before[memp := word];
    }

    /** memp_free_pool of an element in use; the check it ends with succeeds. */
    method Free(memp: int) returns (sane: bool)
      requires Valid() && memp in live
      modifies next, `tab, `free, `live
      ensures Valid() && live == old(live) - {memp} && sane
    {
      assert memp in Range(num);
      Push(memp);
      free := [memp] + free;
      live := live - {memp};
      ListedEnds(next[..], tab, free);
      sane := MempSanity(next[..], tab);
    }
  }

  lemma NotFree(x: int, free: seq<int>, live: set<int>)
    requires x in live && forall i :: 0 <= i < |free| ==> free[i] !in live
    ensures x !in Elements(free)
  {
  }

  function Elements(q: seq<int>): set<int> { set i | 0 <= i < |q| :: q[i] }

  /** The links from p on run through q, without repetition, to NULL. */
  ghost predicate Listed(next: seq<int>, p: int, q: seq<int>) {
    && p == (if q == [] then NULL else q[0]) && (p == NULL || 0 <= p < |next|)
    && (forall i :: 0 <= i < |q| ==> LinkAt(next, q, i))
    && (forall i, j :: 0 <= i < j < |q| ==> q[i] != q[j])
  }

  ghost predicate LinkAt(next: seq<int>, q: seq<int>, i: nat)
    requires i < |q|
  {
    0 <= q[i] < |next| && next[q[i]] == if i + 1 < |q| then q[i + 1] else NULL
  }

  lemma PushListed(next: seq<int>, p: int, q: seq<int>, x: int)
    requires Listed(next, p, q) && 0 <= x < |next| && x !in Elements(q)
    ensures Listed(next[x := p], x, [x] + q)
    ensures Elements([x] + q) == Elements(q) + {x}
  {
    var r, next' := [x] + q, next[x := p];
    assert forall i :: 0 <= i < |q| ==> q[i] in Elements(q);
    assert forall i :: 0 < i < |r| ==> r[i] == q[i - 1];
    forall i | 0 <= i < |r|
      ensures LinkAt(next', r, i)
    {
      if i > 0 { assert LinkAt(next, q, i - 1); }
    }
    forall y
      ensures y in Elements(r) <==> y in Elements(q) + {x}
    {
      if i :| 0 <= i < |q| && q[i] == y { assert r[i + 1] == y; }
      assert r[0] == x;
    }
  }

  lemma PopListed(next: seq<int>, p: int, q: seq<int>)
    requires Listed(next, p, q) && q != []
    ensures p != NULL && Listed(next, next[p], q[1..]) && Elements(q[1..]) == Elements(q) - {p}
  {
    var r := q[1..];
    assert LinkAt(next, q, 0);
    if r != [] { assert LinkAt(next, q, 1); }
    forall i | 0 <= i < |r|
      ensures LinkAt(next, r, i)
    {
      assert LinkAt(next, q, i + 1);
    }
    forall i, j | 0 <= i < j < |r|
      ensures r[i] != r[j]
    {
      assert r[i] == q[i + 1] && r[j] == q[j + 1];
    }
    forall y
      ensures y in Elements(r) <==> y in Elements(q) - {p}
    {
      if i :| 0 <= i < |q| && q[i] == y && y != p { assert r[i - 1] == y; }
    }
  }

  /** A list has no circle. */
  lemma ListedEnds(next: seq<int>, p: int, q: seq<int>)
    requires Listed(next, p, q)
    ensures Sound(next, p) && !Circular(next, p)
  {
    ListedWalk(next, p, q);
    MetOrEnded(next, p, |q|);
    forall k: nat
      ensures Walk(next, p, k) == NULL || 0 <= Walk(next, p, k) < |next|
    {
      ListedSound(next, p, q, k);
    }
  }

  lemma {:induction false} ListedSound(next: seq<int>, p: int, q: seq<int>, k: nat)
    requires Listed(next, p, q)
    ensures Walk(next, p, k) == NULL || 0 <= Walk(next, p, k) < |next|
    decreases k
  {
    if k > 0 && q != [] {
      PopListed(next, p, q);
      ListedSound(next, next[p], q[1..], k - 1);
    }
  }

  /** Whatever the users of elements in use store into them, where the link would
      be, the free list stays as it is. */
  lemma StoresKeepList(next: seq<int>, p: int, q: seq<int>, x: int, word: int)
    requires Listed(next, p, q) && 0 <= x < |next| && x !in Elements(q)
    ensures Listed(next[x := word], p, q) && Sound(next[x := word], p) && !Circular(next[x := word], p)
  {
    var next' := next[x := word];
    forall i | 0 <= i < |q|
      ensures LinkAt(next', q, i)
    {
      assert LinkAt(next, q, i) && q[i] in Elements(q);
    }
    ListedEnds(next', p, q);
  }

  lemma {:induction false} ListedWalk(next: seq<int>, p: int, q: seq<int>)
    requires Listed(next, p, q)
    ensures Walk(next, p, |q|) == NULL
    decreases |q|
  {
    if q != [] {
      PopListed(next, p, q);
      ListedWalk(next, next[p], q[1..]);
    }
  }

  lemma {:induction false} RangeSize(n: nat)
    ensures |Range(n)| == n
  {
    if n > 0 { RangeSize(n - 1); }
  }

  /** Elements are neither lost nor doubled: the free ones and those in use are
      num in all. */
  lemma {:induction false} FreePlusLive(free: seq<int>, live: set<int>, num: nat)
    requires forall i, j :: 0 <= i < j < |free| ==> free[i] != free[j]
    requires forall i :: 0 <= i < |free| ==> free[i] !in live
    requires live + Elements(free) == Range(num)
    ensures |free| + |live| == num
    decreases |free|
  {
    if free == [] {
      assert live == Range(num);
      RangeSize(num);
    } else {
      var x, rest := free[0], free[1..];
      assert forall i :: 0 <= i < |rest| ==> rest[i] == free[i + 1];
      assert free == [x] + rest;
      ElementsCons(x, rest);
      FreePlusLive(rest, live + {x}, num);
    }
  }

  lemma ElementsCons(x: int, q: seq<int>)
    ensures Elements([x] + q) == {x} + Elements(q)
  {
    var r := [x] + q;
    assert r[0] == x && forall i :: 0 < i < |r| ==> r[i] == q[i - 1];
    forall y | y in Elements(q)
      ensures y in Elements(r)
    {
      var i :| 0 <= i < |q| && q[i] == y;
      assert r[i + 1] == y;
    }
  }
}
