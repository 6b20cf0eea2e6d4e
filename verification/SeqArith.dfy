// Sequence numbers of section 3.3 of RFC 793, as tcp_priv.h compares them:
// 32-bit unsigned values, compared by the sign of their 32-bit difference.
module SeqArith {
  import opened Words

  /** The u32 that represents an (unbounded) stream position. */
  function Wrap(p: int): u32 {
    p % 0x1_0000_0000
  }

  /** The (s32_t) cast. */
  function Signed(x: u32): int {
    if x < 0x8000_0000 then x else x - 0x1_0000_0000
  }

  predicate SeqLt(a: int, b: int) { Signed(Wrap(a - b)) < 0 }

  predicate SeqLeq(a: int, b: int) { Signed(Wrap(a - b)) <= 0 }

  predicate SeqGt(a: int, b: int) { Signed(Wrap(a - b)) > 0 }

  predicate SeqGeq(a: int, b: int) { Signed(Wrap(a - b)) >= 0 }

  predicate SeqBetween(a: int, b: int, c: int) { SeqGeq(a, b) && SeqLeq(a, c) }

  /** u32 addition of wrapped values is addition of positions, wrapped. */
  lemma WrapAdd(p: int, n: int)
    ensures Wrap(Wrap(p) + n) == Wrap(p + n)
  {
    var k := p / 0x1_0000_0000;
    assert p == 0x1_0000_0000 * k + Wrap(p);
    assert p + n == 0x1_0000_0000 * k + (Wrap(p) + n);
  }

  /** Positions less than half the sequence space apart: the signed 32-bit
      difference of their representations is their true distance. */
  lemma SignedDistance(p: int, q: int)
    requires -0x8000_0000 <= p - q < 0x8000_0000
    ensures Signed(Wrap(Wrap(p) - Wrap(q))) == p - q
  {
    var k, l := p / 0x1_0000_0000, q / 0x1_0000_0000;
    assert p == 0x1_0000_0000 * k + Wrap(p);
    assert q == 0x1_0000_0000 * l + Wrap(q);
    assert Wrap(p) - Wrap(q) == p - q - 0x1_0000_0000 * (k - l);
    WrapShift(p - q, k - l);
  }

  lemma WrapShift(d: int, m: int)
    ensures Wrap(d - 0x1_0000_0000 * m) == Wrap(d)
  {
    var k := d / 0x1_0000_0000;
    assert d == 0x1_0000_0000 * k + Wrap(d);
    assert d - 0x1_0000_0000 * m == 0x1_0000_0000 * (k - m) + Wrap(d);
  }

  /** Offsets inside the unsigned comparison arguments may be left unwrapped. */
  lemma WrapDifference(a: int, m: int, b: int, n: int)
    ensures Wrap((Wrap(a) + m) - (Wrap(b) + n)) == Wrap(Wrap(a + m) - Wrap(b + n))
  {
    var ka, kb := a / 0x1_0000_0000, b / 0x1_0000_0000;
    assert a == 0x1_0000_0000 * ka + Wrap(a) && b == 0x1_0000_0000 * kb + Wrap(b);
    var la, lb := (a + m) / 0x1_0000_0000, (b + n) / 0x1_0000_0000;
    assert a + m == 0x1_0000_0000 * la + Wrap(a + m) && b + n == 0x1_0000_0000 * lb + Wrap(b + n);
    WrapShift(a + m - b - n, ka - kb);
    WrapShift(a + m - b - n, la - lb);
  }

  /** The comparison macros decide the order of positions, also when small
      offsets have been added to the wrapped values. */
  lemma Compare(a: int, m: int, b: int, n: int)
    requires -0x8000_0000 < (a + m) - (b + n) < 0x8000_0000
    ensures SeqLt(Wrap(a) + m, Wrap(b) + n) <==> a + m < b + n
    ensures SeqLeq(Wrap(a) + m, Wrap(b) + n) <==> a + m <= b + n
    ensures SeqGt(Wrap(a) + m, Wrap(b) + n) <==> a + m > b + n
    ensures SeqGeq(Wrap(a) + m, Wrap(b) + n) <==> a + m >= b + n
  {
    WrapDifference(a, m, b, n);
    SignedDistance(a + m, b + n);
  }
}
