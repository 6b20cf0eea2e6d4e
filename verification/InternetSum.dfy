// The sum of section 1 of RFC 1071 over a run of bytes, and the arithmetic of
// ones' complement that lets it be computed piecewise and byte-swapped.
module InternetSum {
  import opened Words

  /** The bytes, weighted as the low or high half of little-endian 16-bit words;
      odd: the first byte is a high half. */
  function Weight(bs: seq<byte>, odd: bool): nat {
    if bs == [] then 0 else bs[0] * (if odd then 256 else 1) + Weight(bs[1..], !odd)
  }

  /** n in ones' complement: 0 for 0, otherwise between 1 and 0xffff. */
  function Norm(n: nat): u16 {
    if n == 0 then 0 else (n - 1) % 0xffff + 1
  }

  /** The (non-inverted) Internet sum in host order. */
  function Chksum(bs: seq<byte>): u16 { Norm(Weight(bs, false)) }

  function Complement(x: u16): u16 { 0xffff - x }

  /** FOLD_U32T */
  function Fold(u: u32): u32 { u / 0x1_0000 + u % 0x1_0000 }

  /** SWAP_BYTES_IN_WORD, htons */
  function Swap(w: u32): u16 { w % 0x100 * 0x100 + w / 0x100 % 0x100 }

  function Parity(n: nat): bool { n % 2 == 1 }

  // --------------------------------------------------------------- congruence

  /** x stands for n in ones' complement. */
  ghost predicate Stands(x: int, n: int) {
    0 <= x && 0 <= n && (x == 0 <==> n == 0) && exists k: int :: x - n == 0xffff * k
  }

  lemma StandsBy(x: int, n: int, k: int)
    requires 0 <= x && 0 <= n && (x == 0 <==> n == 0) && x - n == 0xffff * k
    ensures Stands(x, n)
  {
  }

  lemma StandsTrans(x: int, y: int, z: int)
    requires Stands(x, y) && Stands(y, z)
    ensures Stands(x, z)
  {
    var k :| x - y == 0xffff * k;
    var l :| y - z == 0xffff * l;
    StandsBy(x, z, k + l);
  }

  lemma StandsAdd(x: int, n: int, y: int, m: int)
    requires Stands(x, n) && Stands(y, m)
    ensures Stands(x + y, n + m)
  {
    var k :| x - n == 0xffff * k;
    var l :| y - m == 0xffff * l;
    StandsBy(x + y, n + m, k + l);
  }

  lemma StandsSelf(n: nat)
    ensures Stands(n, n)
  {
    StandsBy(n, n, 0);
  }

  lemma NormStands(n: nat)
    ensures Stands(Norm(n), n)
  {
    if n == 0 {
      StandsBy(0, 0, 0);
    } else {
      StandsBy(Norm(n), n, -((n - 1) / 0xffff));
    }
  }

  /** A 16-bit value that stands for n is Norm(n). */
  lemma StandsIsNorm(x: u16, n: nat)
    requires Stands(x, n)
    ensures x == Norm(n)
  {
    if n != 0 {
      var k :| x - n == 0xffff * k;
      var l := (n - 1) / 0xffff;
      assert n - 1 == 0xffff * l + (n - 1) % 0xffff;
      assert x - Norm(n) == 0xffff * (k + l);
    }
  }

  lemma FoldStands(u: u32)
    ensures Stands(Fold(u), u)
    ensures u <= 0x1_fffe ==> Fold(u) <= 0xffff
    ensures Fold(u) <= 0x1_fffe
  {
    StandsBy(Fold(u), u, -(u / 0x1_0000));
  }

  /** Two folds bring any 32-bit sum down to 16 bits. */
  lemma FoldTwice(u: u32)
    ensures Fold(Fold(u)) == Norm(u)
  {
    FoldStands(u);
    FoldStands(Fold(u));
    StandsTrans(Fold(Fold(u)), Fold(u), u);
    StandsIsNorm(Fold(Fold(u)), u);
  }

  /** Swapping the bytes of a 16-bit value multiplies by 256. */
  lemma SwapStands(w: u16)
    ensures Stands(Swap(w), 256 * w) && Swap(Swap(w)) == w
  {
    var hi, lo := w / 0x100, w % 0x100;
    assert w == hi * 0x100 + lo;
    assert Swap(w) == lo * 0x100 + hi;
    StandsBy(Swap(w), 256 * w, -hi);
  }

  lemma SwapNorm(n: nat)
    ensures Swap(Norm(n)) == Norm(256 * n)
  {
    SwapStands(Norm(n));
    NormStands(n);
    var k :| Norm(n) - n == 0xffff * k;
    StandsBy(256 * Norm(n), 256 * n, 256 * k);
    StandsTrans(Swap(Norm(n)), 256 * Norm(n), 256 * n);
    StandsIsNorm(Swap(Norm(n)), 256 * n);
  }

  // ------------------------------------------------------------------- weights

  lemma {:induction false} WeightAppend(a: seq<byte>, b: seq<byte>, odd: bool)
    ensures Weight(a + b, odd) == Weight(a, odd) + Weight(b, odd != Parity(|a|))
    decreases |a|
  {
    if a == [] {
      assert a + b == b;
    } else {
      assert (a + b)[1..] == a[1..] + b;
      WeightAppend(a[1..], b, !odd);
    }
  }

  /** Starting on the other half of a word multiplies by 256. */
  lemma {:induction false} WeightSwap(bs: seq<byte>, odd: bool)
    ensures Stands(256 * Weight(bs, odd), Weight(bs, !odd))
    decreases |bs|
  {
    if bs == [] {
      StandsBy(0, 0, 0);
    } else {
      WeightSwap(bs[1..], !odd);
      var b: int := bs[0];
      if odd {
        StandsBy(256 * (b * 256), b, b);
      } else {
        StandsBy(256 * b, b * 256, 0);
      }
      StandsAdd(256 * (b * (if odd then 256 else 1)), b * (if odd then 1 else 256),
                256 * Weight(bs[1..], !odd), Weight(bs[1..], odd));
    }
  }

  lemma NormOf(x: nat, n: nat)
    requires Stands(x, n)
    ensures Norm(x) == Norm(n)
  {
    NormStands(x);
    StandsTrans(Norm(x), x, n);
    StandsIsNorm(Norm(x), n);
  }

  /** The sum of bytes that start on an odd half, swapped, is their sum. */
  lemma SwapWeight(bs: seq<byte>, odd: bool)
    ensures Swap(Norm(Weight(bs, odd))) == Norm(Weight(bs, !odd))
  {
    SwapNorm(Weight(bs, odd));
    WeightSwap(bs, odd);
    NormOf(256 * Weight(bs, odd), Weight(bs, !odd));
  }

  lemma NormAdd(a: nat, b: nat)
    ensures Norm(Norm(a) + b) == Norm(a + b)
  {
    NormStands(a);
    StandsSelf(b);
    StandsAdd(Norm(a), a, b, b);
    NormOf(Norm(a) + b, a + b);
  }
}
