// inet_chksum.c: the three lwip_standard_chksum versions and the sums over
// pbuf chains, with and without pseudo header, on a little-endian machine.
module Checksum {
  import opened Words
  import opened InternetSum

  /** A pbuf: its payload and the address of the first byte. */
  datatype Buf = Buf(payload: seq<byte>, addr: nat)

  // ------------------------------------------------------------ reading memory

  /** The u16_t at pos. */
  function Word(bs: seq<byte>, pos: nat): u16
    requires pos + 2 <= |bs|
  {
    bs[pos] as int + 0x100 * bs[pos + 1] as int
  }

  /** The u32_t at pos. */
  function Long(bs: seq<byte>, pos: nat): u32
    requires pos + 4 <= |bs|
  {
    Word(bs, pos) as int + 0x1_0000 * Word(bs, pos + 2) as int
  }

  lemma WeightNext(bs: seq<byte>, h: nat, pos: nat, odd: bool)
    requires h <= pos < |bs|
    ensures Weight(bs[h..pos + 1], odd) ==
            Weight(bs[h..pos], odd) + bs[pos] as int * (if odd != Parity(pos - h) then 256 else 1)
  {
    assert bs[h..pos + 1] == bs[h..pos] + [bs[pos]];
    WeightAppend(bs[h..pos], [bs[pos]], odd);
    assert Weight([bs[pos]][1..], !(odd != Parity(pos - h))) == 0;
  }

  lemma WeightWord(bs: seq<byte>, h: nat, pos: nat)
    requires h <= pos && pos + 2 <= |bs| && (pos - h) % 2 == 0
    ensures Weight(bs[h..pos + 2], false) == Weight(bs[h..pos], false) + Word(bs, pos)
    ensures Weight(bs[h..pos + 2], true) == Weight(bs[h..pos], true) + Swap(Word(bs, pos))
  {
    hide Weight;
    WeightNext(bs, h, pos, false);
    WeightNext(bs, h, pos + 1, false);
    WeightNext(bs, h, pos, true);
    WeightNext(bs, h, pos + 1, true);
  }

  /** The head byte, the words and the tail byte make up the buffer. */
  lemma WeightParts(bs: seq<byte>, h: nat, pos: nat)
    requires h <= 1 && h <= pos <= |bs| <= pos + 1 && (pos - h) % 2 == 0
    ensures Weight(bs, h == 1) ==
            (if h == 1 then 0x100 * bs[0] as int else 0) + Weight(bs[h..pos], false)
            + (if pos < |bs| then bs[pos] else 0)
  {
    hide Weight;
    if pos < |bs| {
      WeightNext(bs, h, pos, false);
    }
    assert bs[h..|bs|] == bs[h..];
    assert h == 0 ==> bs[h..] == bs;
    WeightFirst(bs);
  }

  lemma WeightFirst(bs: seq<byte>)
    ensures bs != [] ==> Weight(bs, true) == 0x100 * bs[0] as int + Weight(bs[1..], false)
  {
  }

  // ------------------------------------------------------------- the versions

  /** Version 1: bytes in network order, deferred carries. */
  method StandardChksum1(bs: seq<byte>, addr: nat) returns (r: u16)
    requires |bs| <= 0x2_0000
    ensures r == Chksum(bs)
  {
    hide Weight, Norm;
    var acc: u32, pos := 0, 0;
    WeightEmpty(bs, 0);
    while |bs| - pos > 1
      invariant 0 <= pos <= |bs| && pos % 2 == 0 && acc == Weight(bs[0..pos], true) <= 0xffff * (pos / 2)
    {
      WeightWord(bs, 0, pos);
      var src: int := bs[pos] as int * 0x100;
      src := src + bs[pos + 1];
      acc := acc + src;
      pos := pos + 2;
    }
    if |bs| - pos > 0 {
      WeightNext(bs, 0, pos, true);
      acc := acc + bs[pos] as int * 0x100;
    }
    assert bs[0..|bs|] == bs;
    FoldNetwork(acc, bs);
    acc := Fold(acc);
    if acc / 0x1_0000 != 0 {
      acc := Fold(acc);
    }
    return Swap(acc);
  }

  /** The end of version 1: two folds are enough, the second may change nothing. */
  lemma FoldNetwork(acc: u32, bs: seq<byte>)
    requires acc == Weight(bs, true)
    ensures Fold(acc) / 0x1_0000 == 0 ==> Swap(Fold(acc)) == Chksum(bs)
    ensures Fold(Fold(acc)) < 0x1_0000 && Swap(Fold(Fold(acc))) == Chksum(bs)
  {
    hide Weight, Norm;
    FoldTwice(acc);
    SwapWeight(bs, true);
  }

  /** Version 2: two bytes at a time from an even address on. */
  method StandardChksum2(bs: seq<byte>, addr: nat) returns (r: u16)
    requires |bs| <= 0x2_0000
    ensures r == Chksum(bs)
  {
    hide Weight, Norm;
    var t: u16, sum: u32, pos := 0, 0, 0;
    var odd := addr % 2 == 1;
    if odd && |bs| > 0 {
      t := 0x100 * bs[0] as int;
      pos := 1;
    }
    ghost var h := pos;
    WeightEmpty(bs, h);
    while |bs| - pos > 1
      invariant h <= pos <= |bs| && (pos - h) % 2 == 0
      invariant sum == Weight(bs[h..pos], false) <= 0xffff * ((pos - h) / 2)
    {
      WeightWord(bs, h, pos);
      sum := sum + Word(bs, pos);
      pos := pos + 2;
    }
    if |bs| - pos > 0 {
      t := t / 0x100 * 0x100 + bs[pos];
    }
    WeightParts(bs, h, pos);
    EmptyBytes(bs);
    r := FoldAndSwap(sum + t, odd, bs);
  }

  /** The end of versions 2 and 3: fold, and swap if the alignment was odd. */
  method FoldAndSwap(sum: u32, odd: bool, ghost bs: seq<byte>) returns (r: u16)
    requires Norm(sum) == Norm(Weight(bs, odd))
    ensures r == Chksum(bs)
  {
    hide Weight, Norm;
    FoldTwice(sum);
    SwapWeight(bs, true);
    r := Fold(Fold(sum));
    if odd {
      r := Swap(r);
    }
  }

  lemma WeightEmpty(bs: seq<byte>, h: nat)
    requires h <= |bs|
    ensures Weight(bs[h..h], false) == 0 && Weight(bs[h..h], true) == 0
  {
  }

  lemma EmptyBytes(bs: seq<byte>)
    ensures bs == [] ==> Weight(bs, false) == Weight(bs, true) == 0
  {
  }

  /** Add a 32-bit word and bring the carry around. */
  method AddCarry(sum: u32, w: u32) returns (r: u32)
    ensures Stands(r, sum + w)
  {
    r := (sum + w) % 0x1_0000_0000;
    if r < sum {
      StandsBy(r + 1, sum + w, -0x1_0001);
      r := r + 1;
    } else {
      StandsBy(r, sum + w, 0);
    }
  }

  lemma LongStands(bs: seq<byte>, h: nat, pos: nat, sum: u32, r: u32)
    requires h <= pos && pos + 4 <= |bs| && (pos - h) % 2 == 0
    requires Stands(sum, Weight(bs[h..pos], false)) && Stands(r, sum + Long(bs, pos))
    ensures Stands(r, Weight(bs[h..pos + 4], false))
  {
    hide Weight;
    WeightWord(bs, h, pos);
    WeightWord(bs, h, pos + 2);
    var a: int, b: int := Word(bs, pos), Word(bs, pos + 2);
    StandsBy(Long(bs, pos), a + b, b);
    StandsAdd(sum, Weight(bs[h..pos], false), Long(bs, pos), a + b);
    StandsTrans(r, sum + Long(bs, pos), Weight(bs[h..pos], false) + (a + b));
  }

  lemma WordStands(bs: seq<byte>, h: nat, pos: nat, sum: int)
    requires h <= pos && pos + 2 <= |bs| && (pos - h) % 2 == 0
    requires Stands(sum, Weight(bs[h..pos], false))
    ensures Stands(sum + Word(bs, pos), Weight(bs[h..pos + 2], false))
  {
    hide Weight;
    WeightWord(bs, h, pos);
    StandsSelf(Word(bs, pos));
    StandsAdd(sum, Weight(bs[h..pos], false), Word(bs, pos), Word(bs, pos));
  }

  /** Version 3: eight bytes at a time from a 32-bit boundary on. */
  method StandardChksum3(bs: seq<byte>, addr: nat) returns (r: u16)
    ensures r == Chksum(bs)
  {
    hide Weight, Norm, Stands;
    var t: u16, sum: u32, pos := 0, 0, 0;
    var odd := addr % 2 == 1;
    if odd && |bs| > 0 {
      t := 0x100 * bs[0] as int;
      pos := 1;
    }
    ghost var h := pos;
    WeightEmpty(bs, h);
    StandsSelf(0);
    if (addr + pos) % 4 != 0 && |bs| - pos > 1 {
      WordStands(bs, h, pos, sum);
      sum := sum + Word(bs, pos);
      pos := pos + 2;
    }
    sum, pos := SumLongs(bs, h, pos, sum);
    sum, pos := SumWords(bs, h, pos, sum);
    if |bs| - pos > 0 {
      t := t / 0x100 * 0x100 + bs[pos];
    }
    WeightParts(bs, h, pos);
    StandsSelf(t);
    StandsAdd(sum, Weight(bs[h..pos], false), t, t);
    NormOf(sum + t, Weight(bs, h == 1));
    EmptyBytes(bs);
    r := FoldAndSwap(sum + t, odd, bs);
  }

  /** The unrolled loop over pairs of 32-bit words, and the fold behind it. */
  method SumLongs(bs: seq<byte>, ghost h: nat, pos0: nat, sum0: u32) returns (sum: u32, pos: nat)
    requires h <= pos0 <= |bs| && (pos0 - h) % 2 == 0 && Stands(sum0, Weight(bs[h..pos0], false))
    ensures pos0 <= pos <= |bs| && (pos - h) % 2 == 0 && |bs| - pos <= 7
    ensures Stands(sum, Weight(bs[h..pos], false)) && sum <= 0x1_fffe
  {
    hide Weight, Stands;
    sum, pos := sum0, pos0;
    while |bs| - pos > 7
      invariant pos0 <= pos <= |bs| && (pos - h) % 2 == 0 && Stands(sum, Weight(bs[h..pos], false))
    {
      var tmp := AddCarry(sum, Long(bs, pos));
      LongStands(bs, h, pos, sum, tmp);
      sum := AddCarry(tmp, Long(bs, pos + 4));
      LongStands(bs, h, pos + 4, tmp, sum);
      pos := pos + 8;
    }
    FoldStands(sum);
    StandsTrans(Fold(sum), sum, Weight(bs[h..pos], false));
    sum := Fold(sum);
  }

  /** The 16-bit words that remain. */
  method SumWords(bs: seq<byte>, ghost h: nat, pos0: nat, sum0: u32) returns (sum: u32, pos: nat)
    requires h <= pos0 <= |bs| <= pos0 + 7 && (pos0 - h) % 2 == 0
    requires Stands(sum0, Weight(bs[h..pos0], false)) && sum0 <= 0x1_fffe
    ensures pos0 <= pos <= |bs| <= pos + 1 && (pos - h) % 2 == 0
    ensures Stands(sum, Weight(bs[h..pos], false)) && sum <= 0x8_0000
  {
    hide Weight, Stands;
    sum, pos := sum0, pos0;
    while |bs| - pos > 1
      invariant pos0 <= pos <= |bs| && (pos - h) % 2 == 0 && Stands(sum, Weight(bs[h..pos], false))
      invariant sum <= 0x1_fffe + 0xffff * ((pos - pos0) / 2)
    {
      WordStands(bs, h, pos, sum);
      sum := sum + Word(bs, pos);
      pos := pos + 2;
    }
  }

  /** The most n bytes can weigh: all bits set. */
  function Heaviest(n: nat, odd: bool): nat {
    0xff00 * ((n + (if odd then 1 else 0)) / 2) + 0xff * ((n + (if odd then 0 else 1)) / 2)
  }

  lemma {:induction false} WeightBound(bs: seq<byte>, odd: bool)
    ensures Weight(bs, odd) <= Heaviest(|bs|, odd)
    ensures (forall i :: 0 <= i < |bs| ==> bs[i] == 0xff) ==> Weight(bs, odd) == Heaviest(|bs|, odd)
    decreases |bs|
  {
    if bs != [] { WeightBound(bs[1..], !odd); }
  }

  /** The 32-bit accumulator of version 2 holds the sum of every buffer of len
      bytes, from an even address or an odd one, if and only if len is at most
      0x20002; the stated bound is 0x20000. */
  lemma AccumulatorBound(len: nat, odd: bool)
    ensures (forall bs: seq<byte> :: |bs| == len ==> Weight(bs, odd) < 0x1_0000_0000) <==> len <= 0x2_0002
  {
    var ones: seq<byte> := seq(len, _ => 0xff);
    WeightBound(ones, odd);
    assert |ones| == len;
    forall bs: seq<byte> | |bs| == len
      ensures Weight(bs, odd) <= Heaviest(len, odd)
    {
      WeightBound(bs, odd);
    }
  }

  // ------------------------------------------------------------------- chains

  /** The bytes of a chain. */
  function Flat(p: seq<Buf>): seq<byte> {
    if p == [] then [] else p[0].payload + Flat(p[1..])
  }

  /** len of a pbuf is a u16_t. */
  predicate Sized(p: seq<Buf>) {
    forall i :: 0 <= i < |p| ==> |p[i].payload| < 0x1_0000
  }

  lemma {:induction false} FlatNext(p: seq<Buf>, k: nat)
    requires k < |p|
    ensures Flat(p[..k + 1]) == Flat(p[..k]) + p[k].payload
    decreases k
  {
    if k == 0 {
      assert p[..1][1..] == [];
    } else {
      assert p[..k + 1][1..] == p[1..][..k] && p[..k][1..] == p[1..][..k - 1];
      FlatNext(p[1..], k - 1);
    }
  }

  /** n, moved to the other half of the word if swapped. */
  function Turn(n: nat, swapped: bool): nat { if swapped then 256 * n else n }

  lemma TurnNorm(n: nat, swapped: bool)
    ensures Swap(Norm(Turn(n, swapped))) == Norm(Turn(n, !swapped))
  {
    SwapNorm(Turn(n, swapped));
    if swapped {
      StandsBy(256 * (256 * n), n, n);
      NormOf(256 * (256 * n), n);
    }
  }

  /** The sum of a chunk behind an odd number of bytes, seen from there. */
  lemma TurnWeight(acc: nat, chunk: seq<byte>, swapped: bool)
    ensures Norm(Norm(Turn(acc, swapped)) + Chksum(chunk)) == Norm(Turn(acc + Weight(chunk, swapped), swapped))
  {
    hide Weight, Norm, Stands;
    var a, b := Turn(acc, swapped), Weight(chunk, swapped);
    NormStands(a);
    NormStands(Weight(chunk, false));
    if swapped {
      WeightSwap(chunk, true);
      StandsSym(256 * b, Weight(chunk, false));
      StandsTrans(Norm(Weight(chunk, false)), Weight(chunk, false), 256 * b);
    }
    StandsAdd(Norm(a), a, Chksum(chunk), Turn(b, swapped));
    NormOf(Norm(a) + Chksum(chunk), a + Turn(b, swapped));
  }

  lemma StandsSym(x: int, y: int)
    requires Stands(x, y)
    ensures Stands(y, x)
  {
    var k :| x - y == 0xffff * k;
    StandsBy(y, x, -k);
  }

  /** One pbuf: add its sum and fold; swap if its length is odd. */
  method AddBuf(acc0: u16, swapped0: bool, chunk: seq<byte>, addr: nat, swap: bool, ghost total: nat)
    returns (acc: u16, swapped: bool)
    requires |chunk| < 0x1_0000 && acc0 == Norm(Turn(total, swapped0))
    ensures swapped == (swapped0 != swap)
    ensures acc == Norm(Turn(total + Weight(chunk, swapped0), swapped))
  {
    hide Weight, Turn;
    var c := StandardChksum2(chunk, addr);
    TurnWeight(total, chunk, swapped0);
    var sum: u32 := acc0 + c;
    FoldStands(sum);
    StandsIsNorm(Fold(sum), sum);
    acc, swapped := Fold(sum), swapped0;
    if swap {
      TurnNorm(total + Weight(chunk, swapped0), swapped0);
      acc, swapped := Swap(acc), !swapped;
    }
  }

  /** The loop over a chain that all chain sums share. */
  method AddChain(p: seq<Buf>, acc0: u16, ghost total: nat) returns (acc: u16)
    requires Sized(p) && acc0 == Norm(total)
    ensures acc == Norm(total + Weight(Flat(p), false))
  {
    hide Weight, Norm, Flat;
    acc := acc0;
    var swapped, i := false, 0;
    FlatEmpty(p);
    while i < |p|
      invariant 0 <= i <= |p| && swapped == Parity(|Flat(p[..i])|)
      invariant acc == Norm(Turn(total + Weight(Flat(p[..i]), false), swapped))
    {
      FlatNext(p, i);
      WeightAppend(Flat(p[..i]), p[i].payload, false);
      acc, swapped := AddBuf(acc, swapped, p[i].payload, p[i].addr, |p[i].payload| % 2 != 0,
                             total + Weight(Flat(p[..i]), false));
      i := i + 1;
    }
    assert p[..|p|] == p;
    TurnNorm(total + Weight(Flat(p), false), swapped);
    if swapped {
      acc := Swap(acc);
    }
  }

  lemma FlatEmpty(p: seq<Buf>)
    ensures Flat(p[..0]) == [] && Weight([], false) == 0
  {
    assert p[..0] == [];
  }

  /** inet_chksum_pbuf: the chain sum is the sum of the concatenation. */
  method InetChksumPbuf(p: seq<Buf>) returns (r: u16)
    requires Sized(p)
    ensures r == Complement(Chksum(Flat(p)))
  {
    var acc := AddChain(p, 0, 0);
    return Complement(acc);
  }

  /** inet_chksum */
  method InetChksum(bs: seq<byte>, addr: nat) returns (r: u16)
    requires |bs| < 0x1_0000
    ensures r == Complement(Chksum(bs))
  {
    var acc := StandardChksum2(bs, addr);
    return Complement(acc);
  }

  // ------------------------------------------------------------ pseudo header

  /** The IPv4 pseudo header of section 3.1 of RFC 793. */
  function PseudoHeader(src: seq<byte>, dst: seq<byte>, proto: byte, len: u16): seq<byte> {
    src + dst + [0, proto] + [len / 0x100, len % 0x100]
  }

  lemma PseudoWeight(src: seq<byte>, dst: seq<byte>, proto: byte, len: u16)
    requires |src| == |dst| == 4
    ensures Weight(PseudoHeader(src, dst, proto, len), false) ==
            Word(src, 0) + Word(src, 2) + Word(dst, 0) + Word(dst, 2) + Swap(proto) + Swap(len)
  {
    FourBytes(src);
    FourBytes(dst);
    WeightAppend(src + dst + [0, proto], [len / 0x100, len % 0x100], false);
    WeightAppend(src + dst, [0, proto], false);
    WeightAppend(src, dst, false);
    TwoBytes(0, proto);
    TwoBytes(len / 0x100, len % 0x100);
  }

  lemma TwoBytes(a: byte, b: byte)
    ensures Weight([a, b], false) == a as int + 0x100 * b as int
  {
    assert [a, b][1..] == [b];
    assert [b][1..] == [];
    assert Weight([b], true) == 0x100 * b as int;
  }

  lemma FourBytes(bs: seq<byte>)
    requires |bs| == 4
    ensures Weight(bs, false) == Word(bs, 0) as int + Word(bs, 2) as int
  {
    WeightEmpty(bs, 0);
    WeightWord(bs, 0, 0);
    WeightWord(bs, 0, 2);
    assert bs[0..4] == bs;
  }

  /** The addresses, folded down to 16 bits. */
  method AddAddresses(src: seq<byte>, dst: seq<byte>) returns (acc: u16)
    requires |src| == |dst| == 4
    ensures acc == Norm(Word(src, 0) + Word(src, 2) + Word(dst, 0) + Word(dst, 2))
  {
    var sum: u32 := Word(src, 0);
    sum := sum + Word(src, 2);
    sum := sum + Word(dst, 0);
    sum := sum + Word(dst, 2);
    FoldTwice(sum);
    acc := Fold(Fold(sum));
  }

  /** The rest of the pseudo header and the final complement. */
  method Finish(acc0: u16, proto: byte, protoLen: u16, ghost total: nat) returns (r: u16)
    requires acc0 == Norm(total)
    ensures r == Complement(Norm(total + (Swap(proto) + Swap(protoLen))))
  {
    var acc: u32 := acc0 + Swap(proto) as int + Swap(protoLen) as int;
    FoldTwice(acc);
    acc := Fold(Fold(acc));
    NormAdd(total, Swap(proto) + Swap(protoLen));
    return Complement(acc);
  }

  /** inet_chksum_pseudo: the sum of pseudo header and payload as one run. */
  method InetChksumPseudo(p: seq<Buf>, proto: byte, protoLen: u16, src: seq<byte>, dst: seq<byte>) returns (r: u16)
    requires Sized(p) && |src| == |dst| == 4
    ensures r == Complement(Chksum(PseudoHeader(src, dst, proto, protoLen) + Flat(p)))
  {
    hide Weight, Norm, Flat, Swap;
    var acc := AddAddresses(src, dst);
    ghost var total := Word(src, 0) + Word(src, 2) + Word(dst, 0) + Word(dst, 2);
    acc := AddChain(p, acc, total);
    r := Finish(acc, proto, protoLen, total + Weight(Flat(p), false));
    PseudoWeight(src, dst, proto, protoLen);
    WeightAppend(PseudoHeader(src, dst, proto, protoLen), Flat(p), false);
    EvenHeader(src, dst, proto, protoLen);
  }

  lemma EvenHeader(src: seq<byte>, dst: seq<byte>, proto: byte, len: u16)
    requires |src| == |dst| == 4
    ensures |PseudoHeader(src, dst, proto, len)| == 12 && !Parity(12)
  {
  }

  /** inet_chksum_pseudo_partial: only the first chksumLen bytes count.  That the
      loop looks at the length of the whole pbuf instead of the part it summed
      does no harm: the extra swap is undone at the end. */
  method InetChksumPseudoPartial(p: seq<Buf>, proto: byte, protoLen: u16, chksumLen: u16,
                                 src: seq<byte>, dst: seq<byte>)
    returns (r: u16)
    requires Sized(p) && |src| == |dst| == 4
    ensures var n := if chksumLen < |Flat(p)| then chksumLen else |Flat(p)|;
            r == Complement(Chksum(PseudoHeader(src, dst, proto, protoLen) + Flat(p)[..n]))
  {
    hide Weight, Norm, Flat, Swap;
    var acc := AddAddresses(src, dst);
    ghost var total := Word(src, 0) + Word(src, 2) + Word(dst, 0) + Word(dst, 2);
    ghost var part := Flat(p)[..if chksumLen < |Flat(p)| then chksumLen else |Flat(p)|];
    acc := AddPart(p, chksumLen, acc, total);
    r := Finish(acc, proto, protoLen, total + Weight(part, false));
    PseudoWeight(src, dst, proto, protoLen);
    WeightAppend(PseudoHeader(src, dst, proto, protoLen), part, false);
    EvenHeader(src, dst, proto, protoLen);
  }

  method AddPart(p: seq<Buf>, chksumLen0: u16, acc0: u16, ghost total: nat) returns (acc: u16)
    requires Sized(p) && acc0 == Norm(total)
    ensures acc == Norm(total + Weight(Flat(p)[..if chksumLen0 < |Flat(p)| then chksumLen0 else |Flat(p)|], false))
  {
    hide Weight, Norm, Flat, Swap;
    acc := acc0;
    ghost var part := [];
    var swapped, i, chksumLen: u16 := false, 0, chksumLen0;
    FlatEmpty(p);
    while i < |p| && chksumLen > 0
      invariant 0 <= i <= |p| && |part| + chksumLen == chksumLen0
      invariant chksumLen > 0 ==> part == Flat(p[..i]) && swapped == Parity(|part|)
      invariant part <= Flat(p[..i])
      invariant acc == Norm(Turn(total + Weight(part, false), swapped))
    {
      var chklen := |p[i].payload|;
      if chklen > chksumLen {
        chklen := chksumLen;
      }
      FlatNext(p, i);
      WeightAppend(part, p[i].payload[..chklen], false);
      acc, swapped := AddBuf(acc, swapped, p[i].payload[..chklen], p[i].addr, |p[i].payload| % 2 != 0,
                             total + Weight(part, false));
      part := part + p[i].payload[..chklen];
      chksumLen := chksumLen - chklen;
      i := i + 1;
    }
    FlatPrefix(p, i);
    assert part == Flat(p)[..if chksumLen0 < |Flat(p)| then chksumLen0 else |Flat(p)|];
    TurnNorm(total + Weight(part, false), swapped);
    if swapped {
      acc := Swap(acc);
    }
  }

  lemma {:induction false} FlatPrefix(p: seq<Buf>, i: nat)
    requires i <= |p|
    ensures Flat(p[..i]) <= Flat(p) && (i == |p| ==> p[..i] == p)
    decreases |p| - i
  {
    if i < |p| {
      FlatNext(p, i);
      FlatPrefix(p, i + 1);
    } else {
      assert p[..i] == p;
    }
  }

  // -------------------------------------------------------------- the receiver

  /** bs with the checksum c stored, in memory order, in the two bytes at k. */
  function Stamp(bs: seq<byte>, k: nat, c: u16): seq<byte>
    requires k + 2 <= |bs|
  {
    bs[..k] + [c % 0x100, c / 0x100] + bs[k + 2..]
  }

  lemma StampWeight(bs: seq<byte>, k: nat, c: u16)
    requires k + 2 <= |bs| && k % 2 == 0 && bs[k] == 0 && bs[k + 1] == 0
    ensures Weight(Stamp(bs, k, c), false) == Weight(bs, false) + c
  {
    hide Weight;
    TwoBytes(c % 0x100, c / 0x100);
    TwoBytes(0, 0);
    WeightAppend(bs[..k] + [c % 0x100, c / 0x100], bs[k + 2..], false);
    WeightAppend(bs[..k], [c % 0x100, c / 0x100], false);
    assert bs == bs[..k] + [0, 0] + bs[k + 2..];
    WeightAppend(bs[..k] + [0, 0], bs[k + 2..], false);
    WeightAppend(bs[..k], [0, 0], false);
  }

  /** The check of tcp_input on what arrived: pseudo header and segment. */
  function Check(header: seq<byte>, segment: seq<byte>): u16 {
    Complement(Chksum(header + segment))
  }

  /** A receiver that sums a segment with its own checksum in place gets 0. */
  lemma ReceiverGetsZero(header: seq<byte>, segment: seq<byte>, k: nat)
    requires |header| % 2 == 0 && k + 2 <= |segment| && k % 2 == 0 && segment[k] == 0 && segment[k + 1] == 0
    ensures Check(header, Stamp(segment, k, Check(header, segment))) == 0
  {
    hide Weight, Stamp;
    var c := Check(header, segment);
    StampWeight(segment, k, c);
    WeightAppend(header, Stamp(segment, k, c), false);
    WeightAppend(header, segment, false);
    var n := Weight(header + segment, false);
    NormStands(n);
    var x :| Norm(n) - n == 0xffff * x;
    StandsBy(0xffff, n + c, x);
    StandsIsNorm(0xffff, n + c);
  }

  /** And one that got any single byte wrong does not. */
  lemma SingleByteDetected(bs: seq<byte>, i: nat, b: byte)
    requires i < |bs| && b != bs[i] && Complement(Chksum(bs)) == 0
    ensures Complement(Chksum(bs[i := b])) != 0
  {
    hide Weight;
    var bs' := bs[i := b];
    var w := if Parity(i) then 256 else 1;
    WeightSplit(bs, i);
    WeightSplit(bs', i);
    assert bs'[..i] == bs[..i] && bs'[i + 1..] == bs[i + 1..];
    var n: int, n': int := Weight(bs, false), Weight(bs', false);
    assert n' - n == (b as int - bs[i] as int) * w;
    if 0 < n' {
      if n < n' { NormDiffers(n, n'); } else { NormDiffers(n', n); }
    }
  }

  lemma NormDiffers(n: nat, n': nat)
    requires 0 < n < n' < n + 0xffff
    ensures Norm(n) != Norm(n')
  {
    var k, l := (n - 1) / 0xffff, (n' - 1) / 0xffff;
    assert n - 1 == 0xffff * k + (n - 1) % 0xffff;
    assert n' - 1 == 0xffff * l + (n' - 1) % 0xffff;
  }

  lemma WeightSplit(bs: seq<byte>, i: nat)
    requires i < |bs|
    ensures Weight(bs, false) ==
            Weight(bs[..i], false) + bs[i] as int * (if Parity(i) then 256 else 1) + Weight(bs[i + 1..], !Parity(i))
  {
    assert bs == bs[..i] + bs[i..];
    WeightAppend(bs[..i], bs[i..], false);
    assert bs[i..][1..] == bs[i + 1..];
  }

  /** The example of section 3 of RFC 1071, on a little-endian machine. */
  lemma RfcExample()
    ensures Chksum([0x00, 0x01, 0xf2, 0x03, 0xf4, 0xf5, 0xf6, 0xf7]) == 0xf2dd
  {
    var b: seq<byte> := [0x00, 0x01, 0xf2, 0x03, 0xf4, 0xf5, 0xf6, 0xf7];
    assert b[1..] == [0x01, 0xf2, 0x03, 0xf4, 0xf5, 0xf6, 0xf7] && b[1..][1..] == [0xf2, 0x03, 0xf4, 0xf5, 0xf6, 0xf7];
    assert Weight([0xf6, 0xf7], false) == 0xf7f6 by {
      assert [0xf6, 0xf7][1..] == [0xf7] && [0xf7][1..] == [];
      assert Weight([0xf7], true) == 0xf700;
    }
    TwoMore([0xf4, 0xf5, 0xf6, 0xf7], [0xf6, 0xf7]);
    TwoMore([0xf2, 0x03, 0xf4, 0xf5, 0xf6, 0xf7], [0xf4, 0xf5, 0xf6, 0xf7]);
    TwoMore(b, [0xf2, 0x03, 0xf4, 0xf5, 0xf6, 0xf7]);
  }

  lemma TwoMore(b: seq<byte>, rest: seq<byte>)
    requires |b| >= 2 && b[2..] == rest
    ensures Weight(b, false) == b[0] + 0x100 * b[1] + Weight(rest, false)
  {
    assert b[1..][1..] == rest && b[1..][0] == b[1];
    assert Weight(b[1..], true) == b[1] * 0x100 + Weight(rest, false);
  }
}
