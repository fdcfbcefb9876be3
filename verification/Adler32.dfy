/**
  The Adler-32 checksum of marsksim/comm/adler32.c: sums are reduced modulo 65521 only once
  per block of NMAX bytes, yet the result is the byte-at-a-time checksum of RFC 1950.
 */
module Adler32 {
  import opened Bytes

  const BASE: int := 65521
  const NMAX: int := 5552

  /** The two running sums of section 9 of RFC 1950. */
  datatype Sums = Sums(a: int, b: int)

  ghost predicate Canonical(s: Sums) {
    0 <= s.a < BASE && 0 <= s.b < BASE
  }

  /** The halves of any 32-bit word. */
  ghost predicate Halves(s: Sums) {
    0 <= s.a < 0x1_0000 && 0 <= s.b < 0x1_0000
  }

  /** adler | (sum2 << 16) for a sum1 below 2^16. */
  function Packed(s: Sums): int {
    s.a + 0x1_0000 * s.b
  }

  function Unpacked(adler: U32): Sums {
    Sums(adler % 0x1_0000, adler / 0x1_0000 % 0x1_0000)
  }

  // ---------- the definition: reduce after every byte ----------

  function Step(s: Sums, x: Byte): Sums {
    var a := (s.a + x) % BASE;
    Sums(a, (s.b + a) % BASE)
  }

  function Fold(s: Sums, data: seq<Byte>): Sums
    decreases |data|
  {
    if data == [] then s else Fold(Step(s, data[0]), data[1..])
  }

  function Reduced(s: Sums): Sums {
    Sums(s.a % BASE, s.b % BASE)
  }

  /** The checksum of RFC 1950 continued from a previous checksum. */
  function Checksum(adler: U32, data: seq<Byte>): U32 {
    FoldRange(Reduced(Unpacked(adler)), data);
    Packed(Fold(Reduced(Unpacked(adler)), data))
  }

  lemma {:induction false} FoldRange(s: Sums, data: seq<Byte>)
    requires Canonical(s)
    ensures Canonical(Fold(s, data))
    decreases |data|
  {
    if data != [] {
      FoldRange(Step(s, data[0]), data[1..]);
    }
  }

  // ---------- deferred reduction ----------

  /** The sums without any reduction. */
  function RawFold(s: Sums, data: seq<Byte>): Sums
    decreases |data|
  {
    if data == [] then s else RawFold(Sums(s.a + data[0], s.b + s.a + data[0]), data[1..])
  }

  lemma {:induction false} FoldAppend(s: Sums, x: seq<Byte>, y: seq<Byte>)
    ensures Fold(s, x + y) == Fold(Fold(s, x), y)
    decreases |x|
  {
    if x == [] {
      assert x + y == y;
    } else {
      assert (x + y)[1..] == x[1..] + y;
      FoldAppend(Step(s, x[0]), x[1..], y);
    }
  }

  lemma {:induction false} RawFoldAppend(s: Sums, x: seq<Byte>, y: seq<Byte>)
    ensures RawFold(s, x + y) == RawFold(RawFold(s, x), y)
    decreases |x|
  {
    if x == [] {
      assert x + y == y;
    } else {
      assert (x + y)[1..] == x[1..] + y;
      RawFoldAppend(Sums(s.a + x[0], s.b + s.a + x[0]), x[1..], y);
    }
  }

  lemma RemainderOfSum(x: int, y: int)
    ensures (x % BASE + y) % BASE == (x + y) % BASE
  {
    assert x + y == x % BASE + y + (x / BASE) * BASE;
  }

  lemma ReducedStep(s: Sums, x: Byte)
    requires s.a >= 0 && s.b >= 0
    ensures Step(Reduced(s), x) == Reduced(Sums(s.a + x, s.b + s.a + x))
  {
    RemainderOfSum(s.a, x);
    RemainderOfSum(s.b, (s.a + x) % BASE);
    RemainderOfSum(s.a + x, s.b);
  }

  /** Reducing once at the end gives the same sums as reducing after every byte. */
  lemma {:induction false} DeferredReduction(s: Sums, data: seq<Byte>)
    requires s.a >= 0 && s.b >= 0
    ensures Fold(Reduced(s), data) == Reduced(RawFold(s, data))
    decreases |data|
  {
    if data != [] {
      ReducedStep(s, data[0]);
      DeferredReduction(Sums(s.a + data[0], s.b + s.a + data[0]), data[1..]);
    }
  }

  lemma FoldCanonical(s: Sums, data: seq<Byte>)
    requires Canonical(s)
    ensures Canonical(Fold(s, data))
    ensures Fold(s, data) == Reduced(RawFold(s, data))
  {
    assert Reduced(s) == s;
    DeferredReduction(s, data);
    RawFoldBound(s, data);
  }

  /** How far the unreduced sums can grow over n bytes. */
  lemma {:induction false} RawFoldBound(s: Sums, data: seq<Byte>)
    requires s.a >= 0 && s.b >= 0
    ensures s.a <= RawFold(s, data).a <= s.a + 255 * |data|
    ensures s.b <= RawFold(s, data).b
    ensures 2 * RawFold(s, data).b <= 2 * s.b + 2 * (|data| * s.a) + 255 * (|data| * (|data| + 1))
    decreases |data|
  {
    if data != [] {
      var t := Sums(s.a + data[0], s.b + s.a + data[0]);
      var n := |data| - 1;
      RawFoldBound(t, data[1..]);
      assert n * t.a == n * s.a + n * data[0];
      assert n * data[0] <= n * 255;
      assert |data| * s.a == n * s.a + s.a;
      assert |data| * (|data| + 1) == n * (n + 1) + 2 * (n + 1);
    }
  }

  lemma ProductMonotone(x: int, m: int, y: int, n: int)
    requires 0 <= x <= m && 0 <= y <= n
    ensures 0 <= x * y <= m * n
  {
    assert x * y <= m * y <= m * n;
  }

  /** NMAX is small enough: no sum inside a block leaves 32 bits. */
  lemma BlockFitsIn32Bits(s: Sums, data: seq<Byte>)
    requires Halves(s) && |data| <= NMAX
    ensures 0 <= RawFold(s, data).a < TWO32 && 0 <= RawFold(s, data).b < TWO32
  {
    RawFoldBound(s, data);
    var n := |data|;
    ProductMonotone(n, NMAX, s.a, 0xFFFF);
    ProductMonotone(n, NMAX, n + 1, NMAX + 1);
  }

  /** The sums over n bytes of 255 reach the bound. */
  lemma {:induction false} RawFoldOfOnes(s: Sums, data: seq<Byte>)
    requires forall i :: 0 <= i < |data| ==> data[i] == 255
    ensures RawFold(s, data).a == s.a + 255 * |data|
    ensures 2 * RawFold(s, data).b == 2 * s.b + 2 * (|data| * s.a) + 255 * (|data| * (|data| + 1))
    decreases |data|
  {
    if data != [] {
      var n := |data|;
      RawFoldOfOnes(Sums(s.a + 255, s.b + s.a + 255), data[1..]);
      assert (n - 1) * (s.a + 255) == n * s.a - s.a + 255 * (n - 1);
      assert (n - 1) * n == n * (n + 1) - 2 * n;
    }
  }

  /** NMAX is the largest such block: some canonical sums leave 32 bits after one byte more. */
  lemma NmaxIsLargest(data: seq<Byte>)
    requires |data| == NMAX + 1 && forall i :: 0 <= i < |data| ==> data[i] == 255
    ensures Canonical(Sums(BASE - 1, BASE - 1)) && RawFold(Sums(BASE - 1, BASE - 1), data).b >= TWO32
  {
    RawFoldOfOnes(Sums(BASE - 1, BASE - 1), data);
  }

  // ---------- MOD and MOD4 without division ----------

  function Shifted(k: nat): int {
    if k == 0 then BASE else 2 * Shifted(k - 1)
  }

  /** The subtraction chain from BASE << k down to BASE. */
  function ModChain(a: int, k: nat): int
    decreases k
  {
    var r := if a >= Shifted(k) then a - Shifted(k) else a;
    if k == 0 then r else ModChain(r, k - 1)
  }

  lemma {:induction false} ModChainIsRemainder(a: int, k: nat)
    requires 0 <= a < Shifted(k + 1)
    ensures ModChain(a, k) == a % BASE
  {
    ShiftedIsMultiple(k);
    var r := if a >= Shifted(k) then a - Shifted(k) else a;
    if a >= Shifted(k) {
      assert a == r + (Shifted(k) / BASE) * BASE;
      assert a % BASE == r % BASE;
    }
    if k > 0 {
      ModChainIsRemainder(r, k - 1);
    }
  }

  lemma {:induction false} ShiftedIsMultiple(k: nat)
    ensures Shifted(k) % BASE == 0 && Shifted(k) > 0
  {
    if k > 0 {
      ShiftedIsMultiple(k - 1);
      var q := Shifted(k - 1) / BASE;
      assert Shifted(k - 1) == q * BASE;
      assert Shifted(k) == (2 * q) * BASE;
    }
  }

  lemma ChainRanges()
    ensures Shifted(17) >= TWO32 && Shifted(5) == 32 * BASE
  {
    assert Shifted(4) == 16 * BASE;
    assert Shifted(8) == 256 * BASE;
    assert Shifted(12) == 4096 * BASE;
    assert Shifted(16) == 65536 * BASE;
  }

  /** MOD(a), by division or by the NO_DIVIDE chain. */
  method Mod(a: U32, noDivide: bool) returns (r: int)
    ensures r == a % BASE
  {
    if noDivide {
      ChainRanges();
      ModChainIsRemainder(a, 16);
      r := ModChain(a, 16);
    } else {
      r := a % BASE;
    }
  }

  /** MOD4(a): the short chain is enough for sums of fewer than 16 bytes. */
  method Mod4(a: U32, noDivide: bool) returns (r: int)
    requires a < 32 * BASE
    ensures r == a % BASE
  {
    if noDivide {
      ChainRanges();
      ModChainIsRemainder(a, 4);
      r := ModChain(a, 4);
    } else {
      r := a % BASE;
    }
  }

  // ---------- adler32 ----------

  /** A C pointer to readable bytes. */
  datatype Pointer = Null | To(bytes: seq<Byte>)

  /** Adds the next n bytes of data, from position i, to both sums without reduction. */
  method Accumulate(s: Sums, data: seq<Byte>, i: nat, n: nat, ghost start: Sums, ghost from: nat)
    returns (t: Sums)
    requires from <= i && i + n <= |data| && i + n - from <= NMAX
    requires Halves(start) && s == RawFold(start, data[from..i])
    ensures t == RawFold(start, data[from..i + n])
  {
    BlockFitsIn32Bits(start, data[from..i]);
    var sum1: U32, sum2: U32 := s.a, s.b;
    for k := i to i + n
      invariant Sums(sum1, sum2) == RawFold(start, data[from..k])
    {
      RawFoldAppend(start, data[from..k], [data[k]]);
      assert data[from..k] + [data[k]] == data[from..k + 1];
      BlockFitsIn32Bits(start, data[from..k + 1]);
      sum1 := sum1 + data[k];
      sum2 := sum2 + sum1;
    }
    t := Sums(sum1, sum2);
  }

  /** The one case that is not fully reduced: a single byte whose second sum needs two subtractions.
      It takes a start value above BASE, which no checksum has. */
  predicate Overshoots(adler: U32, data: seq<Byte>) {
    |data| == 1 && Unpacked(adler).b + (Unpacked(adler).a + data[0]) % BASE >= 2 * BASE
  }

  lemma CanonicalNeverOvershoots(adler: U32, data: seq<Byte>)
    requires Canonical(Unpacked(adler))
    ensures !Overshoots(adler, data)
  {
  }

  lemma OvershootExists()
    ensures Overshoots(0xFFFF_FFF0, [0]) && Unpacked(0xFFFF_FFF0) == Sums(65520, 65535)
  {
  }

  /** adler32(adler, buf, len) from any start value.  A null buf returns the initial value 1, except
      that the single-byte path comes first and reads buf[0]. */
  method Adler32(adler: U32, buf: Pointer, len: nat, noDivide: bool) returns (r: int)
    requires buf.To? ==> len == |buf.bytes|
    requires buf.Null? ==> len != 1
    ensures buf.Null? ==> r == 1
    ensures buf.To? ==> r == Checksum(adler, buf.bytes) + if Overshoots(adler, buf.bytes) then 0x1_0000 * BASE else 0
    ensures 0 <= r < TWO32
  {
    var s := Unpacked(adler);
    if len == 1 {
      FoldOne(Reduced(s), buf.bytes);
      s := AddByte(s, buf.bytes[0]);
    } else if buf == Null {
      return 1;
    } else if len < 16 {
      s := AddShort(s, buf.bytes, noDivide);
    } else {
      s := AddBlocks(s, buf.bytes, noDivide);
    }
    return Packed(s);
  }

  lemma FoldOne(s: Sums, data: seq<Byte>)
    requires |data| == 1
    ensures Fold(s, data) == Step(s, data[0])
  {
    assert data[1..] == [];
  }

  /** One byte: conditional subtractions instead of remainders. */
  method AddByte(s: Sums, x: Byte) returns (t: Sums)
    requires Halves(s)
    ensures Halves(t) && t.a == Step(Reduced(s), x).a
    ensures t.b == Step(Reduced(s), x).b + if s.b + (s.a + x) % BASE >= 2 * BASE then BASE else 0
  {
    ByteSums(s, x);
    var a := s.a + x;
    if a >= BASE { a := a - BASE; }
    var b := s.b + a;
    if b >= BASE { b := b - BASE; }
    t := Sums(a, b);
  }

  lemma ByteSums(s: Sums, x: Byte)
    requires Halves(s)
    ensures var a := (s.a + x) % BASE;
            && a == (if s.a + x >= BASE then s.a + x - BASE else s.a + x)
            && Step(Reduced(s), x) == Sums(a, (s.b + a) % BASE)
            && (s.b + a) % BASE + (if s.b + a >= 2 * BASE then BASE else 0)
              == if s.b + a >= BASE then s.b + a - BASE else s.b + a
  {
    RemainderOfSum(s.a, x);
    RemainderOfSum(s.b, (s.a + x) % BASE);
    SmallRemainder(s.a + x);
    SmallRemainder(s.b + (s.a + x) % BASE);
  }

  lemma SmallRemainder(x: int)
    requires 0 <= x < 3 * BASE
    ensures x % BASE == if x >= 2 * BASE then x - 2 * BASE else if x >= BASE then x - BASE else x
  {
  }

  /** Fewer than 16 bytes: one conditional subtraction and MOD4. */
  method AddShort(s: Sums, data: seq<Byte>, noDivide: bool) returns (t: Sums)
    requires Halves(s) && |data| < 16
    ensures t == Fold(Reduced(s), data) && Canonical(t)
  {
    DeferredReduction(s, data);
    assert data[0..0] == [] && data[0..|data|] == data;
    t := Accumulate(s, data, 0, |data|, s, 0);
    ShortSums(s, data);
    SmallRemainder(t.a);
    var a := t.a;
    if a >= BASE { a := a - BASE; }
    var b := Mod4(t.b, noDivide);
    t := Sums(a, b);
  }

  /** Blocks of NMAX bytes, then the rest, each with one reduction at its end. */
  method AddBlocks(start: Sums, data: seq<Byte>, noDivide: bool) returns (s: Sums)
    requires Halves(start) && data != []
    ensures s == Fold(Reduced(start), data) && Canonical(s)
  {
    s := start;
    var i := 0;
    while |data| - i >= NMAX
      invariant 0 <= i <= |data|
      invariant Reduced(s) == Fold(Reduced(start), data[..i]) && Halves(s) && (i > 0 ==> Canonical(s))
    {
      var t := s;
      assert data[i..i] == [];
      for n := 0 to NMAX / 16
        invariant t == RawFold(s, data[i..i + 16 * n])
      {
        t := Accumulate(t, data, i + 16 * n, 16, s, i);
      }
      ExtendFold(Reduced(start), data, i, i + NMAX);
      s := EndBlock(s, t, data[i..i + NMAX], noDivide);
      i := i + NMAX;
    }
    if |data| - i > 0 {
      var t, j := s, i;
      assert data[i..i] == [];
      while |data| - j >= 16
        invariant i <= j <= |data|
        invariant t == RawFold(s, data[i..j])
      {
        t := Accumulate(t, data, j, 16, s, i);
        j := j + 16;
      }
      t := Accumulate(t, data, j, |data| - j, s, i);
      ExtendFold(Reduced(start), data, i, |data|);
      s := EndBlock(s, t, data[i..|data|], noDivide);
      i := |data|;
    }
    assert data[..i] == data;
  }

  lemma ExtendFold(s: Sums, data: seq<Byte>, i: nat, j: nat)
    requires i <= j <= |data|
    ensures Fold(s, data[..j]) == Fold(Fold(s, data[..i]), data[i..j])
  {
    FoldAppend(s, data[..i], data[i..j]);
    assert data[..i] + data[i..j] == data[..j];
  }

  /** MOD(adler); MOD(sum2) after the bytes of one block. */
  method EndBlock(ghost s: Sums, t: Sums, ghost block: seq<Byte>, noDivide: bool) returns (r: Sums)
    requires Halves(s) && |block| <= NMAX && t == RawFold(s, block)
    ensures r == Fold(Reduced(s), block) && Canonical(r) && Reduced(r) == r
  {
    BlockFitsIn32Bits(s, block);
    DeferredReduction(s, block);
    ReducedTwice(t);
    var a := Mod(t.a, noDivide);
    var b := Mod(t.b, noDivide);
    r := Sums(a, b);
  }

  lemma ReducedTwice(s: Sums)
    ensures Canonical(Reduced(s)) && Reduced(Reduced(s)) == Reduced(s)
  {
  }

  lemma ShortSums(s: Sums, data: seq<Byte>)
    requires Halves(s) && |data| < 16
    ensures 0 <= RawFold(s, data).a < 2 * BASE && 0 <= RawFold(s, data).b < 32 * BASE
  {
    RawFoldBound(s, data);
    ProductMonotone(|data|, 15, s.a, 0xFFFF);
    ProductMonotone(|data|, 15, |data| + 1, 16);
  }

  // ---------- composition ----------

  lemma UnpackedPacked(s: Sums)
    requires Canonical(s)
    ensures 0 <= Packed(s) < TWO32 && Unpacked(Packed(s)) == s
  {
  }

  /** Checksumming x and continuing with y is checksumming x followed by y, from any start value. */
  lemma ChecksumAppend(adler: U32, x: seq<Byte>, y: seq<Byte>)
    ensures Canonical(Unpacked(Checksum(adler, x)))
    ensures Checksum(Checksum(adler, x), y) == Checksum(adler, x + y)
  {
    var s := Reduced(Unpacked(adler));
    FoldRange(s, x);
    UnpackedPacked(Fold(s, x));
    assert Reduced(Fold(s, x)) == Fold(s, x);
    FoldAppend(s, x, y);
  }

  /** Sums started elsewhere differ by an offset that is linear in the start values. */
  lemma {:induction false} RawFoldShift(s: Sums, t: Sums, data: seq<Byte>)
    ensures RawFold(s, data).a - RawFold(t, data).a == s.a - t.a
    ensures RawFold(s, data).b - RawFold(t, data).b == s.b - t.b + |data| * (s.a - t.a)
    decreases |data|
  {
    if data != [] {
      var s', t' := Sums(s.a + data[0], s.b + s.a + data[0]), Sums(t.a + data[0], t.b + t.a + data[0]);
      RawFoldShift(s', t', data[1..]);
      assert |data| * (s.a - t.a) == |data[1..]| * (s'.a - t'.a) + (s.a - t.a);
    }
  }

  ghost predicate Congruent(x: int, y: int) {
    x % BASE == y % BASE
  }

  lemma CongruentByMultiple(x: int, y: int, k: int)
    requires x == y + k * BASE
    ensures Congruent(x, y)
  {
  }

  /** Like %, but the multiples of BASE are represented by BASE itself. */
  function PositiveResidue(x: int): (r: int)
    ensures 1 <= r <= BASE && Congruent(r, x)
  {
    if x % BASE == 0 then BASE else x % BASE
  }

  lemma PositiveResidueUnique(x: int, r: int)
    requires 1 <= r <= BASE && Congruent(r, x)
    ensures r == PositiveResidue(x)
  {
  }

  function CombinedSums(x: Sums, y: Sums, len2: nat): Sums {
    Sums(PositiveResidue(x.a + y.a - 1), PositiveResidue(len2 * x.a + x.b + y.b - len2))
  }

  /** if (s > 2 * BASE) s -= 2 * BASE or twice if (s > BASE) s -= BASE: what remains is at most BASE. */
  method SubtractBases(x: int, double: bool) returns (r: int)
    requires 1 <= x <= if double then 4 * BASE else 3 * BASE
    ensures r == PositiveResidue(x)
  {
    r := x;
    ghost var k := 0;
    if double && r > 2 * BASE { r, k := r - 2 * BASE, 2; }
    if !double && r > BASE { r, k := r - BASE, 1; }
    if r > BASE { r, k := r - BASE, k + 1; }
    CongruentByMultiple(x, r, k);
    PositiveResidueUnique(x, r);
  }

  /** Sums that two subtractions bring into range: those of all checksums, and of all combinations of
      checksums, whose components are at most BASE. */
  ghost predicate Combinable(x: Sums, y: Sums) {
    x.a + y.a <= 2 * BASE + 1 && x.b + y.b <= 2 * BASE
  }

  /** Combinations can be combined again. */
  lemma CombinedStaysCombinable(x: Sums, y: Sums, len2: nat, z: Sums)
    requires 0 <= z.a <= BASE && 0 <= z.b <= BASE
    ensures Combinable(CombinedSums(x, y, len2), z) && Combinable(z, CombinedSums(x, y, len2))
    ensures Halves(CombinedSums(x, y, len2))
  {
  }

  /** adler32_combine: note the comparisons with > and not >=. */
  method Combine(adler1: U32, adler2: U32, len2: nat, noDivide: bool) returns (r: int)
    requires Combinable(Unpacked(adler1), Unpacked(adler2))
    ensures r == Packed(CombinedSums(Unpacked(adler1), Unpacked(adler2), len2))
  {
    var rem := len2 % BASE;
    var sum1 := adler1 % 0x1_0000;
    assert 0 <= rem * sum1 <= (BASE - 1) * 0xFFFF by {
      ProductMonotone(rem, BASE - 1, sum1, 0xFFFF);
    }
    var sum2 := Mod(rem * sum1, noDivide);
    sum1 := sum1 + adler2 % 0x1_0000 + BASE - 1;
    sum2 := sum2 + adler1 / 0x1_0000 % 0x1_0000 + adler2 / 0x1_0000 % 0x1_0000 + BASE - rem;
    CombineArithmetic(Unpacked(adler1), Unpacked(adler2), len2);
    sum1 := SubtractBases(sum1, false);
    sum2 := SubtractBases(sum2, true);
    r := Packed(Sums(sum1, sum2));
  }

  lemma CombineArithmetic(x: Sums, y: Sums, len2: nat)
    ensures PositiveResidue(x.a + y.a + BASE - 1) == PositiveResidue(x.a + y.a - 1)
    ensures PositiveResidue((len2 % BASE) * x.a % BASE + x.b + y.b + BASE - len2 % BASE)
         == PositiveResidue(len2 * x.a + x.b + y.b - len2)
  {
    CongruentByMultiple(x.a + y.a + BASE - 1, x.a + y.a - 1, 1);
    var rem, q := len2 % BASE, len2 / BASE;
    var t := rem * x.a;
    assert len2 * x.a == t + (q * x.a) * BASE by {
      assert (q * BASE) * x.a == (q * x.a) * BASE;
    }
    assert t % BASE == t - (t / BASE) * BASE;
    CongruentByMultiple(t % BASE + x.b + y.b + BASE - rem, len2 * x.a + x.b + y.b - len2, 1 - t / BASE - q * x.a + q);
  }

  const START := Sums(1, 0)

  /** What a caller can tell from the arguments: neither sum is a multiple of BASE. */
  predicate CombinesExactly(x: Sums, y: Sums, len2: nat) {
    (x.a + y.a - 1) % BASE != 0 && (len2 * x.a + x.b + y.b - len2) % BASE != 0
  }

  /** Two empty parts already fail: their checksums are 1, and so is that of the whole. */
  lemma CombineOfNothing()
    ensures Checksum(1, []) == 1
    ensures CombinedSums(Unpacked(1), Unpacked(1), 0) == Sums(1, BASE)
    ensures Packed(CombinedSums(Unpacked(1), Unpacked(1), 0)) != 1
  {
    assert Unpacked(1) == START && Reduced(START) == START;
  }

  /** The checksum of a concatenation from the checksums of its parts: each component comes
      out congruent to the true one and in 1..BASE, so the combination is exact if and only if
      neither combined sum is a multiple of BASE, that is, neither true component is zero. */
  lemma CombineCorrect(x: seq<Byte>, y: seq<Byte>)
    ensures var c := CombinedSums(Unpacked(Checksum(1, x)), Unpacked(Checksum(1, y)), |y|);
            var whole := Fold(START, x + y);
            && 1 <= c.a <= BASE && 1 <= c.b <= BASE
            && Congruent(c.a, whole.a) && Congruent(c.b, whole.b)
            && (Packed(c) == Checksum(1, x + y)
              <==> CombinesExactly(Unpacked(Checksum(1, x)), Unpacked(Checksum(1, y)), |y|))
            && (Packed(c) == Checksum(1, x + y) <==> whole.a != 0 && whole.b != 0)
  {
    assert Unpacked(1) == START;
    var sx, sy, whole := Fold(START, x), Fold(START, y), Fold(START, x + y);
    FoldCanonical(START, x);
    FoldCanonical(START, y);
    FoldCanonical(START, x + y);
    UnpackedPacked(sx);
    UnpackedPacked(sy);
    FoldAppend(START, x, y);
    ContinuedSums(sx, y);
    PackedExact(CombinedSums(sx, sy, |y|), whole);
    ExactByArguments(sx, sy, |y|, whole);
  }

  lemma ExactByArguments(x: Sums, y: Sums, len2: nat, w: Sums)
    requires Canonical(w) && Congruent(CombinedSums(x, y, len2).a, w.a) && Congruent(CombinedSums(x, y, len2).b, w.b)
    ensures CombinesExactly(x, y, len2) <==> w.a != 0 && w.b != 0
  {
    ResidueOfCanonical(x.a + y.a - 1, w.a);
    ResidueOfCanonical(len2 * x.a + x.b + y.b - len2, w.b);
  }

  lemma ResidueOfCanonical(x: int, w: int)
    requires 0 <= w < BASE && Congruent(PositiveResidue(x), w)
    ensures x % BASE == w
  {
  }

  /** Continuing from s instead of from 1 shifts the second sum by |y| times the first. */
  lemma ContinuedSums(s: Sums, y: seq<Byte>)
    requires Canonical(s)
    ensures var t := Fold(START, y); var c := CombinedSums(s, t, |y|); var w := Fold(s, y);
            Congruent(c.a, w.a) && Congruent(c.b, w.b)
  {
    FoldCanonical(START, y);
    FoldCanonical(s, y);
    var n := |y| * (s.a - 1);
    RawFoldFromStart(s, y, n);
    CombinedByShift(s, Fold(START, y), |y|, n);
    SumsFromStart(s, RawFold(START, y), RawFold(s, y), n, CombinedSums(s, Fold(START, y), |y|));
  }

  lemma SumsFromStart(s: Sums, raw: Sums, w: Sums, n: int, c: Sums)
    requires w.a == raw.a + (s.a - 1) && w.b == raw.b + (s.b + n)
    requires c == Sums(PositiveResidue(raw.a % BASE + (s.a - 1)), PositiveResidue(raw.b % BASE + (s.b + n)))
    ensures Congruent(c.a, w.a % BASE) && Congruent(c.b, w.b % BASE)
  {
    ShiftedSums(raw, w, s, n);
  }

  lemma RawFoldFromStart(s: Sums, y: seq<Byte>, n: int)
    requires n == |y| * (s.a - 1)
    ensures RawFold(s, y).a == RawFold(START, y).a + (s.a - 1)
    ensures RawFold(s, y).b == RawFold(START, y).b + (s.b + n)
  {
    RawFoldShift(s, START, y);
  }

  lemma ShiftedSums(raw: Sums, w: Sums, s: Sums, n: int)
    requires w.a == raw.a + (s.a - 1) && w.b == raw.b + (s.b + n)
    ensures Congruent(PositiveResidue(raw.a % BASE + (s.a - 1)), w.a % BASE)
    ensures Congruent(PositiveResidue(raw.b % BASE + (s.b + n)), w.b % BASE)
  {
    ShiftedResidue(raw.a, s.a - 1);
    ShiftedResidue(raw.b, s.b + n);
  }

  lemma CombinedByShift(s: Sums, t: Sums, len2: nat, n: int)
    requires n == len2 * (s.a - 1)
    ensures CombinedSums(s, t, len2) == Sums(PositiveResidue(t.a + (s.a - 1)), PositiveResidue(t.b + (s.b + n)))
  {
    assert n == len2 * s.a - len2;
  }

  lemma ShiftedResidue(raw: int, shift: int)
    ensures Congruent(PositiveResidue(raw % BASE + shift), (raw + shift) % BASE)
  {
    CongruentByMultiple(raw + shift, raw % BASE + shift, raw / BASE);
  }

  lemma PackedExact(c: Sums, w: Sums)
    requires 1 <= c.a <= BASE && 1 <= c.b <= BASE && Canonical(w)
    requires Congruent(c.a, w.a) && Congruent(c.b, w.b)
    ensures Packed(c) == Packed(w) <==> w.a != 0 && w.b != 0
  {
    assert c.a == if w.a == 0 then BASE else w.a;
    assert c.b == if w.b == 0 then BASE else w.b;
  }

  /** Checksums of short texts, by hand: the first sum in the low half, the second in the high half. */
  lemma KnownChecksum()
    ensures Checksum(1, [1, 2]) == 0x6_0004
    ensures Checksum(0, [47, 97, 9]) == 0x158_0099
  {
    assert Unpacked(1) == Sums(1, 0) && Unpacked(0) == Sums(0, 0);
    StepSmall(Sums(1, 0), 1);
    StepSmall(Sums(2, 2), 2);
    FoldTwo(Sums(1, 0), 1, 2);
    StepSmall(Sums(0, 0), 47);
    StepSmall(Sums(47, 47), 97);
    StepSmall(Sums(144, 191), 9);
    FoldThree(Sums(0, 0), 47, 97, 9);
    assert Reduced(Sums(1, 0)) == Sums(1, 0) && Reduced(Sums(0, 0)) == Sums(0, 0);
  }

  /** Sums that stay below BASE. */
  lemma StepSmall(s: Sums, x: Byte)
    requires 0 <= s.a < 1000 && 0 <= s.b < 1000
    ensures Step(s, x) == Sums(s.a + x, s.b + s.a + x)
  {
  }

  lemma FoldThree(s: Sums, x: Byte, y: Byte, z: Byte)
    ensures Fold(s, [x, y, z]) == Step(Step(Step(s, x), y), z)
  {
    assert [x, y, z][1..] == [y, z];
    FoldTwo(Step(s, x), y, z);
  }

  lemma FoldTwo(s: Sums, x: Byte, y: Byte)
    ensures Fold(s, [x, y]) == Step(Step(s, x), y)
  {
    assert [x, y][1..] == [y];
    FoldOne(Step(s, x), [y]);
  }

  // ---------- error detection ----------

  lemma {:induction false} RawSumLinear(s: Sums, data: seq<Byte>, i: nat, x: Byte)
    requires i < |data|
    ensures RawFold(s, data[i := x]).a == RawFold(s, data).a + x - data[i]
    decreases |data|
  {
    var d := data[i := x];
    if i == 0 {
      assert d[1..] == data[1..];
      RawFoldShift(Sums(s.a + d[0], s.b + s.a + d[0]), Sums(s.a + data[0], s.b + s.a + data[0]), data[1..]);
    } else {
      assert d[1..] == data[1..][i - 1 := x];
      RawSumLinear(Sums(s.a + data[0], s.b + s.a + data[0]), data[1..], i - 1, x);
    }
  }

  /** Changing one byte always changes the checksum. */
  lemma OneByteDetected(adler: U32, data: seq<Byte>, i: nat, x: Byte)
    requires i < |data| && x != data[i]
    ensures Checksum(adler, data[i := x]) != Checksum(adler, data)
  {
    var s := Reduced(Unpacked(adler));
    FoldCanonical(s, data);
    FoldCanonical(s, data[i := x]);
    RawSumLinear(s, data, i, x);
    SmallShiftVisible(RawFold(s, data).a, x - data[i]);
    PackedInjective(Fold(s, data), Fold(s, data[i := x]));
  }

  lemma PackedInjective(s: Sums, t: Sums)
    requires Canonical(s) && Canonical(t) && s != t
    ensures Packed(s) != Packed(t)
  {
  }

  lemma SmallShiftVisible(r: int, d: int)
    requires -256 < d < 256 && d != 0
    ensures (r + d) % BASE != r % BASE
  {
    var p, q := (r + d) / BASE, r / BASE;
    assert r + d == p * BASE + (r + d) % BASE && r == q * BASE + r % BASE;
    assert p == q || p - q >= 1 || p - q <= -1;
  }
}
