/**
  Streaming MD5 of marsksim/comm/md5.c: block buffering, the two-word bit counter and the
  padding.  The 64-byte block function is a parameter, so the results hold for any of them.
 */
module Md5 {
  import opened Seqs
  import opened Bytes
  import opened AutoBuffers

  const BLOCK: int := 64
  const TWO64: int := 0x1_0000_0000_0000_0000

  datatype Chain = Chain(a: U32, b: U32, c: U32, d: U32)

  function Initial(): Chain {
    Chain(0x67452301, 0xefcdab89, 0x98badcfe, 0x10325476)
  }

  type BlockFunction = (Chain, seq<Byte>) -> Chain

  // ---------- the specification: sections 3.1 to 3.5 of RFC 1321 ----------

  function Apply(f: BlockFunction, s: Chain, block: seq<Byte>): Chain {
    f(s, block)
  }

  /** The chaining value after all complete blocks of data. */
  function Digested(f: BlockFunction, s: Chain, data: seq<Byte>): Chain
    decreases |data|
  {
    if |data| < BLOCK then s else Digested(f, Apply(f, s, data[..BLOCK]), data[BLOCK..])
  }

  /** n in k bytes, low-order byte first. */
  function LittleEndian(n: int, k: nat): (s: seq<Byte>)
    ensures |s| == k
    decreases k
  {
    if k == 0 then [] else [n % 256] + LittleEndian(n / 256, k - 1)
  }

  /** A message length in bits modulo 2^64 as two words, low-order word first. */
  function SizeWords(bytes: nat): (s: seq<Byte>)
    ensures |s| == 8
  {
    var bits := 8 * bytes % TWO64;
    LittleEndian(bits % TWO32, 4) + LittleEndian(bits / TWO32, 4)
  }

  /** The message padded to whole blocks: one bit, zeros, and its length in bits modulo 2^64. */
  function Padded(msg: seq<Byte>): seq<Byte> {
    msg + Padding(|msg|)
  }

  function Padding(n: nat): (p: seq<Byte>)
    ensures |p| == 9 + (55 - n) % BLOCK
  {
    [0x80] + Zeros((55 - n) % BLOCK) + SizeWords(n)
  }

  function Output(s: Chain): seq<Byte> {
    LittleEndian(s.a, 4) + LittleEndian(s.b, 4) + LittleEndian(s.c, 4) + LittleEndian(s.d, 4)
  }

  function Md5(f: BlockFunction, msg: seq<Byte>): seq<Byte> {
    Output(Digested(f, Initial(), Padded(msg)))
  }

  // ---------- what the bytes are ----------

  function Pow256(k: nat): int {
    if k == 0 then 1 else 256 * Pow256(k - 1)
  }

  /** The number whose base-256 digits these are, the first one worth 1. */
  function LittleValue(s: seq<Byte>): int {
    if s == [] then 0 else s[0] as int + 256 * LittleValue(s[1..])
  }

  /** The first byte is the low-order one. */
  lemma {:induction false} LittleEndianValue(n: nat, k: nat)
    ensures Pow256(k) > 0 && LittleValue(LittleEndian(n, k)) == n % Pow256(k)
    decreases k
  {
    if k > 0 {
      LittleEndianValue(n / 256, k - 1);
      ConsRest(n % 256, LittleEndian(n / 256, k - 1));
      DigitsOf(n, Pow256(k - 1));
    }
  }

  lemma DigitsOf(n: nat, p: int)
    requires p > 0
    ensures n % 256 + 256 * (n / 256 % p) == n % (256 * p)
  {
    var q, r := n / 256, n % 256;
    var a, b := q / p, q % p;
    assert q == a * p + b;
    assert n == a * (256 * p) + (256 * b + r);
    RemainderIs(n, 256 * p, a, 256 * b + r);
  }

  lemma RemainderIs(n: int, m: int, a: int, r: int)
    requires m > 0 && 0 <= r < m && n == a * m + r
    ensures n % m == r
  {
    var q, t := n / m, n % m;
    assert n == q * m + t;
    Distribute(q, a, m);
    OnlyZero(q - a, m, r - t);
  }

  lemma Distribute(q: int, a: int, m: int)
    ensures (q - a) * m == q * m - a * m
  {
  }

  lemma OnlyZero(k: int, m: int, d: int)
    requires m > 0 && k * m == d && -m < d < m
    ensures d == 0
  {
    Multiples(k, m);
  }

  lemma Multiples(k: int, m: int)
    requires m > 0
    ensures k >= 1 ==> k * m >= m
    ensures k <= -1 ==> k * m <= -m
  {
  }

  lemma {:induction false} LittleValueAppend(a: seq<Byte>, b: seq<Byte>)
    ensures LittleValue(a + b) == LittleValue(a) + Pow256(|a|) * LittleValue(b)
    decreases |a|
  {
    if a == [] {
      assert a + b == b;
    } else {
      RestAppend(a, b);
      LittleValueAppend(a[1..], b);
      var p, v := Pow256(|a| - 1), LittleValue(b);
      assert 256 * (p * v) == (256 * p) * v;
    }
  }

  lemma WordSize()
    ensures Pow256(4) == TWO32
  {
    assert Pow256(2) == 0x1_0000;
  }

  /** The length field holds the number of bits modulo 2^64. */
  lemma SizeWordsValue(bytes: nat)
    ensures LittleValue(SizeWords(bytes)) == 8 * bytes % TWO64
  {
    var bits := 8 * bytes % TWO64;
    WordValue(bits % TWO32);
    WordValue(bits / TWO32);
    WordSize();
    LittleValueAppend(LittleEndian(bits % TWO32, 4), LittleEndian(bits / TWO32, 4));
  }

  lemma WordValue(n: U32)
    ensures LittleValue(LittleEndian(n, 4)) == n
  {
    WordSize();
    LittleEndianValue(n, 4);
  }

  /** One bit, the fewest zeros that fill the last block, and the length. */
  lemma PaddingShape(n: nat)
    ensures var p := Padding(n);
            && 9 <= |p| < 9 + BLOCK && (n + |p|) % BLOCK == 0 && p[0] == 0x80
            && (forall i :: 1 <= i < |p| - 8 ==> p[i] == 0)
            && LittleValue(p[|p| - 8..]) == 8 * n % TWO64
  {
    var p := Padding(n);
    PadArithmetic(n);
    SizeWordsValue(n);
    assert p[|p| - 8..] == SizeWords(n);
  }

  /** The digest of no blocks at all, and the length of a message of three bytes, byte by byte. */
  lemma KnownBytes()
    ensures Output(Initial()) == [0x01, 0x23, 0x45, 0x67] + [0x89, 0xab, 0xcd, 0xef]
                               + [0xfe, 0xdc, 0xba, 0x98] + [0x76, 0x54, 0x32, 0x10]
    ensures SizeWords(3) == [24, 0, 0, 0] + [0, 0, 0, 0]
  {
    KnownOutput(Initial());
    KnownSize(24, 3);
  }

  lemma KnownOutput(s: Chain)
    requires s.a == 0x67452301 && s.b == 0xefcdab89 && s.c == 0x98badcfe && s.d == 0x10325476
    ensures Output(s) == [0x01, 0x23, 0x45, 0x67] + [0x89, 0xab, 0xcd, 0xef]
                       + [0xfe, 0xdc, 0xba, 0x98] + [0x76, 0x54, 0x32, 0x10]
  {
    FourBytes(s.a, 0x01, 0x23, 0x45, 0x67);
    FourBytes(s.b, 0x89, 0xab, 0xcd, 0xef);
    FourBytes(s.c, 0xfe, 0xdc, 0xba, 0x98);
    FourBytes(s.d, 0x76, 0x54, 0x32, 0x10);
  }

  lemma KnownSize(bits: Byte, bytes: nat)
    requires bits == 8 * bytes
    ensures SizeWords(bytes) == [bits, 0, 0, 0] + [0, 0, 0, 0]
  {
    var n: nat := 8 * bytes % TWO64;
    KnownWords(n % TWO32, n / TWO32, bits);
  }

  lemma KnownWords(lo: nat, hi: nat, bits: Byte)
    requires lo == bits && hi == 0
    ensures LittleEndian(lo, 4) + LittleEndian(hi, 4) == [bits, 0, 0, 0] + [0, 0, 0, 0]
  {
    FourBytes(lo, bits, 0, 0, 0);
    FourBytes(hi, 0, 0, 0, 0);
  }

  lemma FourBytes(n: nat, a: Byte, b: Byte, c: Byte, d: Byte)
    requires n == Word(d, c, b, a)
    ensures LittleEndian(n, 4) == [a, b, c, d]
  {
    NextByte(n, a, 0x1_0000 * d as int + 0x100 * c as int + b as int);
    NextByte(n / 256, b, 0x100 * d as int + c as int);
    NextByte(n / 256 / 256, c, d);
    assert LittleEndian(d, 1) == [d];
    assert LittleEndian(n / 256 / 256, 2) == [c] + LittleEndian(d, 1) == [c, d];
    assert LittleEndian(n / 256, 3) == [b] + [c, d] == [b, c, d];
  }

  lemma NextByte(n: nat, low: Byte, high: nat)
    requires n == 256 * high + low
    ensures n % 256 == low && n / 256 == high
  {
  }

  lemma PaddedIsWholeBlocks(msg: seq<Byte>)
    ensures |Padded(msg)| % BLOCK == 0
    ensures |Padded(msg)| < |msg| + 9 + BLOCK
  {
    PadArithmetic(|msg|);
  }

  lemma PadArithmetic(n: nat)
    ensures (n + 9 + (55 - n) % BLOCK) % BLOCK == 0
    ensures (55 - n) % BLOCK == if n % BLOCK < 56 then 55 - n % BLOCK else 119 - n % BLOCK
  {
  }

  /** Data after whole blocks continues from their chaining value. */
  lemma {:induction false} DigestedAppend(f: BlockFunction, s: Chain, x: seq<Byte>, y: seq<Byte>)
    requires |x| % BLOCK == 0
    ensures Digested(f, s, x + y) == Digested(f, Digested(f, s, x), y)
    decreases |x|
  {
    if x == [] {
      assert x + y == y;
    } else {
      assert (x + y)[..BLOCK] == x[..BLOCK];
      assert (x + y)[BLOCK..] == x[BLOCK..] + y;
      DigestedAppend(f, Apply(f, s, x[..BLOCK]), x[BLOCK..], y);
    }
  }

  /** The last incomplete block. */
  function Tail(data: seq<Byte>): (t: seq<Byte>)
    ensures |t| == |data| % BLOCK
  {
    data[|data| - |data| % BLOCK..]
  }

  /** A message is its whole blocks, which the chaining value stands for, and its tail. */
  lemma SplitAtTail(f: BlockFunction, s: Chain, data: seq<Byte>, more: seq<Byte>)
    ensures Digested(f, s, data + more) == Digested(f, Digested(f, s, data), Tail(data) + more)
    ensures Tail(data + more) == Tail(Tail(data) + more)
  {
    var k := |data| - |data| % BLOCK;
    var whole := data[..k];
    assert data == whole + Tail(data);
    DigestedAppend(f, s, whole, Tail(data));
    assert data + more == whole + (Tail(data) + more);
    DigestedAppend(f, s, whole, Tail(data) + more);
    TailAfterBlocks(whole, Tail(data) + more);
  }

  lemma TailAfterBlocks(whole: seq<Byte>, rest: seq<Byte>)
    requires |whole| % BLOCK == 0
    ensures Tail(whole + rest) == Tail(rest)
  {
    assert |whole + rest| % BLOCK == |rest| % BLOCK;
    var r := |rest| % BLOCK;
    assert (whole + rest)[|whole + rest| - r..] == rest[|rest| - r..];
  }

  // ---------- the bit counter ----------

  /** Nl and Nh after len more bytes, in unsigned 32-bit arithmetic. */
  function CountedLow(nl: U32, len: U32): U32 {
    (nl + len * 8 % TWO32) % TWO32
  }

  function CountedHigh(nl: U32, nh: U32, len: U32): U32 {
    ((if CountedLow(nl, len) < nl then (nh + 1) % TWO32 else nh) + len / 0x2000_0000) % TWO32
  }

  /** Nh:Nl holds the number of bits of `bytes` bytes modulo 2^64. */
  ghost predicate Counts(nl: U32, nh: U32, bytes: nat) {
    nl + TWO32 * nh == 8 * bytes % TWO64
  }

  lemma CounterCorrect(nl: U32, nh: U32, len: U32, bytes: nat)
    requires Counts(nl, nh, bytes)
    ensures Counts(CountedLow(nl, len), CountedHigh(nl, nh, len), bytes + len)
  {
    var lo, hi := len * 8 % TWO32, len / 0x2000_0000;
    var l, h := CountedLow(nl, len), CountedHigh(nl, nh, len);
    var carry := if l < nl then 1 else 0;
    LowWord(nl, len, lo, hi, carry);
    HighWord(nh, carry, hi, h);
    var q := if nh + carry + hi >= TWO32 then 1 else 0;
    WordsTogether(nl, nh, len, lo, hi, l, h, carry, q);
    ModuloStep(8 * bytes, 8 * len, q, l + TWO32 * h);
  }

  lemma LowWord(nl: U32, len: U32, lo: int, hi: int, carry: int)
    requires lo == len * 8 % TWO32 && hi == len / 0x2000_0000 && carry == if CountedLow(nl, len) < nl then 1 else 0
    ensures 8 * len == lo + TWO32 * hi && nl + lo == CountedLow(nl, len) + TWO32 * carry && 0 <= hi < 8
  {
  }

  lemma WordsTogether(nl: int, nh: int, len: int, lo: int, hi: int, l: int, h: int, carry: int, q: int)
    requires 8 * len == lo + TWO32 * hi && nl + lo == l + TWO32 * carry && nh + carry + hi == h + TWO32 * q
    ensures l + TWO32 * h == nl + TWO32 * nh + 8 * len - TWO64 * q
  {
  }

  lemma HighWord(nh: U32, carry: int, hi: int, h: int)
    requires 0 <= carry <= 1 && 0 <= hi < 8
    requires h == ((if carry == 1 then (nh + 1) % TWO32 else nh) + hi) % TWO32
    ensures nh + carry + hi == h + TWO32 * (if nh + carry + hi >= TWO32 then 1 else 0)
  {
  }

  lemma CounterGivesSize(nl: U32, nh: U32, bytes: nat)
    requires Counts(nl, nh, bytes)
    ensures SizeWords(bytes) == LittleEndian(nl, 4) + LittleEndian(nh, 4)
  {
    var bits := 8 * bytes % TWO64;
    assert bits % TWO32 == nl && bits / TWO32 == nh;
  }

  lemma ModuloStep(x: nat, y: nat, q: int, r: int)
    requires 0 <= r < TWO64 && r == x % TWO64 + y - TWO64 * q
    ensures r == (x + y) % TWO64
  {
    assert x + y == r + TWO64 * (x / TWO64 + q);
  }

  lemma EmptyMessage(f: BlockFunction, none: seq<Byte>)
    requires none == []
    ensures Tail(none) == [] && Digested(f, Initial(), none) == Initial() && Counts(0, 0, |none|)
  {
  }

  // ---------- the context ----------

  class Context {
    const compress: BlockFunction
    var chain: Chain
    var nl: U32
    var nh: U32
    var data: array<Byte>
    var num: nat
    ghost var msg: seq<Byte>  // everything processed so far

    ghost predicate Valid()
      reads this, data
    {
      && Buffers(Tail(msg))
      && chain == Digested(compress, Initial(), msg)
      && Counts(nl, nh, |msg|)
    }

    /** The block buffer holds exactly the incomplete block t. */
    ghost predicate Buffers(t: seq<Byte>)
      reads this, data
    {
      data.Length == BLOCK && num == |t| < BLOCK && data[..num] == t
    }

    /** MD5_init */
    constructor (f: BlockFunction)
      ensures fresh(data) && compress == f && IsNew()
    {
      compress, chain, nl, nh, num := f, Initial(), 0, 0, 0;
      data := new Byte[BLOCK](_ => 0);
      msg := [];
    }

    /** Nothing has been processed. */
    ghost predicate IsNew()
      reads this
    {
      chain == Initial() && nl == 0 && nh == 0 && num == 0 && data.Length == BLOCK && msg == []
    }

    lemma NewIsValid()
      requires IsNew()
      ensures Valid()
    {
      EmptyMessage(compress, msg);
      assert data[..0] == [];
    }

    /** md5_block_data_order over n blocks. */
    method DigestBlocks(input: seq<Byte>, n: nat)
      requires n == |input| / BLOCK
      modifies this`chain
      ensures chain == Digested(compress, old(chain), input)
    {
      for i := 0 to n
        invariant Digested(compress, chain, input[BLOCK * i..]) == Digested(compress, old(chain), input)
      {
        var rest := input[BLOCK * i..];
        chain := Apply(compress, chain, rest[..BLOCK]);
        assert rest[BLOCK..] == input[BLOCK * (i + 1)..];
      }
    }

    /** MD5_process: for every cut of a message into pieces, the context stands for the message. */
    method Process(input: seq<Byte>)
      requires Valid() && |input| < TWO32
      modifies this`chain, this`nl, this`nh, this`num, this`msg, data
      ensures Valid() && msg == old(msg) + input
    {
      if |input| == 0 {
        assert msg + input == msg;
        return;
      }
      CounterCorrect(nl, nh, |input|, |msg|);
      nl, nh := CountedLow(nl, |input|), CountedHigh(nl, nh, |input|);
      SplitAtTail(compress, Initial(), msg, input);
      Update(input, Tail(msg));
      msg := msg + input;
    }

    /** The buffered tail and the input, as one stream of blocks. */
    method Update(input: seq<Byte>, ghost t: seq<Byte>)
      requires Buffers(t)
      modifies this`chain, this`num, data
      ensures Buffers(Tail(t + input)) && chain == Digested(compress, old(chain), t + input)
    {
      if num != 0 {
        if |input| >= BLOCK || |input| + num >= BLOCK {
          UpdateFull(input, t);
        } else {
          ShortTail(compress, chain, t + input);
          Keep(input, t);
        }
      } else {
        Absorb(input);
        assert t + input == input;
      }
    }

    /** Enough for a block: it is completed, and the rest is absorbed. */
    method UpdateFull(input: seq<Byte>, ghost t: seq<Byte>)
      requires Buffers(t) && |t| + |input| >= BLOCK
      modifies this`chain, this`num, data
      ensures Buffers(Tail(t + input)) && chain == Digested(compress, old(chain), t + input)
    {
      FirstBlock(compress, chain, t, input);
      var k := BLOCK - num;
      CompleteBlock(input[..k], t);
      Absorb(input[k..]);
    }

    /** Too little for a block: the input is only kept. */
    method Keep(input: seq<Byte>, ghost t: seq<Byte>)
      requires Buffers(t) && |t| + |input| < BLOCK
      modifies this`num, data
      ensures Buffers(t + input)
    {
      Fill(num, input);
      num := num + |input|;
    }

    /** The buffered bytes and the start of the input make one block. */
    method CompleteBlock(start: seq<Byte>, ghost t: seq<Byte>)
      requires Buffers(t) && |t| + |start| == BLOCK
      modifies this`chain, this`num, data
      ensures Buffers([]) && chain == Apply(compress, old(chain), t + start)
    {
      Fill(num, start);
      assert data[..] == t + start;
      chain := Apply(compress, chain, data[..]);
      num := 0;
      Fill(0, Zeros(BLOCK));
    }

    /** With an empty buffer: all whole blocks of the input, then keep the rest. */
    method Absorb(rest: seq<Byte>)
      requires Buffers([])
      modifies this`chain, this`num, data
      ensures Buffers(Tail(rest)) && chain == Digested(compress, old(chain), rest)
    {
      DigestBlocks(rest, |rest| / BLOCK);
      var left := |rest| % BLOCK;
      if left != 0 {
        num := left;
        Fill(0, rest[|rest| - left..]);
      }
    }

    /** memcpy or memset into the block buffer. */
    method Fill(at: nat, bytes: seq<Byte>)
      requires at + |bytes| <= data.Length
      modifies data
      ensures data[..at + |bytes|] == old(data[..at]) + bytes
      ensures data[at + |bytes|..] == old(data[at + |bytes|..])
    {
      forall k | 0 <= k < |bytes| {
        data[at + k] := bytes[k];
      }
    }

    /** MD5_finish: the digest of the padded message. */
    method Finish() returns (md: seq<Byte>)
      requires Valid()
      modifies this`chain, this`num, data
      ensures md == Md5(compress, msg)
    {
      CounterGivesSize(nl, nh, |msg|);
      PaddingBlocks(compress, Initial(), msg, LittleEndian(nl, 4) + LittleEndian(nh, 4));
      AppendPadding(Tail(msg));
      num := 0;
      Fill(0, Zeros(BLOCK));
      md := Output(chain);
    }

    method AppendPadding(ghost t: seq<Byte>)
      requires Buffers(t)
      modifies this`chain, data
      ensures chain == FinalChain(compress, old(chain), t, LittleEndian(nl, 4) + LittleEndian(nh, 4))
    {
      var n := num;
      Fill(n, [0x80]);
      n := n + 1;
      if n > BLOCK - 8 {
        ZeroBlock(n, t + [0x80]);
        AppendSize(0, []);
      } else {
        AppendSize(n, t + [0x80]);
      }
    }

    /** No room for the size: the block is filled with zeros. */
    method ZeroBlock(n: nat, ghost head: seq<Byte>)
      requires data.Length == BLOCK && n == |head| <= BLOCK && data[..n] == head
      modifies this`chain, data
      ensures chain == Apply(compress, old(chain), head + Zeros(BLOCK - n))
    {
      Fill(n, Zeros(BLOCK - n));
      assert data[..] == data[..BLOCK];
      chain := Apply(compress, chain, data[..]);
    }

    method AppendSize(n: nat, ghost head: seq<Byte>)
      requires data.Length == BLOCK && n == |head| <= BLOCK - 8 && data[..n] == head
      modifies this`chain, data
      ensures chain == Apply(compress, old(chain),
        head + Zeros(BLOCK - 8 - n) + (LittleEndian(nl, 4) + LittleEndian(nh, 4)))
    {
      Fill(n, Zeros(BLOCK - 8 - n));
      Fill(BLOCK - 8, LittleEndian(nl, 4));
      Fill(BLOCK - 4, LittleEndian(nh, 4));
      assert data[..] == data[..BLOCK];
      Assoc(head + Zeros(BLOCK - 8 - n), LittleEndian(nl, 4), LittleEndian(nh, 4));
      chain := Apply(compress, chain, data[..]);
    }
  }

  function FinalChain(f: BlockFunction, s: Chain, t: seq<Byte>, size: seq<Byte>): Chain
    requires |t| < BLOCK
  {
    if |t| < 56 then Apply(f, s, t + [0x80] + Zeros(55 - |t|) + size)
    else Apply(f, Apply(f, s, t + [0x80] + Zeros(63 - |t|)), [] + Zeros(56) + size)
  }

  lemma ShortTail(f: BlockFunction, s: Chain, data: seq<Byte>)
    requires |data| < BLOCK
    ensures Tail(data) == data && Digested(f, s, data) == s
  {
  }

  lemma FirstBlock(f: BlockFunction, s: Chain, t: seq<Byte>, input: seq<Byte>)
    requires |t| <= BLOCK <= |t| + |input|
    ensures Digested(f, s, t + input) == Digested(f, Apply(f, s, t + input[..BLOCK - |t|]), input[BLOCK - |t|..])
    ensures Tail(t + input) == Tail(input[BLOCK - |t|..])
  {
    var k := BLOCK - |t|;
    assert (t + input)[..BLOCK] == t + input[..k];
    assert (t + input)[BLOCK..] == input[k..];
    assert t + input == (t + input[..k]) + input[k..];
    TailAfterBlocks(t + input[..k], input[k..]);
  }

  /** The padded message ends in one block, or in two when the tail leaves no room for the size. */
  lemma PaddingBlocks(f: BlockFunction, s: Chain, msg: seq<Byte>, size: seq<Byte>)
    requires size == SizeWords(|msg|)
    ensures Digested(f, s, Padded(msg)) == FinalChain(f, Digested(f, s, msg), Tail(msg), size)
  {
    PadArithmetic(|msg|);
    PaddingBlocksOf(f, s, msg, Padded(msg), (55 - |msg|) % BLOCK, size);
  }

  lemma PaddingBlocksOf(f: BlockFunction, s: Chain, msg: seq<Byte>, padded: seq<Byte>, z: nat, size: seq<Byte>)
    requires padded == msg + ([0x80] + Zeros(z) + size)
    requires |size| == 8 && z == if |Tail(msg)| < 56 then 55 - |Tail(msg)| else 119 - |Tail(msg)|
    ensures Digested(f, s, padded) == FinalChain(f, Digested(f, s, msg), Tail(msg), size)
  {
    SplitAtTail(f, s, msg, [0x80] + Zeros(z) + size);
    LastBlocks(f, Digested(f, s, msg), Tail(msg), z, size);
  }

  lemma LastBlocks(f: BlockFunction, s: Chain, t: seq<Byte>, z: nat, size: seq<Byte>)
    requires |t| < BLOCK && |size| == 8 && z == if |t| < 56 then 55 - |t| else 119 - |t|
    ensures Digested(f, s, t + ([0x80] + Zeros(z) + size)) == FinalChain(f, s, t, size)
  {
    Regroup(t, [0x80], Zeros(z), size);
    if |t| < 56 {
      OneBlock(f, s, t + [0x80] + Zeros(z) + size);
    } else {
      var x, y := t + [0x80] + Zeros(63 - |t|), [] + Zeros(56) + size;
      SplitZeros(t + [0x80], 63 - |t|, 56, size);
      DigestedAppend(f, s, x, y);
      OneBlock(f, s, x);
      OneBlock(f, Apply(f, s, x), y);
    }
  }

  lemma Regroup(a: seq<Byte>, b: seq<Byte>, c: seq<Byte>, d: seq<Byte>)
    ensures a + (b + c + d) == a + b + c + d
  {
  }

  lemma SplitZeros(a: seq<Byte>, m: nat, n: nat, d: seq<Byte>)
    ensures a + Zeros(m + n) + d == (a + Zeros(m)) + ([] + Zeros(n) + d)
  {
  }

  lemma OneBlock(f: BlockFunction, s: Chain, block: seq<Byte>)
    requires |block| == BLOCK
    ensures Digested(f, s, block) == Apply(f, s, block)
  {
    assert block[..BLOCK] == block && block[BLOCK..] == [];
    assert Digested(f, Apply(f, s, block), []) == Apply(f, s, block);
  }

  /** MD5_buffer is one process call; any sequence of calls with the same bytes agrees with it. */
  method DigestPieces(f: BlockFunction, pieces: seq<seq<Byte>>) returns (md: seq<Byte>)
    requires forall i :: 0 <= i < |pieces| ==> |pieces[i]| < TWO32
    ensures md == Md5(f, Join(pieces))
  {
    var c := new Context(f);
    c.NewIsValid();
    assert Join(pieces[..0]) == [];
    for i := 0 to |pieces|
      invariant c.Valid() && c.compress == f && c.msg == Join(pieces[..i])
      invariant fresh(c) && fresh(c.data)
    {
      c.Process(pieces[i]);
      JoinLast(pieces[..i + 1]);
      assert pieces[..i + 1][..i] == pieces[..i];
    }
    assert pieces[..|pieces|] == pieces;
    md := c.Finish();
  }
}
