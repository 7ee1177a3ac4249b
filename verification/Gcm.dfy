/** AES-GCM over a raw block cipher, as aesGcmGeneric computes it with a software
    GHASH, and the AES-GCM branch of runCipher that splits and truncates the tag.
 */
module Gcm {
  import opened Arith
  import opened BlockCipher
  import opened Common
  import opened CounterMode
  import opened GaloisField
  import opened Octets

  // ----- words and bytes -----

  /** loadBlock's recurrence over one half. */
  function Fold(s: Bytes): bv64 {
    if s == [] then 0 else Append(Fold(s[..|s| - 1]), s[|s| - 1])
  }

  function Append(w: bv64, b: bv8): bv64 { (w << 8) | (b as bv64) }

  function LoadWord(s: Bytes): bv64
    requires |s| == 8
  {
    ((s[0] as bv64) << 56) | ((s[1] as bv64) << 48) | ((s[2] as bv64) << 40) | ((s[3] as bv64) << 32) |
    ((s[4] as bv64) << 24) | ((s[5] as bv64) << 16) | ((s[6] as bv64) << 8) | (s[7] as bv64)
  }

  function LowByte(w: bv64): bv8 { (w & 0xFF) as bv8 }

  function StoreWord(w: bv64): (s: Bytes)
    ensures |s| == 8
  {
    [Octet(w, 56), Octet(w, 48), Octet(w, 40), Octet(w, 32), Octet(w, 24), Octet(w, 16), Octet(w, 8), Octet(w, 0)]
  }

  function Octet(w: bv64, c: bv8): bv8
    requires c <= 56
  {
    LowByte(w >> c)
  }

  lemma AppendEight(b0: bv8, b1: bv8, b2: bv8, b3: bv8, b4: bv8, b5: bv8, b6: bv8, b7: bv8)
    ensures Append(Append(Append(Append(Append(Append(Append(Append(0, b0), b1), b2), b3), b4), b5), b6), b7)
         == LoadWord([b0, b1, b2, b3, b4, b5, b6, b7])
  {
  }

  lemma FoldAppend(s: Bytes, n: nat)
    requires n < |s|
    ensures Fold(s[..n + 1]) == Append(Fold(s[..n]), s[n])
  {
    assert s[..n + 1][..n] == s[..n];
  }

  lemma FoldNothing()
    ensures Fold([]) == 0
  {
  }

  lemma FoldIsLoadWord(s: Bytes)
    requires |s| == 8
    ensures Fold(s) == LoadWord(s)
  {
    hide Fold, Append, LoadWord;
    FoldAppend(s, 0);
    FoldAppend(s, 1);
    FoldAppend(s, 2);
    FoldAppend(s, 3);
    FoldAppend(s, 4);
    FoldAppend(s, 5);
    FoldAppend(s, 6);
    FoldAppend(s, 7);
    AppendEight(s[0], s[1], s[2], s[3], s[4], s[5], s[6], s[7]);
    FoldNothing();
    assert s == [s[0], s[1], s[2], s[3], s[4], s[5], s[6], s[7]] && s[..8] == s && s[..0] == [];
  }

  /** loadBlock's loop over one half. */
  method LoadHalf(p: Bytes) returns (w: bv64)
    requires |p| == 8
    ensures w == LoadWord(p)
  {
    hide Fold, Append, LoadWord;
    w := 0;
    FoldNothing();
    for i := 0 to 8
      invariant w == Fold(p[..i])
    {
      FoldAppend(p, i);
      w := Append(w, p[i]);
    }
    assert p[..8] == p;
    FoldIsLoadWord(p);
  }

  lemma LoadOfStoreWord(w: bv64)
    ensures LoadWord(StoreWord(w)) == w
  {
  }

  lemma BytesOfWord(b0: bv8, b1: bv8, b2: bv8, b3: bv8, b4: bv8, b5: bv8, b6: bv8, b7: bv8)
    ensures StoreWord(LoadWord([b0, b1, b2, b3, b4, b5, b6, b7])) == [b0, b1, b2, b3, b4, b5, b6, b7]
  {
  }

  lemma StoreOfLoadWord(s: Bytes)
    requires |s| == 8
    ensures StoreWord(LoadWord(s)) == s
  {
    hide LoadWord, StoreWord;
    BytesOfWord(s[0], s[1], s[2], s[3], s[4], s[5], s[6], s[7]);
    assert s == [s[0], s[1], s[2], s[3], s[4], s[5], s[6], s[7]];
  }

  function LoadBlock(b: Block): Block128 { Block128(LoadWord(b[..8]), LoadWord(b[8..])) }

  /** loadBlock. */
  method Load(p: Block) returns (b: Block128)
    ensures b == LoadBlock(p)
  {
    var hi := LoadHalf(p[..8]);
    var lo := LoadHalf(p[8..]);
    b := Block128(hi, lo);
  }

  function StoreBlock(b: Block128): Block { StoreWord(b.hi) + StoreWord(b.lo) }

  lemma StoreOfLoadBlock(b: Block)
    ensures StoreBlock(LoadBlock(b)) == b
  {
    hide LoadWord, StoreWord;
    StoreOfLoadWord(b[..8]);
    StoreOfLoadWord(b[8..]);
  }

  lemma LoadOfStoreBlock(b: Block128)
    ensures LoadBlock(StoreBlock(b)) == b
  {
    hide LoadWord, StoreWord;
    LoadOfStoreWord(b.hi);
    LoadOfStoreWord(b.lo);
    assert StoreBlock(b)[..8] == StoreWord(b.hi) && StoreBlock(b)[8..] == StoreWord(b.lo);
  }

  /** Bit k of a byte, the leftmost being bit 0. */
  function ByteBit(b: bv8, k: nat): bool
    requires k < 8
  {
    (b >> (7 - k)) & 1 == 1
  }

  /** A byte string of one block as the bit string of SP 800-38D. */
  function BlockBits(b: Block): Bits {
    seq(128, i requires 0 <= i < 128 => ByteBit(b[i / 8], i % 8))
  }

  function ByteBitAt(b: bv8, t: bv8): bool
    requires t < 8
  {
    (b >> t) & 1 == 1
  }

  lemma ByteBitIs(b: bv8, k: nat)
    requires k < 8
    ensures (7 - k) as bv8 < 8 && ByteBit(b, k) == ByteBitAt(b, (7 - k) as bv8)
  {
  }

  lemma ShiftInByte(w: bv64, c: bv8, t: bv8)
    requires c <= 56 && t < 8
    ensures BitAt(w, c + t) == ByteBitAt(Octet(w, c), t)
  {
  }

  function Offset(j: nat): bv8
    requires j < 8
  {
    [0 as bv8, 8, 16, 24, 32, 40, 48, 56][j]
  }

  lemma AmountSplit(j: nat, t: nat)
    requires j < 8 && t < 8
    ensures (8 * j + t) as bv8 == Offset(j) + t as bv8
    ensures t as bv8 < 8
  {
  }

  lemma StoredByte(w: bv64, j: nat)
    requires j < 8
    ensures Offset(j) <= 56 && StoreWord(w)[7 - j] == Octet(w, Offset(j))
  {
    hide Octet;
  }

  /** Bit 8j + r of the word is bit r of byte j. */
  lemma LoadWordBit(s: Bytes, k: nat)
    requires |s| == 8 && k < 64
    ensures WordBit(LoadWord(s), k) == ByteBit(s[k / 8], k % 8)
  {
    hide LoadWord, StoreWord, Octet, WordBit, ByteBit, BitAt, ByteBitAt, Offset;
    var w := LoadWord(s);
    var j, t := 7 - k / 8, 7 - k % 8;
    assert 63 - k == 8 * j + t;
    WordBitAt(w, k);
    AmountSplit(j, t);
    StoredByte(w, j);
    StoreOfLoadWord(s);
    ShiftInByte(w, Offset(j), t as bv8);
    ByteBitIs(s[k / 8], k % 8);
  }

  /** loadBlock reads the block as the bit string of its bytes. */
  lemma LoadBlockBits(b: Block)
    ensures BitsOf(LoadBlock(b)) == BlockBits(b)
  {
    hide LoadWord, WordBit, ByteBit;
    forall i | 0 <= i < 128
      ensures BitsOf(LoadBlock(b))[i] == BlockBits(b)[i]
    {
      LoadBlockBit(b, i);
    }
  }

  lemma LoadBlockBit(b: Block, i: nat)
    requires i < 128
    ensures BitsOf(LoadBlock(b))[i] == ByteBit(b[i / 8], i % 8)
  {
    hide LoadWord, WordBit, ByteBit;
    if i < 64 {
      LoadWordBit(b[..8], i);
    } else {
      LoadWordBit(b[8..], i - 64);
      assert b[8..][(i - 64) / 8] == b[i / 8];
    }
  }

  /** The block whose bit string is y. */
  function ByteOfBits(y: Bits, j: nat): bv8
    requires j < 16
  {
    (if y[8 * j] then 128 else 0) | (if y[8 * j + 1] then 64 else 0) |
    (if y[8 * j + 2] then 32 else 0) | (if y[8 * j + 3] then 16 else 0) |
    (if y[8 * j + 4] then 8 else 0) | (if y[8 * j + 5] then 4 else 0) |
    (if y[8 * j + 6] then 2 else 0) | (if y[8 * j + 7] then 1 else 0)
  }

  function BytesOfBits(y: Bits): Block { seq(16, j requires 0 <= j < 16 => ByteOfBits(y, j)) }

  lemma ByteFromItsBits(b: bv8)
    ensures b == (if ByteBit(b, 0) then 128 else 0) | (if ByteBit(b, 1) then 64 else 0) |
                 (if ByteBit(b, 2) then 32 else 0) | (if ByteBit(b, 3) then 16 else 0) |
                 (if ByteBit(b, 4) then 8 else 0) | (if ByteBit(b, 5) then 4 else 0) |
                 (if ByteBit(b, 6) then 2 else 0) | (if ByteBit(b, 7) then 1 else 0)
  {
  }

  lemma BytesOfBlockBits(b: Block)
    ensures BytesOfBits(BlockBits(b)) == b
  {
    hide ByteBit;
    forall j | 0 <= j < 16
      ensures BytesOfBits(BlockBits(b))[j] == b[j]
    {
      ByteFromItsBits(b[j]);
      BlockBitsOfByte(b, j);
    }
  }

  lemma BlockBitsOfByte(b: Block, j: nat)
    requires j < 16
    ensures forall r: nat | r < 8 :: BlockBits(b)[8 * j + r] == ByteBit(b[j], r)
  {
    hide ByteBit;
    forall r: nat | r < 8
      ensures BlockBits(b)[8 * j + r] == ByteBit(b[j], r)
    {
      assert (8 * j + r) / 8 == j && (8 * j + r) % 8 == r;
    }
  }

  /** storeBlock writes the bytes of the word pair's bit string. */
  lemma StoreBlockBytes(b: Block128)
    ensures StoreBlock(b) == BytesOfBits(BitsOf(b))
  {
    hide StoreBlock, LoadBlock, BitsOf, BlockBits, BytesOfBits;
    LoadOfStoreBlock(b);
    LoadBlockBits(StoreBlock(b));
    BytesOfBlockBits(StoreBlock(b));
  }

  // ----- GHASH -----

  /** GHASH_H continued from y over whole blocks (section 6.4 of SP 800-38D). */
  function GhashFrom(h: Bits, y: Bits, data: Bytes): Bits
    requires |data| % 16 == 0
    decreases |data|
  {
    if data == [] then y
    else GhashFrom(h, Mul(Xor(y, BlockBits(data[..16])), h), data[16..])
  }

  function ZeroPad(p: Bytes): (r: Bytes)
    ensures |r| % 16 == 0
  {
    p + Zeros((16 - |p| % 16) % 16)
  }

  /** [len(A)]_64 || [len(C)]_64, both in bits. */
  function LengthBlock(aBytes: nat, cBytes: nat): Block {
    BigEndian(8 * aBytes, 8) + BigEndian(8 * cBytes, 8)
  }

  lemma {:induction false} GhashOfConcat(h: Bits, y: Bits, a: Bytes, b: Bytes)
    requires |a| % 16 == 0 && |b| % 16 == 0
    decreases |a|
    ensures GhashFrom(h, y, a + b) == GhashFrom(h, GhashFrom(h, y, a), b)
  {
    hide Mul, Xor, BlockBits;
    if a == [] {
      assert a + b == b;
    } else {
      GhashOfConcat(h, Mul(Xor(y, BlockBits(a[..16])), h), a[16..], b);
      assert (a + b)[..16] == a[..16] && (a + b)[16..] == a[16..] + b;
    }
  }

  lemma GhashOfBlock(h: Bits, y: Bits, b: Block)
    ensures GhashFrom(h, y, b) == Mul(Xor(y, BlockBits(b)), h)
  {
    hide Mul, Xor, BlockBits;
    assert b[..16] == b && b[16..] == [];
  }

  /** h to the n-th. */
  function Power(h: Bits, n: nat): Bits { if n == 0 then One() else Mul(Power(h, n - 1), h) }

  /** The first n terms of X_1 h^m + X_2 h^(m - 1) + ..., X_i being the i-th block. */
  function Polynomial(h: Bits, data: Bytes, m: nat, n: nat): Bits
    requires n <= m && 16 * n <= |data|
  {
    if n == 0 then Zero()
    else Xor(Polynomial(h, data, m, n - 1), Mul(BlockBits(data[16 * n - 16..16 * n]), Power(h, m - n + 1)))
  }

  lemma {:induction false} PolynomialTimes(h: Bits, data: Bytes, more: Bytes, m: nat, n: nat)
    requires n <= m && 16 * n <= |data|
    ensures Polynomial(h, data + more, m + 1, n) == Mul(Polynomial(h, data, m, n), h)
  {
    hide Mul, Xor, BlockBits;
    if n == 0 {
      MulZero(h, 128);
      MulCommutes(Zero(), h);
    } else {
      PolynomialTimes(h, data, more, m, n - 1);
      var x := data[16 * n - 16..16 * n];
      assert (data + more)[16 * n - 16..16 * n] == x;
      MulAssociates(BlockBits(x), Power(h, m - n + 1), h);
      MulIsBilinear(Polynomial(h, data, m, n - 1), Mul(BlockBits(x), Power(h, m - n + 1)), h);
    }
  }

  /** GHASH is the polynomial with the blocks for coefficients, the last at h itself. */
  lemma {:induction false} GhashIsPolynomial(h: Bits, data: Bytes, m: nat)
    requires |data| == 16 * m
    ensures GhashFrom(h, Zero(), data) == Polynomial(h, data, m, m)
    decreases m
  {
    hide Mul, Xor, BlockBits;
    if m > 0 {
      var init, last := data[..16 * m - 16], data[16 * m - 16..];
      assert init + last == data && data[16 * m - 16..16 * m] == last;
      GhashIsPolynomial(h, init, m - 1);
      PolynomialTimes(h, init, last, m - 1, m - 1);
      GhashOfConcat(h, Zero(), init, last);
      GhashOfBlock(h, GhashFrom(h, Zero(), init), last);
      MulIsBilinear(GhashFrom(h, Zero(), init), BlockBits(last), h);
      FirstPower(h);
    }
  }

  lemma FirstPower(h: Bits)
    ensures Power(h, 1) == h
  {
    hide Mul;
    assert Power(h, 0) == One();
    OneIsIdentity(h);
  }

  /** The block update takes at offset off: what is left, zero-padded to 16. */
  function PaddedBlock(p: Bytes, off: nat): Block
    requires off < |p|
  {
    var n := if |p| - off < 16 then |p| - off else 16;
    p[off..off + n] + Zeros(16 - n)
  }

  function Min(a: nat, b: nat): nat { if a < b then a else b }

  /** The part of the padded string update has taken when it reaches off. */
  function PaddedUpTo(p: Bytes, off: nat): Bytes {
    ZeroPad(p[..Min(off, |p|)])
  }

  lemma PaddedStep(p: Bytes, off: nat)
    requires off % 16 == 0 && off < |p|
    ensures PaddedUpTo(p, off + 16) == PaddedUpTo(p, off) + PaddedBlock(p, off)
  {
    var q := p[..Min(off + 16, |p|)];
    assert q == p[..off] + p[off..|q|];
    if off + 16 <= |p| {
      assert |q| % 16 == 0;
    } else {
      assert |q| % 16 == |p| - off;
    }
  }

  lemma PaddedEnds(p: Bytes, off: nat)
    requires |p| <= off
    ensures PaddedUpTo(p, off) == ZeroPad(p) && PaddedUpTo(p, 0) == []
  {
    assert p[..|p|] == p;
  }

  /** The 64-bit word of a number, as the uint64_t arithmetic leaves it. */
  function Word64(t: nat): bv64 { LoadWord(BigEndian(t, 8)) }

  class Ghash {
    const h: Block128
    var y: Block128

    constructor (h: Block128, y: Block128)
      ensures this.h == h && this.y == y
    {
      this.h := h;
      this.y := y;
    }

    /** Takes p in 16-byte blocks, the last one zero-padded. */
    method Update(p: Bytes)
      modifies this`y
      ensures BitsOf(y) == GhashFrom(BitsOf(h), old(BitsOf(y)), ZeroPad(p))
    {
      hide BitsOf, Mul, Xor, XorBlock, PaddedUpTo, ZeroPad, PaddedBlock;
      ghost var y0 := BitsOf(y);
      var off := 0;
      PaddedEnds(p, |p|);
      while off < |p|
        invariant off % 16 == 0
        invariant |PaddedUpTo(p, off)| % 16 == 0
        invariant BitsOf(y) == GhashFrom(BitsOf(h), y0, PaddedUpTo(p, off))
      {
        var blk := PaddedBlock(p, off);
        PaddedStep(p, off);
        GhashOfConcat(BitsOf(h), y0, PaddedUpTo(p, off), blk);
        GhashOfBlock(BitsOf(h), BitsOf(y), blk);
        LoadBlockBits(blk);
        var b := Load(blk);
        XorBlockIsXor(y, b);
        y := XorBlock(y, b);
        y := GfMul(y, h);
        off := off + 16;
      }
      PaddedEnds(p, off);
    }

    method Lengths(aBytes: nat, cBytes: nat)
      modifies this`y
      ensures BitsOf(y) == GhashFrom(BitsOf(h), old(BitsOf(y)), LengthBlock(aBytes, cBytes))
    {
      hide BitsOf, Mul, Xor, XorBlock, LoadWord, BlockBits;
      var b := Block128(Word64(aBytes * 8), Word64(cBytes * 8));
      ghost var blk := LengthBlock(aBytes, cBytes);
      assert blk[..8] == BigEndian(8 * aBytes, 8) && blk[8..] == BigEndian(8 * cBytes, 8);
      LoadBlockBits(blk);
      GhashOfBlock(BitsOf(h), BitsOf(y), blk);
      XorBlockIsXor(y, b);
      y := XorBlock(y, b);
      y := GfMul(y, h);
    }
  }

  // ----- GCM -----

  function HashKey(key: Key): Block { key.encrypt(Zeros(16)) }

  function IvInput(iv: Bytes): (r: Bytes)
    ensures |r| % 16 == 0
  {
    var p, l := ZeroPad(iv), LengthBlock(0, |iv|);
    WholeBlocks(|p|, 16);
    p + l
  }

  lemma WholeBlocks(m: nat, n: nat)
    requires m % 16 == 0 && n % 16 == 0
    ensures (m + n) % 16 == 0
  {
  }

  /** The zero-padded concatenation the tag is the GHASH of. */
  function TagInput(aad: Bytes, ct: Bytes): (r: Bytes)
    ensures |r| % 16 == 0
  {
    var a, c, l := ZeroPad(aad), ZeroPad(ct), LengthBlock(|aad|, |ct|);
    WholeBlocks(|a|, |c|);
    WholeBlocks(|a + c|, 16);
    a + c + l
  }

  function Hash(key: Key, input: Bytes): Bits
    requires |input| % 16 == 0
  {
    GhashFrom(BlockBits(HashKey(key)), Zero(), input)
  }

  /** J_0 (step 2 of section 7.1). */
  function InitialCounter(key: Key, iv: Bytes): Block {
    if |iv| == 12 then iv + [0, 0, 0, 1] else BytesOfBits(Hash(key, IvInput(iv)))
  }

  /** The i-th counter block, as the code forms it from the low 32 bits of J_0. */
  function GcmCounter(j0: Block, i: nat): Block {
    j0[..12] + BigEndian((Value(j0[12..]) + i) % 0x1_0000_0000, 4)
  }

  function GcmCounters(j0: Block, n: nat): (r: Bytes)
    ensures |r| == 16 * n
  {
    if n == 0 then [] else GcmCounters(j0, n - 1) + GcmCounter(j0, n - 1)
  }

  /** GCTR from inc_32(J_0): the text against the enciphered counters after J_0. */
  function Keystream(key: Key, j0: Block, len: nat): (r: Bytes)
    ensures len <= |r|
  {
    EcbBlocks(Encrypt, key, GcmCounters(j0, BlockCount(len) + 1))[16..]
  }

  function Gctr(key: Key, iv: Bytes, text: Bytes): (r: Bytes)
    ensures |r| == |text|
  {
    XorBytes(text, Keystream(key, InitialCounter(key, iv), |text|))
  }

  /** The full 16-byte tag over the additional data and the ciphertext. */
  function FullTag(key: Key, iv: Bytes, aad: Bytes, ct: Bytes): Block {
    XorBytes(BytesOfBits(Hash(key, TagInput(aad, ct))), key.encrypt(InitialCounter(key, iv)))
  }

  /** The code's counters are J_0 stepped by inc_32, which is ctrIncrement on 32 bits. */
  lemma GcmCounterIsInc32(j0: Block, i: nat)
    ensures GcmCounter(j0, i) == CounterBlock(j0, 32, i)
  {
    hide Value, CounterBlock, Pow2;
    var head, tail := j0[..12], j0[12..];
    assert head + tail == j0;
    Pow2Of64();
    var m := Pow2(32);
    var c := GcmCounter(j0, i);
    var low := BigEndian((Value(tail) + i) % m, 4);
    ValueOfBigEndian((Value(tail) + i) % m, 4);
    ModUnique((Value(tail) + i) % m, m, 0, (Value(tail) + i) % m);
    ValueOfConcat(head, low);
    ValueOfConcat(head, tail);
    ValueBounded(tail);
    ModUnique(Value(j0), m, Value(head), Value(tail));
    CounterBlockValue(j0, 32, i);
    ValueInjective(c, CounterBlock(j0, 32, i));
  }

  /** x behind as few zeros as make whole blocks. */
  predicate PaddedTo(p: Bytes, x: Bytes) {
    && |x| <= |p| < |x| + 16 && |p| % 16 == 0
    && forall k :: 0 <= k < |p| ==> p[k] == if k < |x| then x[k] else 0
  }

  /** The byte counts of two strings, in bits, as two 64-bit numbers. */
  predicate CountsBits(l: Bytes, m: nat, n: nat) {
    && |l| == 16
    && Value(l[..8]) == 8 * m % 0x1_0000_0000_0000_0000 && Value(l[8..]) == 8 * n % 0x1_0000_0000_0000_0000
  }

  lemma PaddedOnce(p: Bytes, x: Bytes)
    requires PaddedTo(p, x)
    ensures p == ZeroPad(x)
  {
    assert |p| == |ZeroPad(x)|;
  }

  lemma CountsOnce(l: Bytes, m: nat, n: nat)
    requires CountsBits(l, m, n)
    ensures l == LengthBlock(m, n)
  {
    hide Value, Pow2;
    Pow2Of64();
    ValueOfBigEndian(8 * m, 8);
    ValueOfBigEndian(8 * n, 8);
    ValueInjective(l[..8], BigEndian(8 * m, 8));
    ValueInjective(l[8..], BigEndian(8 * n, 8));
    assert l == l[..8] + l[8..];
  }

  /** J_0 is a 12-byte IV with the counter at one, and for any other IV the GHASH of the
      IV padded with zeros, 64 more and its length in bits. */
  lemma InitialCounterIs(key: Key, iv: Bytes, p: Bytes, l: Bytes)
    requires PaddedTo(p, iv) && CountsBits(l, 0, |iv|)
    ensures |iv| == 12 ==> InitialCounter(key, iv) == iv + [0, 0, 0, 1]
    ensures |p + l| % 16 == 0
    ensures |iv| != 12 ==>
      InitialCounter(key, iv)
      == BytesOfBits(GhashFrom(BlockBits(key.encrypt(seq(16, _ => 0))), seq(128, _ => false), p + l))
  {
    hide *;
    PaddedOnce(p, iv);
    CountsOnce(l, 0, |iv|);
    IvInputIs(iv);
    CounterFrom(key, iv);
    AllZero();
  }

  lemma IvInputIs(iv: Bytes)
    ensures IvInput(iv) == ZeroPad(iv) + LengthBlock(0, |iv|)
  {
    hide ZeroPad, LengthBlock;
  }

  lemma CounterFrom(key: Key, iv: Bytes)
    ensures InitialCounter(key, iv)
         == if |iv| == 12 then iv + [0, 0, 0, 1]
            else BytesOfBits(GhashFrom(BlockBits(key.encrypt(Zeros(16))), Zero(), IvInput(iv)))
  {
    hide BytesOfBits, BlockBits, GhashFrom, IvInput;
  }

  lemma AllZero()
    ensures Zeros(16) == seq(16, _ => 0) && Zero() == seq(128, _ => false)
  {
  }

  /** Byte k of the tag: of the GHASH of the additional data, the ciphertext, each padded
      with zeros, and their lengths in bits, against byte k of the enciphered J_0. */
  lemma TagByte(key: Key, iv: Bytes, aad: Bytes, ct: Bytes, a: Bytes, c: Bytes, l: Bytes, k: nat)
    requires PaddedTo(a, aad) && PaddedTo(c, ct) && CountsBits(l, |aad|, |ct|) && k < 16
    ensures |a + c + l| % 16 == 0
    ensures FullTag(key, iv, aad, ct)[k]
         == BytesOfBits(GhashFrom(BlockBits(key.encrypt(seq(16, _ => 0))), seq(128, _ => false), a + c + l))[k]
            ^ key.encrypt(InitialCounter(key, iv))[k]
  {
    hide BytesOfBits, BlockBits, GhashFrom, ZeroPad, LengthBlock, InitialCounter;
    PaddedOnce(a, aad);
    PaddedOnce(c, ct);
    CountsOnce(l, |aad|, |ct|);
    assert a + c + l == TagInput(aad, ct);
    assert Zeros(16) == seq(16, _ => 0) && Zero() == seq(128, _ => false);
  }

  /** Bit 8i + r of a block is bit r of byte i, the most significant first; and the block
      of a bit string is the one with those bits. */
  lemma BitsOfBlock(b: Block, i: nat, r: nat)
    requires i < 16 && r < 8
    ensures BlockBits(b)[8 * i + r] == (b[i] & [0x80, 0x40, 0x20, 0x10, 0x08, 0x04, 0x02, 0x01][r] != 0)
    ensures BytesOfBits(BlockBits(b)) == b
  {
    hide *;
    BlockBitsOfByte(b, i);
    BitIsMasked(b[i], r);
    BytesOfBlockBits(b);
  }

  lemma BitIsMasked(b: bv8, r: nat)
    requires r < 8
    ensures ByteBit(b, r) == (b & [0x80, 0x40, 0x20, 0x10, 0x08, 0x04, 0x02, 0x01][r] != 0)
  {
    hide ByteBit;
    BitsAreMasked(b);
    match r
    case 0 =>
    case 1 =>
    case 2 =>
    case 3 =>
    case 4 =>
    case 5 =>
    case 6 =>
    case _ =>
  }

  lemma BitsAreMasked(b: bv8)
    ensures ByteBit(b, 0) == (b & 0x80 != 0) && ByteBit(b, 1) == (b & 0x40 != 0)
    ensures ByteBit(b, 2) == (b & 0x20 != 0) && ByteBit(b, 3) == (b & 0x10 != 0)
    ensures ByteBit(b, 4) == (b & 0x08 != 0) && ByteBit(b, 5) == (b & 0x04 != 0)
    ensures ByteBit(b, 6) == (b & 0x02 != 0) && ByteBit(b, 7) == (b & 0x01 != 0)
  {
  }

  /** What aesGcmGeneric leaves: the text and the tag. Decryption is given the tag. */
  datatype Sealed = Sealed(text: Bytes, tag: Bytes)

  function Generic(dir: Dir, key: Key, iv: Bytes, data: Bytes, aad: Bytes, tag: Bytes): Option<Sealed>
    requires |tag| <= 16
  {
    if !key.usable then None
    else
      var text := Gctr(key, iv, data);
      match dir
      case Encrypt => Some(Sealed(text, FullTag(key, iv, aad, text)[..|tag|]))
      case Decrypt => if FullTag(key, iv, aad, data)[..|tag|] == tag then Some(Sealed(text, tag)) else None
  }

  datatype GcmError = EmptyIv | InvalidTagLength | ShorterThanTag | EncryptionFailed | DecryptionFailed

  datatype Result<+T> = Ok(value: T) | Err(error: GcmError)

  const TAG_BITS := {32.0, 64.0, 96.0, 104.0, 112.0, 120.0, 128.0}

  function TagLength(tagBits: real): nat
    requires tagBits in TAG_BITS
  {
    tagBits.Floor / 8
  }

  /** The AES-GCM branch of runCipher: encryption appends the leading tagLength
      bits of the full tag, decryption splits them off the end. */
  function RunGcm(dir: Dir, key: Key, iv: Bytes, aad: Bytes, tagBits: real, data: Bytes): Result<Bytes> {
    if iv == [] then Err(EmptyIv)
    else if tagBits !in TAG_BITS then Err(InvalidTagLength)
    else
      var tagLen := TagLength(tagBits);
      match dir
      case Encrypt =>
        (match Generic(Encrypt, key, iv, data, aad, Zeros(16))
         case None => Err(EncryptionFailed)
         case Some(s) => Ok(s.text + s.tag[..tagLen]))
      case Decrypt =>
        if |data| < tagLen then Err(ShorterThanTag)
        else
          var ctLen := |data| - tagLen;
          match Generic(Decrypt, key, iv, data[..ctLen], aad, data[ctLen..])
          case None => Err(DecryptionFailed)
          case Some(s) => Ok(s.text)
  }

  lemma GctrTwice(key: Key, iv: Bytes, text: Bytes)
    ensures Gctr(key, iv, Gctr(key, iv, text)) == text
  {
    XorBytesTwice(text, Keystream(key, InitialCounter(key, iv), |text|));
  }

  /** Byte k of the text is byte k of the input against byte k mod 16 of the enciphered
      counter block k / 16 + 1, block 0 being J_0 itself. */
  lemma GctrByte(key: Key, iv: Bytes, text: Bytes, k: nat)
    requires k < |text|
    ensures Gctr(key, iv, text)[k]
         == text[k] ^ key.encrypt(CounterBlock(InitialCounter(key, iv), 32, k / 16 + 1))[k % 16]
  {
    hide CounterBlock, GcmCounter, GcmCounters, EcbBlocks, InitialCounter;
    var j0, n, i := InitialCounter(key, iv), BlockCount(|text|) + 1, k / 16 + 1;
    var blocks := GcmCounters(j0, n);
    EcbBlocksAt(Encrypt, key, blocks, i);
    GcmCountersAt(j0, n, i);
    GcmCounterIsInc32(j0, i);
    var stream := EcbBlocks(Encrypt, key, blocks);
    assert stream[16..][k] == stream[16 * i..16 * i + 16][k % 16];
  }

  lemma {:induction false} GcmCountersAt(j0: Block, n: nat, i: nat)
    requires i < n
    ensures GcmCounters(j0, n)[16 * i..16 * i + 16] == GcmCounter(j0, i)
  {
    hide GcmCounter;
    var init := GcmCounters(j0, n - 1);
    if i < n - 1 {
      GcmCountersAt(j0, n - 1, i);
      assert GcmCounters(j0, n)[16 * i..16 * i + 16] == init[16 * i..16 * i + 16];
    }
  }

  lemma SealsWhen(key: Key, iv: Bytes, aad: Bytes, tagBits: real, data: Bytes)
    ensures RunGcm(Encrypt, key, iv, aad, tagBits, data).Ok? <==> key.usable && iv != [] && tagBits in TAG_BITS
  {
    hide Gctr, FullTag;
  }

  /** The bytes of a tag of one of the seven lengths, 0 for any other. */
  function BytesOfTag(tagBits: real): (n: nat)
    ensures n <= 16
  {
    if tagBits == 32.0 then 4 else if tagBits == 64.0 then 8 else if tagBits == 96.0 then 12
    else if tagBits == 104.0 then 13 else if tagBits == 112.0 then 14
    else if tagBits == 120.0 then 15 else if tagBits == 128.0 then 16 else 0
  }

  lemma TagLengthIs(tagBits: real)
    ensures tagBits in TAG_BITS <==> BytesOfTag(tagBits) != 0
    ensures tagBits in TAG_BITS ==> TagLength(tagBits) == BytesOfTag(tagBits)
  {
  }

  /** A seal is the text and as much of the tag as was asked for. Sealing fails without
      an IV, for a length other than the seven, or without a cipher, in that order. */
  lemma SealIs(key: Key, iv: Bytes, aad: Bytes, tagBits: real, data: Bytes)
    ensures RunGcm(Encrypt, key, iv, aad, tagBits, data) ==
            if iv == [] then Err(EmptyIv)
            else if BytesOfTag(tagBits) == 0 then Err(InvalidTagLength)
            else if !key.usable then Err(EncryptionFailed)
            else
              var text := Gctr(key, iv, data);
              Ok(text + FullTag(key, iv, aad, text)[..BytesOfTag(tagBits)])
    ensures BytesOfTag(tagBits) != 0 && RunGcm(Encrypt, key, iv, aad, tagBits, data).Ok? ==>
      |RunGcm(Encrypt, key, iv, aad, tagBits, data).value| == |data| + BytesOfTag(tagBits)
  {
    hide Gctr, FullTag, BytesOfTag, TagLength;
    TagLengthIs(tagBits);
    var text := Gctr(key, iv, data);
    assert FullTag(key, iv, aad, text)[..16] == FullTag(key, iv, aad, text);
  }

  /** Opening fails for the same reasons, on less than a tag, and on a wrong tag. */
  lemma OpenFails(key: Key, iv: Bytes, aad: Bytes, tagBits: real, sealed: Bytes)
    ensures var r, n := RunGcm(Decrypt, key, iv, aad, tagBits, sealed), BytesOfTag(tagBits);
      if iv == [] then r == Err(EmptyIv)
      else if n == 0 then r == Err(InvalidTagLength)
      else if |sealed| < n then r == Err(ShorterThanTag)
      else r.Err? ==> r == Err(DecryptionFailed)
  {
    hide Gctr, FullTag, BytesOfTag, TagLength;
    TagLengthIs(tagBits);
  }

  /** GCM opens what it seals, for every IV, additional data and allowed tag length. */
  lemma OpenOfSeal(key: Key, iv: Bytes, aad: Bytes, tagBits: real, data: Bytes)
    requires key.usable && iv != [] && tagBits in TAG_BITS
    ensures RunGcm(Encrypt, key, iv, aad, tagBits, data).Ok?
    ensures RunGcm(Decrypt, key, iv, aad, tagBits, RunGcm(Encrypt, key, iv, aad, tagBits, data).value) == Ok(data)
  {
    hide Gctr, FullTag;
    var tagLen := TagLength(tagBits);
    var ct := Gctr(key, iv, data);
    var full := FullTag(key, iv, aad, ct);
    var sealed := ct + full[..16][..tagLen];
    assert full[..16][..tagLen] == full[..tagLen];
    assert sealed[..|sealed| - tagLen] == ct && sealed[|sealed| - tagLen..] == full[..tagLen];
    GctrTwice(key, iv, data);
  }

  /** What opens is a seal of the text it opens to. */
  lemma SealOfOpen(key: Key, iv: Bytes, aad: Bytes, tagBits: real, sealed: Bytes)
    requires RunGcm(Decrypt, key, iv, aad, tagBits, sealed).Ok?
    ensures RunGcm(Encrypt, key, iv, aad, tagBits, RunGcm(Decrypt, key, iv, aad, tagBits, sealed).value) == Ok(sealed)
  {
    hide Gctr, FullTag;
    var tagLen := TagLength(tagBits);
    var ct := sealed[..|sealed| - tagLen];
    var full := FullTag(key, iv, aad, ct);
    GctrTwice(key, iv, ct);
    assert full[..16][..tagLen] == full[..tagLen];
    assert ct + sealed[|sealed| - tagLen..] == sealed;
  }

  /** Decryption accepts exactly the seals made under the same key, IV, additional
      data and tag length, and each is the seal of one text only. */
  lemma OpensExactlyTheSeals(key: Key, iv: Bytes, aad: Bytes, tagBits: real, sealed: Bytes)
    ensures RunGcm(Decrypt, key, iv, aad, tagBits, sealed).Ok?
       <==> exists p :: RunGcm(Encrypt, key, iv, aad, tagBits, p) == Ok(sealed)
    ensures forall p, q | RunGcm(Encrypt, key, iv, aad, tagBits, p) == Ok(sealed) ::
      RunGcm(Encrypt, key, iv, aad, tagBits, q) == Ok(sealed) ==> p == q
  {
    hide RunGcm;
    if RunGcm(Decrypt, key, iv, aad, tagBits, sealed).Ok? {
      SealOfOpen(key, iv, aad, tagBits, sealed);
    }
    forall p | RunGcm(Encrypt, key, iv, aad, tagBits, p) == Ok(sealed)
      ensures RunGcm(Decrypt, key, iv, aad, tagBits, sealed) == Ok(p)
    {
      SealsWhen(key, iv, aad, tagBits, p);
      OpenOfSeal(key, iv, aad, tagBits, p);
    }
  }

  // ----- the code -----

  /** j0 for an IV of any length. */
  method MakeJ0(ghost key: Key, h: Block128, iv: Bytes) returns (j0: Block)
    requires BitsOf(h) == BlockBits(HashKey(key))
    ensures j0 == InitialCounter(key, iv)
  {
    hide BitsOf, BlockBits, BytesOfBits, GhashFrom, StoreBlock, ZeroPad, LengthBlock;
    if |iv| == 12 {
      j0 := iv + [0, 0, 0, 1];
    } else {
      var g := new Ghash(h, Block128(0, 0));
      ZeroBlock();
      g.Update(iv);
      g.Lengths(0, |iv|);
      GhashOfConcat(BitsOf(h), Zero(), ZeroPad(iv), LengthBlock(0, |iv|));
      StoreBlockBytes(g.y);
      j0 := StoreBlock(g.y);
    }
  }

  /** J_0 and the nBlocks counters after it. */
  method MakeCounters(j0: Block, nBlocks: nat) returns (ctr: Bytes)
    ensures ctr == GcmCounters(j0, nBlocks + 1)
  {
    hide Value, BigEndian;
    ctr := [];
    var c0 := Value(j0[12..]);
    for i := 0 to nBlocks + 1
      invariant ctr == GcmCounters(j0, i)
    {
      var c := (c0 + i) % 0x1_0000_0000;
      ctr := ctr + (j0[..12] + BigEndian(c, 4));
    }
  }

  /** The GHASH over the additional data, the ciphertext and their lengths, masked
      with the enciphered J_0. */
  method MakeTag(ghost key: Key, h: Block128, iv: Bytes, aad: Bytes, ct: Bytes, ks0: Block) returns (full: Block)
    requires BitsOf(h) == BlockBits(HashKey(key))
    requires ks0 == key.encrypt(InitialCounter(key, iv))
    ensures full == FullTag(key, iv, aad, ct)
  {
    hide BitsOf, BlockBits, BytesOfBits, GhashFrom, StoreBlock, ZeroPad, LengthBlock, InitialCounter;
    var g := new Ghash(h, Block128(0, 0));
    ZeroBlock();
    g.Update(aad);
    g.Update(ct);
    g.Lengths(|aad|, |ct|);
    GhashOfConcat(BitsOf(h), Zero(), ZeroPad(aad), ZeroPad(ct));
    GhashOfConcat(BitsOf(h), Zero(), ZeroPad(aad) + ZeroPad(ct), LengthBlock(|aad|, |ct|));
    StoreBlockBytes(g.y);
    full := XorBytes(StoreBlock(g.y), ks0);
  }

  method AesGcmGeneric(dir: Dir, key: Key, iv: Bytes, data: Bytes, aad: Bytes, tag: Bytes)
    returns (out: Option<Sealed>)
    requires |tag| <= 16
    ensures out == Generic(dir, key, iv, data, aad, tag)
  {
    hide BitsOf, BlockBits, InitialCounter, FullTag, GcmCounters, EcbBlocks;
    var hBytes := Ecb(Encrypt, key, Zeros(16));
    if hBytes.None? { return None; }
    EcbBlocksAt(Encrypt, key, Zeros(16), 0);
    assert hBytes.value[0..16] == hBytes.value && Zeros(16)[0..16] == Zeros(16);
    var h := Load(hBytes.value);
    LoadBlockBits(hBytes.value);
    var j0 := MakeJ0(key, h, iv);

    var ctr := MakeCounters(j0, BlockCount(|data|));
    var ks := Ecb(Encrypt, key, ctr).value;
    FirstCounter(j0, BlockCount(|data|) + 1);
    EcbBlocksAt(Encrypt, key, ctr, 0);
    var text: Bytes := [];
    for i := 0 to |data|
      invariant text == Gctr(key, iv, data)[..i]
    {
      text := text + [data[i] ^ ks[16 + i]];
    }
    assert text == Gctr(key, iv, data);
    var cipherText := if dir == Encrypt then text else data;
    var full := MakeTag(key, h, iv, aad, cipherText, ks[..16]);
    if dir == Encrypt { return Some(Sealed(text, full[..|tag|])); }
    var diff := Difference(full[..|tag|], tag);
    return if diff != 0 then None else Some(Sealed(text, tag));
  }

  /** The first of the counters is J_0 itself. */
  lemma {:induction false} FirstCounter(j0: Block, n: nat)
    requires 0 < n
    ensures GcmCounters(j0, n)[..16] == j0
  {
    if n > 1 {
      FirstCounter(j0, n - 1);
    } else {
      GcmCounterIsInc32(j0, 0);
      CounterBlock0(j0, 32);
      assert GcmCounters(j0, 0) == [];
    }
  }
}
