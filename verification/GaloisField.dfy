/** The product in GF(2^128) that GCM authenticates with: gfMul on two 64-bit
    words against the bit-string product of section 6.3 of NIST SP 800-38D, and
    the algebra of that product.
 */
module GaloisField {
  import opened Octets

  // ----- 128-bit strings, leftmost bit first -----

  type Bits = b: seq<bool> | |b| == 128 witness seq(128, _ => false)

  function Zero(): Bits { seq(128, _ => false) }

  /** The string 1 || 0^127. */
  function One(): Bits { seq(128, i => i == 0) }

  /** R = 11100001 || 0^120. */
  function R(): Bits { seq(128, i => i == 0 || i == 1 || i == 2 || i == 7) }

  function Xor(a: Bits, b: Bits): Bits {
    seq(128, i requires 0 <= i < 128 => a[i] != b[i])
  }

  function ShiftRight(v: Bits): Bits { [false] + v[..127] }

  /** One step of V in the algorithm: shift right, reduced by R when a one falls off. */
  function Times(v: Bits): Bits {
    if v[127] then Xor(ShiftRight(v), R()) else ShiftRight(v)
  }

  /** V_i, starting from y. */
  function TimesPow(y: Bits, i: nat): Bits {
    if i == 0 then y else Times(TimesPow(y, i - 1))
  }

  /** Z_n of the algorithm for the product of x and y. */
  function MulUpTo(x: Bits, y: Bits, n: nat): Bits
    requires n <= 128
  {
    if n == 0 then Zero()
    else
      var z := MulUpTo(x, y, n - 1);
      if x[n - 1] then Xor(z, TimesPow(y, n - 1)) else z
  }

  function Mul(x: Bits, y: Bits): Bits { MulUpTo(x, y, 128) }

  // ----- algebra -----

  lemma TimesXor(a: Bits, b: Bits)
    ensures Times(Xor(a, b)) == Xor(Times(a), Times(b))
  {
  }

  lemma {:induction false} TimesPowXor(a: Bits, b: Bits, i: nat)
    ensures TimesPow(Xor(a, b), i) == Xor(TimesPow(a, i), TimesPow(b, i))
  {
    hide Times, Xor;
    if i > 0 {
      TimesPowXor(a, b, i - 1);
      TimesXor(TimesPow(a, i - 1), TimesPow(b, i - 1));
    }
  }

  lemma {:induction false} TimesPowTimes(y: Bits, i: nat)
    ensures TimesPow(Times(y), i) == Times(TimesPow(y, i))
  {
    hide Times;
    if i > 0 { TimesPowTimes(y, i - 1); }
  }

  lemma XorShuffle(a: Bits, b: Bits, c: Bits, d: Bits)
    ensures Xor(Xor(a, b), Xor(c, d)) == Xor(Xor(a, c), Xor(b, d))
    ensures Xor(a, Zero()) == a == Xor(Zero(), a) && Xor(a, a) == Zero()
    ensures Xor(a, b) == Xor(b, a) && Xor(Xor(a, b), c) == Xor(a, Xor(b, c))
  {
  }

  lemma {:induction false} MulXorRightUpTo(x: Bits, a: Bits, b: Bits, n: nat)
    requires n <= 128
    ensures MulUpTo(x, Xor(a, b), n) == Xor(MulUpTo(x, a, n), MulUpTo(x, b, n))
  {
    hide Times, Xor, TimesPow;
    if n == 0 {
      XorShuffle(Zero(), Zero(), Zero(), Zero());
    } else {
      MulXorRightUpTo(x, a, b, n - 1);
      TimesPowXor(a, b, n - 1);
      XorShuffle(MulUpTo(x, a, n - 1), MulUpTo(x, b, n - 1), TimesPow(a, n - 1), TimesPow(b, n - 1));
    }
  }

  lemma {:induction false} MulXorLeftUpTo(a: Bits, b: Bits, y: Bits, n: nat)
    requires n <= 128
    ensures MulUpTo(Xor(a, b), y, n) == Xor(MulUpTo(a, y, n), MulUpTo(b, y, n))
  {
    hide Times, TimesPow, Xor;
    if n == 0 {
      XorShuffle(Zero(), Zero(), Zero(), Zero());
    } else {
      MulXorLeftUpTo(a, b, y, n - 1);
      var z, w, t := MulUpTo(a, y, n - 1), MulUpTo(b, y, n - 1), TimesPow(y, n - 1);
      XorShuffle(z, w, t, t);
      XorShuffle(z, w, t, Zero());
      XorShuffle(z, w, Zero(), t);
      XorShuffle(z, Zero(), Zero(), Zero());
      XorShuffle(w, Zero(), Zero(), Zero());
      XorShuffle(t, Zero(), Zero(), Zero());
      XorShuffle(Xor(z, w), Zero(), Zero(), Zero());
      XorBit(a, b, n - 1);
    }
  }

  lemma XorBit(a: Bits, b: Bits, i: nat)
    requires i < 128
    ensures Xor(a, b)[i] == (a[i] != b[i])
  {
  }

  lemma {:induction false} MulTimesUpTo(x: Bits, y: Bits, n: nat)
    requires n <= 128
    ensures MulUpTo(x, Times(y), n) == Times(MulUpTo(x, y, n))
  {
    hide Times, Xor, TimesPow;
    if n == 0 {
      TimesZero();
    } else {
      MulTimesUpTo(x, y, n - 1);
      TimesPowTimes(y, n - 1);
      TimesXor(MulUpTo(x, y, n - 1), TimesPow(y, n - 1));
    }
  }

  lemma TimesZero()
    ensures Times(Zero()) == Zero()
  {
  }

  lemma {:induction false} MulTimesPow(x: Bits, y: Bits, i: nat)
    ensures Mul(x, TimesPow(y, i)) == TimesPow(Mul(x, y), i)
  {
    hide Times, MulUpTo;
    if i > 0 {
      MulTimesPow(x, y, i - 1);
      MulTimesUpTo(x, TimesPow(y, i - 1), 128);
    }
  }

  /** The product distributes over XOR on both sides. */
  lemma MulIsBilinear(a: Bits, b: Bits, y: Bits)
    ensures Mul(Xor(a, b), y) == Xor(Mul(a, y), Mul(b, y))
    ensures Mul(y, Xor(a, b)) == Xor(Mul(y, a), Mul(y, b))
  {
    MulXorLeftUpTo(a, b, y, 128);
    MulXorRightUpTo(y, a, b, 128);
  }

  lemma {:induction false} ExchangeUpTo(x: Bits, y: Bits, z: Bits, n: nat)
    requires n <= 128
    ensures Mul(x, MulUpTo(y, z, n)) == MulUpTo(y, Mul(x, z), n)
  {
    hide Times, Xor, Mul, TimesPow;
    if n == 0 {
      MulZero(x, 128);
    } else {
      ExchangeUpTo(x, y, z, n - 1);
      MulTimesPow(x, z, n - 1);
      MulIsBilinear(MulUpTo(y, z, n - 1), TimesPow(z, n - 1), x);
    }
  }

  lemma {:induction false} MulZero(x: Bits, n: nat)
    requires n <= 128
    ensures MulUpTo(x, Zero(), n) == Zero() && Mul(x, Zero()) == MulUpTo(x, Zero(), 128)
  {
    hide Times, Xor, TimesPow;
    if n > 0 {
      MulZero(x, n - 1);
      TimesPowZero(n - 1);
      XorShuffle(Zero(), Zero(), Zero(), Zero());
    }
  }

  lemma {:induction false} TimesPowZero(i: nat)
    ensures TimesPow(Zero(), i) == Zero()
  {
    hide Times;
    if i > 0 { TimesPowZero(i - 1); TimesZero(); }
  }

  function Unit(j: nat): Bits { seq(128, i => i == j) }

  lemma {:induction false} TimesPowOne(j: nat)
    requires j < 128
    ensures TimesPow(One(), j) == Unit(j)
  {
    if j > 0 { TimesPowOne(j - 1); }
  }

  lemma {:induction false} MulOneUpTo(x: Bits, n: nat)
    requires n <= 128
    ensures MulUpTo(x, One(), n) == seq(128, i requires 0 <= i < 128 => i < n && x[i])
  {
    if n > 0 {
      MulOneUpTo(x, n - 1);
      TimesPowOne(n - 1);
    }
  }

  lemma MulCommutes(x: Bits, y: Bits)
    ensures Mul(x, y) == Mul(y, x)
  {
    hide Mul;
    MulOne(x);
    MulOne(y);
    Exchange(x, y, One());
  }

  lemma MulOne(x: Bits)
    ensures Mul(x, One()) == x
  {
    hide MulUpTo;
    MulOneUpTo(x, 128);
  }

  /** 1 || 0^127 is the identity on both sides. */
  lemma OneIsIdentity(x: Bits)
    ensures Mul(x, One()) == x && Mul(One(), x) == x
  {
    MulOne(x);
    MulCommutes(x, One());
  }

  lemma Exchange(x: Bits, y: Bits, z: Bits)
    ensures Mul(x, Mul(y, z)) == Mul(y, Mul(x, z))
  {
    hide MulUpTo;
    ExchangeUpTo(x, y, z, 128);
  }

  lemma MulAssociates(x: Bits, y: Bits, z: Bits)
    ensures Mul(Mul(x, y), z) == Mul(x, Mul(y, z))
  {
    hide Mul;
    MulCommutes(Mul(x, y), z);
    Exchange(z, x, y);
    MulCommutes(z, y);
  }

  // ----- the field's polynomial -----

  lemma {:induction false} TimesPowAdd(y: Bits, i: nat, j: nat)
    ensures TimesPow(TimesPow(y, i), j) == TimesPow(y, i + j)
  {
    hide Times;
    if j > 0 { TimesPowAdd(y, i, j - 1); }
  }

  /** Bit i stands for the i-th power: below the degree the exponents add up. */
  lemma PowersMultiply(x: Bits, y: Bits, z: Bits, i: nat, j: nat)
    requires i + j < 128
    requires forall k :: 0 <= k < 128 ==> x[k] == (k == i) && y[k] == (k == j) && z[k] == (k == i + j)
    ensures Mul(x, y) == z
  {
    hide Mul, Times, TimesPow;
    assert x == Unit(i) && y == Unit(j) && z == Unit(i + j);
    TimesPowOne(i);
    TimesPowOne(j);
    TimesPowOne(i + j);
    MulTimesPow(x, One(), j);
    MulOne(x);
    TimesPowAdd(One(), i, j);
  }

  /** The 128th power is 1 + the first + the second + the seventh. */
  lemma TopPowerWraps(x: Bits, y: Bits, k: nat)
    requires k < 128 && forall k :: 0 <= k < 128 ==> x[k] == (k == 127) && y[k] == (k == 1)
    ensures Mul(x, y)[k] == (k == 0 || k == 1 || k == 2 || k == 7)
  {
    hide Mul;
    assert x == Unit(127) && y == Unit(1);
    TimesPowOne(1);
    MulTimesPow(x, One(), 1);
    MulOne(x);
    assert TimesPow(x, 1) == Times(x) by { assert TimesPow(x, 0) == x; }
  }

  // ----- the block as two words -----

  datatype Block128 = Block128(hi: bv64, lo: bv64)

  /** The low bit of w >> s. */
  function ShiftBit(w: bv64, s: nat): bv64
    requires s < 64
  {
    (w >> s) & 1
  }

  function WordBit(w: bv64, k: nat): bool
    requires k < 64
  {
    ShiftBit(w, 63 - k) == 1
  }

  function BitsOf(b: Block128): Bits {
    seq(128, i requires 0 <= i < 128 => if i < 64 then WordBit(b.hi, i) else WordBit(b.lo, i - 64))
  }

  /** The same bit, with the shift amount already a bit-vector. */
  function BitAt(w: bv64, s: bv8): bool
    requires s < 64
  {
    (w >> s) & 1 == 1
  }

  lemma WordBitAt(w: bv64, k: nat)
    requires k < 64
    ensures (63 - k) as bv8 < 64 && WordBit(w, k) == BitAt(w, (63 - k) as bv8)
  {
    AmountBound(63 - k);
    ShiftAmount(w, 63 - k);
  }

  lemma ShiftAmount(w: bv64, k: nat)
    requires k < 64
    ensures w >> k == w >> (k as bv8)
  {
    if k < 32 {
      if k < 16 { ShiftFirst(w, k); } else { ShiftSecond(w, k); }
    } else {
      if k < 48 { ShiftThird(w, k); } else { ShiftFourth(w, k); }
    }
  }

  lemma ShiftFirst(w: bv64, k: nat)
    requires k < 16
    ensures w >> k == w >> (k as bv8)
  {
    if k < 4 {} else if k < 8 {} else if k < 12 {} else {}
  }

  lemma ShiftSecond(w: bv64, k: nat)
    requires 16 <= k < 32
    ensures w >> k == w >> (k as bv8)
  {
    if k < 20 {} else if k < 24 {} else if k < 28 {} else {}
  }

  lemma ShiftThird(w: bv64, k: nat)
    requires 32 <= k < 48
    ensures w >> k == w >> (k as bv8)
  {
    if k < 36 {} else if k < 40 {} else if k < 44 {} else {}
  }

  lemma ShiftFourth(w: bv64, k: nat)
    requires 48 <= k < 64
    ensures w >> k == w >> (k as bv8)
  {
    if k < 52 {} else if k < 56 {} else if k < 60 {} else {}
  }

  lemma AmountStep(k: nat)
    requires k < 63
    ensures (k + 1) as bv8 == k as bv8 + 1
  {
    ByteOfInt(k);
    ByteOfInt(k + 1);
    AmountBound(k);
    NextAmount(k as bv8, (k + 1) as bv8);
  }

  lemma NextAmount(s: bv8, t: bv8)
    requires s < 63 && t as int == s as int + 1
    ensures t == s + 1
  {
    AmountPlusOne(s);
    ByteInjective(t, s + 1);
  }

  lemma AmountPlusOne(s: bv8)
    requires s < 63
    ensures (s + 1) as int == s as int + 1
  {
  }

  lemma AmountBound(k: nat)
    requires k < 64
    ensures k as bv8 < 64
    ensures k < 63 ==> k as bv8 < 63
  {
  }

  lemma BitAtXor(w: bv64, v: bv64, s: bv8)
    requires s < 64
    ensures BitAt(w ^ v, s) == (BitAt(w, s) != BitAt(v, s))
  {
  }

  lemma BitAtShift(w: bv64, carry: bv64, s: bv8)
    requires s < 63
    ensures BitAt((w >> 1) | (carry << 63), s) == BitAt(w, s + 1)
    ensures BitAt(w >> 1, s) == BitAt(w, s + 1)
  {
  }

  lemma WordBitXor(w: bv64, v: bv64, k: nat)
    requires k < 64
    ensures WordBit(XorWord(w, v), k) == (WordBit(w, k) != WordBit(v, k))
  {
    hide WordBit, BitAt;
    WordBitAt(w, k);
    WordBitAt(v, k);
    WordBitAt(w ^ v, k);
    BitAtXor(w, v, (63 - k) as bv8);
  }

  /** A word shifted right by one, with the low bit of `carry` coming in at the top. */
  function Shifted(w: bv64, carry: bv64): bv64 { (w >> 1) | (carry << 63) }

  lemma WordBitShift(w: bv64, carry: bv64, k: nat)
    requires k < 64
    ensures WordBit(Shifted(w, carry), k) == if k == 0 then WordBit(carry, 63) else WordBit(w, k - 1)
  {
    if k == 0 {
      TopBit(w, carry);
    } else {
      hide WordBit, BitAt;
      WordBitAt(w, k - 1);
      WordBitAt(Shifted(w, carry), k);
      AmountStep(63 - k);
      AmountBound(63 - k);
      BitAtShift(w, carry, (63 - k) as bv8);
    }
  }

  lemma TopBit(w: bv64, carry: bv64)
    ensures WordBit(Shifted(w, carry), 0) == WordBit(carry, 63)
  {
  }

  lemma WordBitR(k: nat)
    requires k < 64
    ensures WordBit(0xe100000000000000, k) == (k == 0 || k == 1 || k == 2 || k == 7)
  {
  }

  lemma MaskWord(w: bv64, v: bv64, bit: bv64)
    requires bit == 0 || bit == 1
    ensures MaskedXorWord(w, v, bit) == if bit == 1 then XorWord(w, v) else w
  {
    hide MaskedXorWord, XorWord;
    if bit == 1 { MaskOne(w, v); } else { MaskZero(w, v); }
  }

  lemma MaskOne(w: bv64, v: bv64)
    ensures MaskedXorWord(w, v, 1) == XorWord(w, v)
  {
  }

  lemma MaskZero(w: bv64, v: bv64)
    ensures MaskedXorWord(w, v, 0) == w
  {
  }

  function XorWord(w: bv64, v: bv64): bv64 { w ^ v }

  function XorBlock(a: Block128, b: Block128): Block128 {
    Block128(XorWord(a.hi, b.hi), XorWord(a.lo, b.lo))
  }

  lemma XorBlockIsXor(a: Block128, b: Block128)
    ensures BitsOf(XorBlock(a, b)) == Xor(BitsOf(a), BitsOf(b))
  {
    hide WordBit, XorWord;
    forall i | 0 <= i < 128
      ensures BitsOf(XorBlock(a, b))[i] == Xor(BitsOf(a), BitsOf(b))[i]
    {
      if i < 64 {
        WordBitXor(a.hi, b.hi, i);
      } else {
        WordBitXor(a.lo, b.lo, i - 64);
      }
    }
  }

  function ShiftedBlock(v: Block128): Block128 { Block128(Shifted(v.hi, 0), Shifted(v.lo, v.hi)) }

  function RBlock(): Block128 { Block128(0xe100000000000000, 0) }

  lemma ShiftedBlockIsShiftRight(v: Block128)
    ensures BitsOf(ShiftedBlock(v)) == ShiftRight(BitsOf(v))
  {
    hide WordBit, Shifted;
    forall i | 0 <= i < 128
      ensures BitsOf(ShiftedBlock(v))[i] == ShiftRight(BitsOf(v))[i]
    {
      if i < 64 {
        WordBitShift(v.hi, 0, i);
        ZeroWord(63);
      } else {
        WordBitShift(v.lo, v.hi, i - 64);
      }
    }
  }

  lemma ZeroWord(k: nat)
    requires k < 64
    ensures !WordBit(0, k)
  {
  }

  lemma RBlockIsR()
    ensures BitsOf(RBlock()) == R()
  {
    hide WordBit;
    forall i | 0 <= i < 128
      ensures BitsOf(RBlock())[i] == R()[i]
    {
      if i < 64 { WordBitR(i); } else { ZeroWord(i - 64); }
    }
  }

  lemma ZeroBlock()
    ensures BitsOf(Block128(0, 0)) == Zero()
  {
    hide WordBit;
    forall i | 0 <= i < 128
      ensures BitsOf(Block128(0, 0))[i] == Zero()[i]
    {
      ZeroWord(i % 64);
    }
  }

  /** The masked assignments of the loop body, as the branches they stand for. */
  function MaskedXor(z: Block128, v: Block128, bit: bv64): Block128 {
    Block128(MaskedXorWord(z.hi, v.hi, bit), MaskedXorWord(z.lo, v.lo, bit))
  }

  function MaskedXorWord(w: bv64, v: bv64, bit: bv64): bv64 { w ^ (v & (0 - bit)) }

  function Lsb(w: bv64): bv64 { w & 1 }

  function Half(w: bv64): bv64 { w >> 1 }

  function StepV(v: Block128): Block128 {
    var lsb := Lsb(v.lo);
    Block128(MaskedXorWord(Half(v.hi), 0xe100000000000000, lsb), Shifted(v.lo, v.hi))
  }

  lemma MaskedXorIs(z: Block128, v: Block128, bit: bv64)
    requires bit == 0 || bit == 1
    ensures MaskedXor(z, v, bit) == if bit == 1 then XorBlock(z, v) else z
  {
    hide MaskedXorWord, XorWord;
    MaskWord(z.hi, v.hi, bit);
    MaskWord(z.lo, v.lo, bit);
  }

  lemma StepVIs(v: Block128)
    ensures StepV(v) == if WordBit(v.lo, 63) then XorBlock(ShiftedBlock(v), RBlock()) else ShiftedBlock(v)
  {
    hide XorWord, MaskedXorWord, Shifted, WordBit, Lsb, Half;
    LowBit(v.lo);
    MaskWord(Half(v.hi), 0xe100000000000000, Lsb(v.lo));
    NoCarry(v.hi);
    XorWordZero(Shifted(v.lo, v.hi));
  }

  lemma XorWordZero(w: bv64)
    ensures XorWord(w, 0) == w
  {
  }

  lemma NoCarry(w: bv64)
    ensures Shifted(w, 0) == Half(w)
  {
  }

  lemma StepVIsTimes(v: Block128)
    ensures BitsOf(StepV(v)) == Times(BitsOf(v))
  {
    hide StepV, XorBlock, ShiftedBlock, RBlock, WordBit, Xor, ShiftRight, R;
    StepVIs(v);
    ShiftedBlockIsShiftRight(v);
    RBlockIsR();
    XorBlockIsXor(ShiftedBlock(v), RBlock());
  }

  /** The bit of x the loop tests at index i. */
  function TestBit(x: Block128, i: nat): bv64
    requires i < 128
  {
    if i < 64 then ShiftBit(x.hi, 63 - i) else ShiftBit(x.lo, 127 - i)
  }

  lemma TestBitIs(x: Block128, i: nat)
    requires i < 128
    ensures TestBit(x, i) == 0 || TestBit(x, i) == 1
    ensures BitsOf(x)[i] == (TestBit(x, i) == 1)
  {
    hide ShiftBit;
    if i < 64 {
      ShiftBitIsBit(x.hi, 63 - i);
    } else {
      ShiftBitIsBit(x.lo, 127 - i);
      assert ShiftBit(x.lo, 127 - i) == ShiftBit(x.lo, 63 - (i - 64));
      assert BitsOf(x)[i] == WordBit(x.lo, i - 64);
    }
  }

  lemma ShiftBitIsBit(w: bv64, s: nat)
    requires s < 64
    ensures ShiftBit(w, s) == 0 || ShiftBit(w, s) == 1
  {
    LowBit(w >> s);
  }

  lemma LowBit(w: bv64)
    ensures w & 1 == 0 || w & 1 == 1
    ensures WordBit(w, 63) == (Lsb(w) == 1) && (Lsb(w) == 0 || Lsb(w) == 1)
  {
  }

  lemma MulBody(x: Block128, y: Bits, i: nat, z: Block128, v: Block128)
    requires i < 128
    requires BitsOf(z) == MulUpTo(BitsOf(x), y, i) && BitsOf(v) == TimesPow(y, i)
    ensures BitsOf(MaskedXor(z, v, TestBit(x, i))) == MulUpTo(BitsOf(x), y, i + 1)
    ensures BitsOf(StepV(v)) == TimesPow(y, i + 1)
  {
    hide MaskedXor, StepV, TestBit, XorBlock, Xor, Times, BitsOf;
    TestBitIs(x, i);
    MaskedXorIs(z, v, TestBit(x, i));
    XorBlockIsXor(z, v);
    StepVIsTimes(v);
  }

  /** gfMul computes the product of section 6.3 of NIST SP 800-38D. */
  method GfMul(x: Block128, y: Block128) returns (z: Block128)
    ensures BitsOf(z) == Mul(BitsOf(x), BitsOf(y))
  {
    hide BitsOf, MulUpTo, TimesPow, MaskedXor, StepV, TestBit;
    z := Block128(0, 0);
    var v := y;
    MulStart(BitsOf(x), BitsOf(y));
    for i := 0 to 128
      invariant BitsOf(z) == MulUpTo(BitsOf(x), BitsOf(y), i)
      invariant BitsOf(v) == TimesPow(BitsOf(y), i)
    {
      MulBody(x, BitsOf(y), i, z, v);
      z := MaskedXor(z, v, TestBit(x, i));
      v := StepV(v);
    }
  }

  lemma MulStart(x: Bits, y: Bits)
    ensures BitsOf(Block128(0, 0)) == MulUpTo(x, y, 0) && TimesPow(y, 0) == y
  {
    ZeroBlock();
  }
}
