/** AES-CTR with a counter of any width from 1 to 128 bits: ctrIncrement on the
    low bits of the block, the refusal that keeps the counter from repeating, and
    the keystream.
 */
module CounterMode {
  import opened Arith
  import opened BlockCipher
  import opened Common
  import opened Octets

  function Mask(here: nat): bv8
    requires 1 <= here <= 8
  {
    if here == 8 then 0xFF else (1 << here) - 1
  }

  /** The masked bits of the byte after adding one, and the byte holding them. */
  function Low(x: bv8, mask: bv8): bv8 { (x + 1) & mask }

  function NextByte(x: bv8, mask: bv8): bv8 { (x & !mask) | Low(x, mask) }

  /** The code's recurrence, read from the last byte of the block. */
  function Increment(b: Bytes, bits: nat): (r: Bytes)
    ensures |r| == |b|
  {
    if b == [] || bits == 0 then b
    else
      var here := if bits < 8 then bits else 8;
      var last := b[|b| - 1];
      var low := Low(last, Mask(here));
      var last' := NextByte(last, Mask(here));
      if low != 0 then b[..|b| - 1] + [last'] else Increment(b[..|b| - 1], bits - here) + [last']
  }

  /** Adding one within a number's residue modulo m, its quotient unchanged. */
  function BumpMod(v: nat, m: nat): nat
    requires m > 0
  {
    v - v % m + (v % m + 1) % m
  }

  lemma BumpNoCarry(h: nat, l: nat, m: nat)
    requires 0 < m && l < 255
    ensures 0 < 256 * m && BumpMod(256 * h + l, 256 * m) == 256 * h + l + 1
  {
    ModShift(h, l, m);
    ModShift(h % m, l + 1, m);
    ModUnique(h % m, m, 0, h % m);
  }

  lemma BumpCarry(h: nat, m: nat)
    requires 0 < m
    ensures 0 < 256 * m && BumpMod(256 * h + 255, 256 * m) == 256 * BumpMod(h, m)
  {
    ModShift(h, 255, m);
    ModShift(h % m + 1, 0, m);
  }

  lemma BumpWithinByte(h: nat, l: nat, m: nat, q: nat)
    requires 0 < m && m * q == 256
    ensures BumpMod(256 * h + l, m) == 256 * h + BumpMod(l, m)
  {
    assert l + m * (q * h) == 256 * h + l by {
      assert m * (q * h) == (m * q) * h;
    }
    ModAdd(l, m, q * h);
  }

  lemma Bump1(x: bv8)
    ensures NextByte(x, 1) as int == BumpMod(x as int, 2)
  {
  }

  lemma Bump2(x: bv8)
    ensures NextByte(x, 3) as int == BumpMod(x as int, 4)
  {
  }

  lemma Bump3(x: bv8)
    ensures NextByte(x, 7) as int == BumpMod(x as int, 8)
  {
  }

  lemma Bump4(x: bv8)
    ensures NextByte(x, 15) as int == BumpMod(x as int, 16)
  {
  }

  lemma Bump5(x: bv8)
    ensures NextByte(x, 31) as int == BumpMod(x as int, 32)
  {
  }

  lemma Bump6(x: bv8)
    ensures NextByte(x, 63) as int == BumpMod(x as int, 64)
  {
  }

  lemma Bump7(x: bv8)
    ensures NextByte(x, 127) as int == BumpMod(x as int, 128)
  {
  }

  lemma MaskByWidth(here: nat)
    requires 1 <= here <= 8
    ensures Pow2(here) == [2, 4, 8, 16, 32, 64, 128, 256][here - 1]
    ensures Mask(here) == [1, 3, 7, 15, 31, 63, 127, 255][here - 1]
  {
    if here == 1 { assert Mask(1) == 1 && Pow2(1) == 2; }
    else if here == 2 { assert Mask(2) == 3 && Pow2(2) == 4; }
    else if here == 3 { assert Mask(3) == 7 && Pow2(3) == 8; }
    else if here == 4 { assert Mask(4) == 15 && Pow2(4) == 16; }
    else if here == 5 { assert Mask(5) == 31 && Pow2(5) == 32; }
    else if here == 6 { assert Mask(6) == 63 && Pow2(6) == 64; }
    else if here == 7 { assert Mask(7) == 127 && Pow2(7) == 128; }
    else { assert Mask(8) == 255 && Pow2(8) == 256; }
  }

  lemma MaskedBump(x: bv8, here: nat)
    requires 1 <= here < 8
    ensures NextByte(x, Mask(here)) as int == BumpMod(x as int, Pow2(here))
  {
    hide Mask, Pow2, NextByte, BumpMod;
    MaskByWidth(here);
    match here
    case 1 => Bump1(x);
    case 2 => Bump2(x);
    case 3 => Bump3(x);
    case 4 => Bump4(x);
    case 5 => Bump5(x);
    case 6 => Bump6(x);
    case _ => Bump7(x);
  }

  /** ctrIncrement adds one modulo 2^bits to the low bits of the big-endian block
      and leaves the bits above them alone. */
  lemma {:induction false} IncrementIsBump(b: Bytes, bits: nat)
    requires bits <= 8 * |b|
    ensures Value(Increment(b, bits)) == BumpMod(Value(b), Pow2(bits))
  {
    hide Mask, BumpMod, Pow2, Value, NextByte, Low;
    if b == [] || bits == 0 {
      BumpNothing(b);
    } else {
      var init, last := b[..|b| - 1], b[|b| - 1];
      var here := if bits < 8 then bits else 8;
      var low := Low(last, Mask(here));
      var last' := NextByte(last, Mask(here));
      ValueSplit(b, init, last);
      assert Pow2(8) == 256 && Pow2(0) == 1 by { PowValues(); }
      if low == 0 && here == 8 {
        LastByte(last);
        ValueSplit(Increment(b, bits), Increment(init, bits - 8), last');
        Pow2Add(8, bits - 8);
        IncrementIsBump(init, bits - 8);
        BumpCarry(Value(init), Pow2(bits - 8));
      } else {
        Increment0(init);
        ValueSplit(Increment(b, bits), init, last');
        if here == 8 {
          LastByte(last);
          Pow2Add(8, bits - 8);
          BumpNoCarry(Value(init), last as int, Pow2(bits - 8));
        } else {
          MaskedBump(last, here);
          Pow2Add(here, 8 - here);
          BumpWithinByte(Value(init), last as int, Pow2(here), Pow2(8 - here));
        }
      }
    }
  }

  lemma PowValues()
    ensures Pow2(8) == 256 && Pow2(0) == 1
  {
  }

  lemma BumpNothing(b: Bytes)
    ensures BumpMod(Value(b), Pow2(0)) == Value(b)
    ensures Increment(b, 0) == b && Increment([], |b|) == []
  {
  }

  /** BumpMod of a byte modulo 256, as the whole-byte step computes it. */
  lemma LastByte(x: bv8)
    ensures Pow2(8) == 256 && Mask(8) == 0xFF
    ensures Low(x, Mask(8)) == 0 <==> x as int == 255
    ensures x as int < 255 ==> NextByte(x, Mask(8)) as int == x as int + 1
    ensures x as int == 255 ==> NextByte(x, Mask(8)) as int == 0
  {
  }

  lemma Increment0(b: Bytes)
    ensures Increment(b, 0) == b
  {
  }

  /** The i-th counter block. */
  function CounterBlock(counter: Block, bits: nat, i: nat): Block {
    if i == 0 then counter else Increment(CounterBlock(counter, bits, i - 1), bits)
  }

  function CounterBlocks(counter: Block, bits: nat, n: nat): (r: Bytes)
    ensures |r| == 16 * n
  {
    if n == 0 then [] else CounterBlocks(counter, bits, n - 1) + CounterBlock(counter, bits, n - 1)
  }

  function BlockCount(len: nat): nat { (len + 15) / 16 }

  /** aesCtr, with its two refusals: a counter that would repeat, and a key the
      cipher does not take (which an empty input never reaches). */
  function Ctr(key: Key, counter: Block, bits: nat, data: Bytes): Option<Bytes> {
    var n := BlockCount(|data|);
    if bits < 64 && n > Pow2(bits) then None
    else
      match Ecb(Encrypt, key, CounterBlocks(counter, bits, n))
      case None => None
      case Some(stream) => if |data| <= |stream| then Some(XorBytes(data, stream)) else None
  }

  lemma {:induction false} CounterBlockValue(counter: Block, bits: nat, i: nat)
    requires bits <= 128
    ensures var v, m := Value(counter), Pow2(bits);
      Value(CounterBlock(counter, bits, i)) == v - v % m + (v % m + i) % m
  {
    hide *;
    var v, m := Value(counter), Pow2(bits);
    if i > 0 {
      CounterBlockValue(counter, bits, i - 1);
      CounterSteps(counter, bits, i);
      IncrementIsBump(CounterBlock(counter, bits, i - 1), bits);
      assert Value(CounterBlock(counter, bits, i)) == BumpMod(Counted(v, m, i - 1), m)
        by { CountedIs(v, m, i - 1); }
      BumpTimes(v, m, i);
      CountedIs(v, m, i);
    } else {
      CounterStarts(counter, bits);
      ModUnique(v % m, m, 0, v % m);
    }
  }

  lemma CounterSteps(counter: Block, bits: nat, i: nat)
    requires 0 < i
    ensures CounterBlock(counter, bits, i) == Increment(CounterBlock(counter, bits, i - 1), bits)
  {
    hide Increment;
  }

  lemma CounterStarts(counter: Block, bits: nat)
    ensures CounterBlock(counter, bits, 0) == counter
  {
  }

  ghost function Counted(v: nat, m: nat, i: nat): int
    requires 0 < m
  {
    v - v % m + (v % m + i) % m
  }

  lemma CountedIs(v: nat, m: nat, i: nat)
    requires 0 < m
    ensures Counted(v, m, i) == v - v % m + (v % m + i) % m
  {
  }

  lemma BumpTimes(v: nat, m: nat, i: nat)
    requires 0 < m && 0 < i
    ensures BumpMod(Counted(v, m, i - 1), m) == Counted(v, m, i)
  {
    hide *;
    CountedIs(v, m, i - 1);
    CountedIs(v, m, i);
    Division(v, m);
    BumpFrom(v - v % m, m, v / m, v % m, i);
  }

  lemma BumpFrom(base: int, m: nat, q: int, r: nat, i: nat)
    requires 0 < m && 0 < i && base == m * q && 0 <= base
    ensures BumpMod(base + (r + (i - 1)) % m, m) == base + (r + i) % m
  {
    hide *;
    var t := r + (i - 1);
    Division(t, m);
    BumpResidue(base + t % m, m, q, t % m);
    SameResidue(t + 1, t % m + 1, m, t / m);
  }

  lemma SameResidue(x: int, y: int, m: nat, k: int)
    requires 0 < m && x == y + m * k
    ensures x % m == y % m
  {
    ModAdd(y, m, k);
  }

  lemma BumpResidue(x: nat, m: nat, q: int, w: nat)
    requires 0 < m && x == m * q + w && w < m
    ensures BumpMod(x, m) == x - w + (w + 1) % m
  {
    ModUnique(x, m, q, w);
  }

  ghost predicate CountersDistinct(counter: Block, bits: nat, n: nat) {
    forall i, j :: 0 <= i < j < n ==> CounterBlock(counter, bits, i) != CounterBlock(counter, bits, j)
  }

  lemma DistinctWithinPeriod(counter: Block, bits: nat, i: nat, j: nat)
    requires bits <= 128 && i < j < Pow2(bits)
    ensures CounterBlock(counter, bits, i) != CounterBlock(counter, bits, j)
  {
    hide Value, CounterBlock, Pow2;
    var v, m := Value(counter), Pow2(bits);
    CounterBlockValue(counter, bits, i);
    CounterBlockValue(counter, bits, j);
    if (v % m + i) % m == (v % m + j) % m {
      var qi, qj := (v % m + i) / m, (v % m + j) / m;
      assert j - i == m * (qj - qi);
      MulBounds(m, qj - qi);
    }
  }

  lemma RepeatsAfterPeriod(counter: Block, bits: nat)
    requires bits <= 128
    ensures CounterBlock(counter, bits, Pow2(bits)) == counter
  {
    hide Value, CounterBlock, Pow2;
    var v, m := Value(counter), Pow2(bits);
    CounterBlockValue(counter, bits, m);
    ModAdd(v % m, m, 1);
    ModUnique(v % m, m, 0, v % m);
    ValueInjective(CounterBlock(counter, bits, m), counter);
  }

  /** aesCtr on n blocks, the last perhaps not whole, goes through exactly when no two of
      the n counter blocks coincide and, if there is a block, the key has a cipher.
      Lengths are size_t. */
  lemma CtrRefusesExactlyRepeats(key: Key, counter: Block, bits: nat, data: Bytes, n: nat)
    requires 1 <= bits <= 128 && |data| < Pow2(64) && 16 * n - 16 < |data| <= 16 * n
    ensures Ctr(key, counter, bits, data).Some?
       <==> CountersDistinct(counter, bits, n) && (key.usable || n == 0)
  {
    hide CounterBlock, CounterBlocks, Increment, EcbBlocks, Pow2;
    assert BlockCount(|data|) == n;
    if bits >= 64 { Pow2Monotone(64, bits); }
    if n <= Pow2(bits) {
      forall i, j | 0 <= i < j < n
        ensures CounterBlock(counter, bits, i) != CounterBlock(counter, bits, j)
      {
        DistinctWithinPeriod(counter, bits, i, j);
      }
    } else {
      RepeatsAfterPeriod(counter, bits);
      CounterBlock0(counter, bits);
      assert CounterBlock(counter, bits, 0) == CounterBlock(counter, bits, Pow2(bits));
    }
  }

  lemma CounterBlock0(counter: Block, bits: nat)
    ensures CounterBlock(counter, bits, 0) == counter
  {
  }

  /** Running aesCtr on its own output with the same counter gives the input back. */
  lemma CtrIsItsOwnInverse(key: Key, counter: Block, bits: nat, data: Bytes)
    requires Ctr(key, counter, bits, data).Some?
    ensures Ctr(key, counter, bits, Ctr(key, counter, bits, data).value) == Some(data)
  {
    var stream := Ecb(Encrypt, key, CounterBlocks(counter, bits, BlockCount(|data|))).value;
    XorBytesTwice(data, stream);
  }

  /** Byte k of the output is byte k of the input against byte k mod 16 of the
      enciphered counter block k / 16. */
  lemma CtrByte(key: Key, counter: Block, bits: nat, data: Bytes, k: nat)
    requires Ctr(key, counter, bits, data).Some? && k < |data|
    ensures |Ctr(key, counter, bits, data).value| == |data|
    ensures Ctr(key, counter, bits, data).value[k]
         == data[k] ^ key.encrypt(CounterBlock(counter, bits, k / 16))[k % 16]
  {
    hide CounterBlock, CounterBlocks, EcbBlocks, Pow2;
    var n, i := BlockCount(|data|), k / 16;
    var blocks := CounterBlocks(counter, bits, n);
    EcbBlocksAt(Encrypt, key, blocks, i);
    CounterBlocksAt(counter, bits, n, i);
    var stream := EcbBlocks(Encrypt, key, blocks);
    assert stream[k] == stream[16 * i..16 * i + 16][k % 16];
  }

  lemma {:induction false} CounterBlocksAt(counter: Block, bits: nat, n: nat, i: nat)
    requires i < n
    ensures CounterBlocks(counter, bits, n)[16 * i..16 * i + 16] == CounterBlock(counter, bits, i)
  {
    var init := CounterBlocks(counter, bits, n - 1);
    if i < n - 1 {
      CounterBlocksAt(counter, bits, n - 1, i);
      assert CounterBlocks(counter, bits, n)[16 * i..16 * i + 16] == init[16 * i..16 * i + 16];
    }
  }

  // ----- the in-place code -----

  /** One pass of the loop: the last byte is done, and the rest follows on a carry. */
  lemma IncrementPass(init: Bytes, last: bv8, bits: nat)
    requires bits > 0
    ensures var mask := Mask(if bits < 8 then bits else 8);
      Increment(init + [last], bits)
      == (if Low(last, mask) != 0 then init else Increment(init, if bits < 8 then 0 else bits - 8))
         + [NextByte(last, mask)]
  {
    hide Mask, Low, NextByte;
    Increment0(init);
    assert (init + [last])[..|init|] == init;
  }

  method CtrIncrement(block: array<bv8>, bits: nat)
    requires block.Length == 16
    modifies block
    ensures block[..] == Increment(old(block[..]), bits)
  {
    hide *;
    ghost var before := block[..];
    var rest := bits;
    ghost var done: Bytes := [];
    var i := 15;
    assert before[..16] == before && before + [] == before;
    while i >= 0 && rest > 0
      invariant -1 <= i <= 15
      invariant block[..] == before[..i + 1] + done
      invariant Increment(before, bits) == Increment(before[..i + 1], rest) + done
    {
      var here := if rest < 8 then rest else 8;
      var mask := Mask(here);
      var x := block[i];
      var low := Low(x, mask);
      ghost var init := before[..i];
      assert before[..i + 1] == init + [x];
      IncrementPass(init, x, rest);
      var y := NextByte(x, mask);
      ReplaceLast(before, i, done, y);
      Regroup(if low != 0 then init else Increment(init, rest - here), y, done);
      block[i] := y;
      done := [y] + done;
      if low != 0 { return; }
      rest := rest - here;
      i := i - 1;
    }
    IncrementNothing(before[..i + 1], rest);
  }

  lemma ReplaceLast(before: Bytes, i: nat, done: Bytes, y: bv8)
    requires i < |before|
    ensures (before[..i + 1] + done)[i := y] == before[..i] + ([y] + done)
  {
  }

  lemma Regroup(a: Bytes, y: bv8, tail: Bytes)
    ensures a + [y] + tail == a + ([y] + tail)
  {
  }

  lemma IncrementNothing(b: Bytes, bits: nat)
    requires b == [] || bits == 0
    ensures Increment(b, bits) == b
  {
  }

  method AesCtr(key: Key, counter: Block, bits: nat, data: Bytes) returns (out: Option<Bytes>)
    ensures out == Ctr(key, counter, bits, data)
  {
    var blocks := BlockCount(|data|);
    if bits < 64 && blocks > Pow2(bits) { return None; }
    var ctrBlocks: Bytes := [];
    var ctr := new bv8[16](i requires 0 <= i < 16 => counter[i]);
    assert ctr[..] == counter;
    for b := 0 to blocks
      invariant ctr[..] == CounterBlock(counter, bits, b)
      invariant ctrBlocks == CounterBlocks(counter, bits, b)
    {
      ctrBlocks := ctrBlocks + ctr[..];
      CtrIncrement(ctr, bits);
    }
    var stream := Ecb(Encrypt, key, ctrBlocks);
    if stream.None? { return None; }
    return Some(XorBytes(data, stream.value));
  }
}
