/** Byte strings as big-endian numbers. */
module Octets {
  import opened Arith
  import opened Common

  /** The low n bytes of t, most significant first. */
  function BigEndian(t: nat, n: nat): (r: Bytes)
    ensures |r| == n
  {
    if n == 0 then [] else BigEndian(t / 256, n - 1) + [(t % 256) as bv8]
  }

  /** A byte string read as one big-endian number. */
  function Value(b: Bytes): nat {
    if b == [] then 0 else 256 * Value(b[..|b| - 1]) + b[|b| - 1] as int
  }

  lemma {:induction false} ValueBounded(b: Bytes)
    ensures Value(b) < Pow2(8 * |b|)
  {
    if b != [] {
      ValueBounded(b[..|b| - 1]);
      Pow2Add(8, 8 * (|b| - 1));
      assert Pow2(8) == 256;
    }
  }

  lemma ByteInjective(x: bv8, y: bv8)
    requires x as int == y as int
    ensures x == y
  {
  }

  lemma {:induction false} ValueInjective(b: Bytes, c: Bytes)
    requires |b| == |c| && Value(b) == Value(c)
    ensures b == c
  {
    if b != [] {
      var n := |b| - 1;
      ModUnique(Value(b), 256, Value(b[..n]), b[n] as int);
      ModUnique(Value(c), 256, Value(c[..n]), c[n] as int);
      ValueInjective(b[..n], c[..n]);
      ByteInjective(b[n], c[n]);
      assert b == b[..n] + [b[n]] && c == c[..n] + [c[n]];
    }
  }

  lemma ValueSplit(b: Bytes, init: Bytes, last: bv8)
    requires b == init + [last]
    ensures Value(b) == 256 * Value(init) + last as int
  {
    assert b[..|b| - 1] == init;
  }

  lemma ByteOfInt(x: nat)
    requires x < 256
    ensures (x as bv8) as int == x
  {
    if x < 128 {
      if x < 64 {} else {}
    } else {
      if x < 192 {} else {}
    }
  }

  lemma {:induction false} ValueOfBigEndian(t: nat, n: nat)
    ensures Value(BigEndian(t, n)) == t % Pow2(8 * n)
  {
    hide Value, Pow2;
    if n == 0 {
      NothingLeft(t);
    } else {
      var p := Pow2(8 * (n - 1));
      ValueOfBigEndian(t / 256, n - 1);
      ByteOfInt(t % 256);
      ValueSplit(BigEndian(t, n), BigEndian(t / 256, n - 1), (t % 256) as bv8);
      Pow2Add(8, 8 * (n - 1));
      Pow2Of8();
      ModShift(t / 256, t % 256, p);
    }
  }

  lemma NothingLeft(t: nat)
    ensures Value([]) == t % Pow2(8 * 0)
  {
  }

  lemma Pow2Of8()
    ensures Pow2(8) == 256 && Pow2(0) == 1
  {
  }

  lemma Pow2Of64()
    ensures Pow2(32) == 0x1_0000_0000 && Pow2(64) == 0x1_0000_0000_0000_0000
  {
    hide Pow2;
    Pow2Of8();
    Pow2Add(8, 8);
    Pow2Add(16, 16);
    Pow2Add(32, 32);
  }

  /** Byte k of n is digit n - 1 - k to base 256. */
  lemma {:induction false} BigEndianAt(t: nat, n: nat, k: nat)
    requires k < n
    ensures BigEndian(t, n)[k] == (t / Pow2(8 * (n - 1 - k)) % 256) as bv8
  {
    hide Pow2;
    if k == n - 1 {
      Pow2Of8();
    } else {
      BigEndianAt(t / 256, n - 1, k);
      Pow2Add(8, 8 * (n - 2 - k));
      Pow2Of8();
      DivTwice(t, 256, Pow2(8 * (n - 2 - k)));
    }
  }

  lemma {:induction false} ValueOfConcat(a: Bytes, b: Bytes)
    ensures Value(a + b) == Value(a) * Pow2(8 * |b|) + Value(b)
  {
    hide Value, Pow2;
    if b == [] {
      assert a + b == a;
      NothingLeft(0);
      Pow2Of8();
    } else {
      var init, last := b[..|b| - 1], b[|b| - 1];
      ValueOfConcat(a, init);
      ValueSplit(b, init, last);
      ValueSplit(a + b, a + init, last);
      Pow2Add(8, 8 * (|b| - 1));
      Pow2Of8();
      Associate(256, Value(a), Pow2(8 * |init|));
    }
  }
}
