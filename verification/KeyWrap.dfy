/** AES Key Wrap (RFC 3394) with the default initial value, as aesKwWrap and
    aesKwUnwrap compute it, and the two directions of its inverse law.
 */
module KeyWrap {
  import opened Arith
  import opened BlockCipher
  import opened Common
  import opened Octets

  const KW_IV: Bytes := [0xA6, 0xA6, 0xA6, 0xA6, 0xA6, 0xA6, 0xA6, 0xA6]

  /** The integrity register A and the n 8-byte registers R[1..n], end to end. */
  datatype Registers = Registers(a: Bytes, r: Bytes) {
    predicate Valid(n: nat) { |a| == 8 && |r| == 8 * n }
  }

  function XorT(a: Bytes, t: nat): Bytes
    requires |a| == 8
  {
    XorBytes(a, BigEndian(t, 8))
  }

  function Slot(r: Bytes, i: nat): Bytes
    requires 8 * i + 8 <= |r|
  {
    r[8 * i..8 * i + 8]
  }

  function WithSlot(r: Bytes, i: nat, s: Bytes): (r': Bytes)
    requires 8 * i + 8 <= |r| && |s| == 8
    ensures |r'| == |r|
  {
    r[..8 * i] + s + r[8 * i + 8..]
  }

  /** The step number goes in whole: what it changes in the register, read as one
      big-endian number, is t itself. */
  lemma XorTIsNumber(a: Bytes, t: nat)
    requires |a| == 8 && t < 0x1_0000_0000_0000_0000
    ensures |XorT(a, t)| == 8 && Value(seq(8, k requires 0 <= k < 8 => a[k] ^ XorT(a, t)[k])) == t
  {
    hide Value, Pow2;
    var b := BigEndian(t, 8);
    forall k | 0 <= k < 8
      ensures a[k] ^ XorT(a, t)[k] == b[k]
    {
      XorBack(a[k], b[k]);
    }
    assert seq(8, k requires 0 <= k < 8 => a[k] ^ XorT(a, t)[k]) == b;
    ValueOfBigEndian(t, 8);
    Pow2Of64();
  }

  lemma XorBack(x: bv8, y: bv8)
    ensures x ^ (x ^ y) == y
  {
  }

  lemma SlotOfWithSlot(r: Bytes, i: nat, s: Bytes, s': Bytes)
    requires 8 * i + 8 <= |r| && |s| == 8 == |s'|
    ensures Slot(WithSlot(r, i, s), i) == s
    ensures WithSlot(WithSlot(r, i, s), i, s') == WithSlot(r, i, s')
    ensures WithSlot(r, i, Slot(r, i)) == r
  {
  }

  lemma SlotInRange(n: nat, t: nat)
    requires 0 < n && 0 < t
    ensures 0 <= (t - 1) % n < n
  {
  }

  /** Step t (counted from 1) of the index form, section 2.2.1 of RFC 3394. */
  function WrapStep(key: Key, n: nat, t: nat, st: Registers): (st': Registers)
    requires 0 < n && 0 < t && st.Valid(n)
    ensures st'.Valid(n)
  {
    SlotInRange(n, t);
    var i := (t - 1) % n;
    var o := key.encrypt(st.a + Slot(st.r, i));
    Registers(XorT(o[..8], t), WithSlot(st.r, i, o[8..]))
  }

  /** Step t undone, section 2.2.2. */
  function UnwrapStep(key: Key, n: nat, t: nat, st: Registers): (st': Registers)
    requires 0 < n && 0 < t && st.Valid(n)
    ensures st'.Valid(n)
  {
    SlotInRange(n, t);
    var i := (t - 1) % n;
    var o := key.decrypt(XorT(st.a, t) + Slot(st.r, i));
    Registers(o[..8], WithSlot(st.r, i, o[8..]))
  }

  function WrapRun(key: Key, n: nat, t: nat, st: Registers): (st': Registers)
    requires 0 < n && st.Valid(n)
    ensures st'.Valid(n)
  {
    if t == 0 then st else WrapStep(key, n, t, WrapRun(key, n, t - 1, st))
  }

  function UnwrapRun(key: Key, n: nat, t: nat, st: Registers): (st': Registers)
    requires 0 < n && st.Valid(n)
    ensures st'.Valid(n)
  {
    if t == 0 then st else UnwrapRun(key, n, t - 1, UnwrapStep(key, n, t, st))
  }

  function Wrap(key: Key, plain: Bytes): Option<Bytes> {
    if |plain| < 16 || |plain| % 8 != 0 || !key.usable then None
    else
      var n := |plain| / 8;
      var st := WrapRun(key, n, 6 * n, Registers(KW_IV, plain));
      Some(st.a + st.r)
  }

  function Unwrap(key: Key, wrapped: Bytes): Option<Bytes> {
    if |wrapped| < 24 || |wrapped| % 8 != 0 || !key.usable then None
    else
      var n := |wrapped| / 8 - 1;
      var st := UnwrapRun(key, n, 6 * n, Registers(wrapped[..8], wrapped[8..]));
      if st.a == KW_IV then Some(st.r) else None
  }

  // ----- the inverse laws -----

  lemma StepsCancel(key: Key, n: nat, t: nat, st: Registers)
    requires IsPermutation(key) && 0 < n && 0 < t && st.Valid(n)
    ensures UnwrapStep(key, n, t, WrapStep(key, n, t, st)) == st
    ensures WrapStep(key, n, t, UnwrapStep(key, n, t, st)) == st
  {
    SlotInRange(n, t);
    var i := (t - 1) % n;
    var b := st.a + Slot(st.r, i);
    var o := key.encrypt(b);
    SlotOfWithSlot(st.r, i, o[8..], b[8..]);
    XorBytesTwice(o[..8], BigEndian(t, 8));
    assert o[..8] + o[8..] == o && b[..8] == st.a && b[8..] == Slot(st.r, i);

    var b' := XorT(st.a, t) + Slot(st.r, i);
    var o' := key.decrypt(b');
    SlotOfWithSlot(st.r, i, o'[8..], b'[8..]);
    XorBytesTwice(st.a, BigEndian(t, 8));
    assert o'[..8] + o'[8..] == o' && b'[..8] == XorT(st.a, t) && b'[8..] == Slot(st.r, i);
  }

  lemma {:induction false} RunsCancel(key: Key, n: nat, t: nat, st: Registers)
    requires IsPermutation(key) && 0 < n && st.Valid(n)
    ensures UnwrapRun(key, n, t, WrapRun(key, n, t, st)) == st
    ensures WrapRun(key, n, t, UnwrapRun(key, n, t, st)) == st
  {
    hide WrapStep, UnwrapStep, IsPermutation;
    if t > 0 {
      StepsCancel(key, n, t, WrapRun(key, n, t - 1, st));
      RunsCancel(key, n, t - 1, st);
      var un := UnwrapStep(key, n, t, st);
      RunsCancel(key, n, t - 1, un);
      StepsCancel(key, n, t, st);
    }
  }

  /** Key data of 16 bytes or more in multiples of 8 is wrapped, and unwrapping gives
      it back. */
  lemma UnwrapOfWrap(key: Key, plain: Bytes)
    requires IsPermutation(key) && key.usable && |plain| >= 16 && |plain| % 8 == 0
    ensures Wrap(key, plain).Some?
    ensures Unwrap(key, Wrap(key, plain).value) == Some(plain)
  {
    hide WrapRun, UnwrapRun, IsPermutation;
    var n := |plain| / 8;
    var st := WrapRun(key, n, 6 * n, Registers(KW_IV, plain));
    RunsCancel(key, n, 6 * n, Registers(KW_IV, plain));
    var w := st.a + st.r;
    assert w[..8] == st.a && w[8..] == st.r;
  }

  /** Unwrapping accepts only what wrapping its own answer produces. */
  lemma WrapOfUnwrap(key: Key, wrapped: Bytes)
    requires IsPermutation(key) && Unwrap(key, wrapped).Some?
    ensures Wrap(key, Unwrap(key, wrapped).value) == Some(wrapped)
  {
    hide WrapRun, UnwrapRun, IsPermutation;
    var n := |wrapped| / 8 - 1;
    var st0 := Registers(wrapped[..8], wrapped[8..]);
    RunsCancel(key, n, 6 * n, st0);
    assert wrapped[..8] + wrapped[8..] == wrapped;
  }

  /** Unwrap accepts exactly the image of wrap, and wrap is injective on it. */
  lemma UnwrapAcceptsTheImage(key: Key, wrapped: Bytes)
    requires IsPermutation(key)
    ensures Unwrap(key, wrapped).Some? <==> exists p :: Wrap(key, p) == Some(wrapped)
    ensures forall p, q :: Wrap(key, p) == Some(wrapped) && Wrap(key, q) == Some(wrapped) ==> p == q
  {
    if Unwrap(key, wrapped).Some? {
      WrapOfUnwrap(key, wrapped);
    }
    forall p | Wrap(key, p) == Some(wrapped)
      ensures Unwrap(key, wrapped) == Some(p)
    {
      UnwrapOfWrap(key, p);
    }
  }

  // ----- the shift-register form of section 2.2.1, as an independent reference -----

  /** Digit j of t to base 256. */
  function Digit(t: nat, j: nat): bv8 { (t / Pow2(8 * j) % 256) as bv8 }

  /** A[t] is the high half of the cipher output, each byte against its digit of t;
      R[t][i] = R[t-1][i+1] for i < n and R[t][n] is the low half; the register at the
      front is the one each step enciphers. */
  function ShiftStep(key: Key, n: nat, t: nat, st: Registers): (st': Registers)
    requires 0 < n && st.Valid(n)
    ensures st'.Valid(n)
  {
    var o := key.encrypt(st.a + st.r[..8]);
    Registers(seq(8, k requires 0 <= k < 8 => o[k] ^ Digit(t, 7 - k)), st.r[8..] + o[8..])
  }

  lemma XorTIsDigits(o: Block, t: nat)
    ensures XorT(o[..8], t) == seq(8, k requires 0 <= k < 8 => o[k] ^ Digit(t, 7 - k))
  {
    hide Pow2, BigEndian;
    forall k | 0 <= k < 8
      ensures XorT(o[..8], t)[k] == o[k] ^ Digit(t, 7 - k)
    {
      BigEndianAt(t, 8, k);
    }
  }

  function ShiftRun(key: Key, n: nat, t: nat, st: Registers): (st': Registers)
    requires 0 < n && st.Valid(n)
    ensures st'.Valid(n)
  {
    if t == 0 then st else ShiftStep(key, n, t, ShiftRun(key, n, t - 1, st))
  }

  /** The registers with slot k brought to the front. */
  function Rotated(st: Registers, k: nat): Registers
    requires 8 * k <= |st.r|
  {
    Registers(st.a, st.r[8 * k..] + st.r[..8 * k])
  }

  lemma ShiftStepIsWrapStep(key: Key, n: nat, t: nat, k: nat, st: Registers)
    requires 0 < n && 0 < t && st.Valid(n) && k == (t - 1) % n
    ensures 8 * k + 8 <= |st.r|
    ensures ShiftStep(key, n, t, Rotated(st, k))
         == Rotated(WrapStep(key, n, t, st), if k + 1 == n then 0 else k + 1)
  {
    hide XorT, Digit, WrapStep, ShiftStep, WithSlot;
    SlotInRange(n, t);
    SlotFits(n, k);
    var o := key.encrypt(st.a + Slot(st.r, k));
    XorTIsDigits(o, t);
    RotatedSlot(st, n, k, o[8..]);
    RotatedBack(Registers(XorT(o[..8], t), WithSlot(st.r, k, o[8..])));
    WrapStepIs(key, n, t, st);
    ShiftStepIs(key, n, t, Rotated(st, k));
  }

  lemma SlotFits(n: nat, k: nat)
    requires k < n
    ensures 8 * k + 8 <= 8 * n
  {
  }

  lemma WrapStepIs(key: Key, n: nat, t: nat, st: Registers)
    requires 0 < n && 0 < t && st.Valid(n)
    ensures var i := (t - 1) % n;
      && 0 <= i && 8 * i + 8 <= |st.r|
      && var o := key.encrypt(st.a + Slot(st.r, i));
         WrapStep(key, n, t, st) == Registers(XorT(o[..8], t), WithSlot(st.r, i, o[8..]))
  {
    hide XorT, WithSlot;
    SlotInRange(n, t);
  }

  lemma ShiftStepIs(key: Key, n: nat, t: nat, st: Registers)
    requires 0 < n && st.Valid(n)
    ensures var o := key.encrypt(st.a + st.r[..8]);
      ShiftStep(key, n, t, st) == Registers(seq(8, k requires 0 <= k < 8 => o[k] ^ Digit(t, 7 - k)), st.r[8..] + o[8..])
  {
    hide Digit;
  }

  /** The front slot replaced and moved to the end. */
  lemma RotatedSlot(st: Registers, n: nat, k: nat, low: Bytes)
    requires st.Valid(n) && k < n && |low| == 8 && 8 * k + 8 <= |st.r|
    ensures var rot, w := Rotated(st, k), WithSlot(st.r, k, low);
      && rot.Valid(n) && rot.a == st.a && rot.r[..8] == Slot(st.r, k)
      && (rot.r[8..] + low == if k + 1 == n then w else w[8 * (k + 1)..] + w[..8 * (k + 1)])
  {
    RotatedBytes(st.r, 8 * k, low);
    if k + 1 == n { assert st.r[8 * k + 8..] == []; }
  }

  lemma RotatedBytes(r: Bytes, i: nat, low: Bytes)
    requires i + 8 <= |r| && |low| == 8
    ensures var rot, w := r[i..] + r[..i], r[..i] + low + r[i + 8..];
      && |rot| == |r| && rot[..8] == r[i..i + 8]
      && rot[8..] + low == w[i + 8..] + w[..i + 8]
      && (i + 8 == |r| ==> w[i + 8..] + w[..i + 8] == w)
  {
    var w := r[..i] + low + r[i + 8..];
    assert w[i + 8..] == r[i + 8..];
    assert w[..i + 8] == r[..i] + low;
    assert (r[i..] + r[..i])[8..] == r[i + 8..] + r[..i];
  }

  lemma ModStep(t: nat, n: nat)
    requires 0 < n && 0 < t
    ensures t % n == if (t - 1) % n + 1 == n then 0 else (t - 1) % n + 1
  {
    var q, k := (t - 1) / n, (t - 1) % n;
    assert t - 1 == n * q + k;
    if k + 1 == n {
      assert t == n * (q + 1) + 0;
      ModUnique(t, n, q + 1, 0);
    } else {
      ModUnique(t, n, q, k + 1);
    }
  }

  lemma {:induction false} ShiftRunIsWrapRun(key: Key, n: nat, t: nat, st: Registers)
    requires 0 < n && st.Valid(n)
    ensures t % n < n && ShiftRun(key, n, t, st) == Rotated(WrapRun(key, n, t, st), t % n)
  {
    hide WrapStep, ShiftStep;
    if t == 0 {
      assert st.r[0..] + st.r[..0] == st.r;
    } else {
      ShiftRunIsWrapRun(key, n, t - 1, st);
      ShiftStepIsWrapStep(key, n, t, (t - 1) % n, WrapRun(key, n, t - 1, st));
      ModStep(t, n);
    }
  }

  /** Wrapping is 6n steps of the shift-register form of the RFC from its initial value,
      and refuses exactly short or ragged key data and keys there is no cipher for. */
  lemma WrapIsShiftForm(key: Key, plain: Bytes)
    ensures Wrap(key, plain) ==
            if |plain| < 16 || |plain| % 8 != 0 || !key.usable then None
            else
              var n := |plain| / 8;
              var st := ShiftRun(key, n, 6 * n, Registers([0xA6, 0xA6, 0xA6, 0xA6, 0xA6, 0xA6, 0xA6, 0xA6], plain));
              Some(st.a + st.r)
  {
    hide WrapRun, ShiftRun, Rotated;
    if |plain| >= 16 && |plain| % 8 == 0 {
      var n := |plain| / 8;
      var st := Registers(KW_IV, plain);
      ShiftRunIsWrapRun(key, n, 6 * n, st);
      ModUnique(6 * n, n, 6, 0);
      RotatedBack(WrapRun(key, n, 6 * n, st));
    }
  }

  lemma RotatedBack(st: Registers)
    ensures Rotated(st, 0) == st
  {
    assert st.r[0..] + st.r[..0] == st.r;
  }

  // ----- the in-place code -----

  /** xorT: the loop takes t apart from its low byte up. */
  method XorTInPlace(a: array<bv8>, t: nat)
    requires a.Length == 8
    modifies a
    ensures a[..] == XorT(old(a[..]), t)
  {
    hide BigEndian;
    var rest := t;
    ghost var done: Bytes := [];
    for k := 8 downto 0
      invariant |done| == 8 - k
      invariant BigEndian(t, 8) == BigEndian(rest, k) + done
      invariant forall j :: 0 <= j < k ==> a[j] == old(a[j])
      invariant forall j :: k <= j < 8 ==> a[j] == old(a[j]) ^ done[j - k]
    {
      var low := (rest % 256) as bv8;
      LowByteFirst(rest, k + 1, done);
      a[k] := a[k] ^ low;
      done := [low] + done;
      rest := rest / 256;
    }
    BigEndianNothing(rest);
    assert BigEndian(t, 8) == done;
  }

  lemma BigEndianNothing(t: nat)
    ensures BigEndian(t, 0) == []
  {
  }

  lemma LowByteFirst(t: nat, n: nat, tail: Bytes)
    requires 0 < n
    ensures BigEndian(t, n) + tail == BigEndian(t / 256, n - 1) + ([(t % 256) as bv8] + tail)
  {
    var head, low := BigEndian(t / 256, n - 1), [(t % 256) as bv8];
    assert (head + low) + tail == head + (low + tail);
  }

  /** memcpy of 8 bytes. */
  method CopyInto(dst: array<bv8>, at: nat, src: Bytes)
    requires |src| == 8 && at + 8 <= dst.Length
    modifies dst
    ensures dst[..] == old(dst[..at]) + src + old(dst[at + 8..])
  {
    forall k | 0 <= k < 8 { dst[at + k] := src[k]; }
  }

  /** The body of the wrap loops at step t = n*j + i. */
  method WrapBody(kek: Key, n: nat, t: nat, i: nat, a: array<bv8>, r: array<bv8>)
    requires 1 <= i <= n && 1 <= t && (t - 1) % n == i - 1
    requires a != r && a.Length == 8 && r.Length == 8 * n
    modifies a, r
    ensures Registers(a[..], r[..]) == WrapStep(kek, n, t, old(Registers(a[..], r[..])))
  {
    hide XorT;
    var lo := (i - 1) * 8;
    var o := kek.encrypt(a[..] + r[lo..lo + 8]);
    CopyInto(a, 0, o[..8]);
    assert a[..] == o[..8];
    XorTInPlace(a, t);
    CopyInto(r, lo, o[8..]);
  }

  lemma StepNumber(n: nat, j: nat, i: nat)
    requires 1 <= i <= n
    ensures (n * j + i - 1) % n == i - 1
    ensures n * j + i >= 1
  {
    ModUnique(n * j + i - 1, n, j, i - 1);
  }

  /** The body of the unwrap loops at step t. */
  method UnwrapBody(kek: Key, n: nat, t: nat, i: nat, a: array<bv8>, r: array<bv8>)
    requires 1 <= i <= n && 1 <= t && (t - 1) % n == i - 1
    requires a != r && a.Length == 8 && r.Length == 8 * n
    modifies a, r
    ensures Registers(a[..], r[..]) == UnwrapStep(kek, n, t, old(Registers(a[..], r[..])))
  {
    hide XorT;
    XorTInPlace(a, t);
    var lo := (i - 1) * 8;
    var o := kek.decrypt(a[..] + r[lo..lo + 8]);
    CopyInto(a, 0, o[..8]);
    CopyInto(r, lo, o[8..]);
  }

  method AesKwWrap(kek: Key, plain: Bytes) returns (out: Option<Bytes>)
    ensures out == Wrap(kek, plain)
  {
    hide WrapStep, Wrap;
    if |plain| < 16 || |plain| % 8 != 0 { WrapCases(kek, plain); return None; }
    var n := |plain| / 8;
    var a := new bv8[8](_ => 0xA6);
    var r := new bv8[8 * n](i requires 0 <= i < 8 * n => plain[i]);
    ghost var st := Registers(KW_IV, plain);
    assert a[..] == KW_IV && r[..] == plain;
    for j := 0 to 6
      invariant j > 0 ==> kek.usable
      invariant Registers(a[..], r[..]) == WrapRun(kek, n, n * j, st)
    {
      for i := 1 to n + 1
        invariant j > 0 || i > 1 ==> kek.usable
        invariant 0 <= n * j + i - 1
        invariant Registers(a[..], r[..]) == WrapRun(kek, n, n * j + i - 1, st)
      {
        if !kek.usable { WrapCases(kek, plain); return None; }
        StepNumber(n, j, i);
        WrapBody(kek, n, n * j + i, i, a, r);
      }
      NextRound(n, j);
    }
    WrapCases(kek, plain);
    return Some(a[..] + r[..]);
  }

  lemma NextRound(n: nat, j: nat)
    ensures n * j + (n + 1) - 1 == n * (j + 1)
  {
  }

  lemma WrapCases(key: Key, plain: Bytes)
    ensures |plain| < 16 || |plain| % 8 != 0 || !key.usable ==> Wrap(key, plain).None?
    ensures |plain| >= 16 && |plain| % 8 == 0 && key.usable ==>
      var n := |plain| / 8;
      var st := WrapRun(key, n, 6 * n, Registers(KW_IV, plain));
      Wrap(key, plain) == Some(st.a + st.r)
  {
  }

  lemma UnwrapCases(key: Key, wrapped: Bytes)
    ensures |wrapped| < 24 || |wrapped| % 8 != 0 || !key.usable ==> Unwrap(key, wrapped).None?
    ensures |wrapped| >= 24 && |wrapped| % 8 == 0 && key.usable ==>
      var n := |wrapped| / 8 - 1;
      var st := UnwrapRun(key, n, 6 * n, Registers(wrapped[..8], wrapped[8..]));
      Unwrap(key, wrapped) == if st.a == KW_IV then Some(st.r) else None
  {
  }

  method AesKwUnwrap(kek: Key, wrapped: Bytes) returns (out: Option<Bytes>)
    ensures out == Unwrap(kek, wrapped)
  {
    hide UnwrapStep, Unwrap;
    UnwrapCases(kek, wrapped);
    if |wrapped| < 24 || |wrapped| % 8 != 0 { return None; }
    var n := |wrapped| / 8 - 1;
    var a := new bv8[8](i requires 0 <= i < 8 => wrapped[i]);
    var r := new bv8[8 * n](i requires 0 <= i < 8 * n => wrapped[8 + i]);
    ghost var st := Registers(wrapped[..8], wrapped[8..]);
    assert a[..] == st.a && r[..] == st.r;
    ghost var final := UnwrapRun(kek, n, 6 * n, st);
    for j := 6 downto 0
      invariant j < 6 ==> kek.usable
      invariant UnwrapRun(kek, n, n * j, Registers(a[..], r[..])) == final
    {
      NextRound(n, j);
      for i := n downto 0
        invariant j < 5 || i < n ==> kek.usable
        invariant UnwrapRun(kek, n, n * j + i, Registers(a[..], r[..])) == final
      {
        if !kek.usable { return None; }
        StepNumber(n, j, i + 1);
        UnwrapBody(kek, n, n * j + i + 1, i + 1, a, r);
      }
    }
    var diff := Difference(a[..], KW_IV);
    return if diff != 0 then None else Some(r[..]);
  }
}
