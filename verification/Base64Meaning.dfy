/** What base64 text means, with the alphabets written out: a number to base 64 beside the
    bytes' number to base 256, and what atob passes over and refuses.
 */
module Base64Meaning {
  import opened Arith
  import opened Common
  import opened Octets
  import opened Utf8
  import opened Base64
  import opened Base64Laws

  function Digits(url: bool): (s: string)
    ensures |s| == 64
  {
    "ABCDEFGHIJKLMNOPQRSTUVWXYZ" + "abcdefghijklmnopqrstuvwxyz" + "0123456789" + if url then "-_" else "+/"
  }

  // ----- characters -----

  lemma AlphaIsDigit(url: bool, v: Sextet)
    ensures Alpha(url, v) == Digits(url)[v]
  {
    if v < 26 {
      UpperCase(v);
    } else if v < 52 {
      LowerCase(v - 26);
    }
  }

  lemma UpperCase(v: Sextet)
    requires v < 26
    ensures "ABCDEFGHIJKLMNOPQRSTUVWXYZ"[v] == 'A' + v as char
  {
  }

  lemma LowerCase(v: Sextet)
    requires v < 26
    ensures "abcdefghijklmnopqrstuvwxyz"[v] == 'a' + v as char
  {
  }

  lemma DigitsDecode(url: bool, v: Sextet)
    ensures DecodeChar(url, Digits(url)[v]) == v
  {
    hide Digits;
    AlphaIsDigit(url, v);
    DecodeOfAlpha(url, v);
  }

  lemma DigitOrNot(url: bool, c: char)
    ensures DecodeChar(url, c) >= 0 <==> c in Digits(url)
    ensures DecodeChar(url, c) >= 0 ==> DecodeChar(url, c) < 64 && Digits(url)[DecodeChar(url, c)] == c
  {
    hide Digits, DecodeChar, Alpha;
    if DecodeChar(url, c) >= 0 {
      AlphaOfDecode(url, c);
      AlphaIsDigit(url, DecodeChar(url, c));
    }
    if c in Digits(url) {
      var v :| 0 <= v < 64 && Digits(url)[v] == c;
      DigitsDecode(url, v);
    }
  }

  // ----- numbers -----

  /** Digits to base 64, the first one the highest. */
  function Number(v: seq<Sextet>): nat {
    if v == [] then 0 else 64 * Number(v[..|v| - 1]) + v[|v| - 1]
  }

  lemma {:induction false} NumberOfConcat(a: seq<Sextet>, b: seq<Sextet>)
    ensures Number(a + b) == Number(a) * Pow2(6 * |b|) + Number(b)
  {
    hide Pow2;
    if b == [] {
      assert a + b == a && Pow2(0) == 1 by { Pow2Of8(); }
    } else {
      var init, last := b[..|b| - 1], b[|b| - 1];
      NumberOfConcat(a, init);
      assert (a + b)[..|a + b| - 1] == a + init && (a + b)[|a + b| - 1] == last;
      Pow2Add(6, 6 * |init|);
      Pow2Of6();
      Associate(64, Number(a), Pow2(6 * |init|));
    }
  }

  lemma Pow2Of6()
    ensures Pow2(6) == 64 && Pow2(4) == 16 && Pow2(2) == 4
  {
    assert Pow2(1) == 2 * Pow2(0);
  }

  lemma FourDigits(p: Sextet, q: Sextet, r: Sextet, t: Sextet)
    ensures Number([]) == 0 && Number([p, q]) == p * 64 + q
    ensures Number([p, q, r]) == p * 4096 + q * 64 + r
    ensures Number([p, q, r, t]) == p * 262144 + q * 4096 + r * 64 + t
  {
    assert [p][..0] == [];
    assert Number([p]) == p;
    assert [p, q][..1] == [p];
    assert Number([p, q]) == p * 64 + q;
    assert [p, q, r][..2] == [p, q];
    assert Number([p, q, r]) == p * 4096 + q * 64 + r;
    assert [p, q, r, t][..3] == [p, q, r];
  }

  lemma ThreeBytes(x: bv8, y: bv8, z: bv8)
    ensures Value([x, y, z]) == Int(x) * 65536 + Int(y) * 256 + Int(z)
    ensures Value([x, y]) == Int(x) * 256 + Int(y) && Value([x]) == Int(x) && Value([]) == 0
  {
    assert [x, y, z][..2] == [x, y] && [x, y][..1] == [x] && [x][..0] == [];
    assert Value([x]) == Int(x);
  }

  /** The bits behind the last byte that fill its last digit, as a factor. */
  function Filling(n: nat): nat { if n % 3 == 0 then 1 else if n % 3 == 1 then 16 else 4 }

  lemma FillingIs(n: nat)
    ensures Pow2(6 * ((4 * n + 2) / 3)) == Pow2(8 * n) * Filling(n)
  {
    hide Pow2;
    Pow2Of6();
    Pow2Of8();
    if n % 3 == 0 {
      assert 6 * ((4 * n + 2) / 3) == 8 * n;
    } else if n % 3 == 1 {
      assert 6 * ((4 * n + 2) / 3) == 8 * n + 4;
      Pow2Add(8 * n, 4);
    } else {
      assert 6 * ((4 * n + 2) / 3) == 8 * n + 2;
      Pow2Add(8 * n, 2);
    }
  }

  lemma QuadNumber(x: bv8, y: bv8, z: bv8)
    ensures Number(Quad(Int(x), Int(y), Int(z))) == Value([x, y, z])
  {
    hide Value, Number;
    var q := Quad(Int(x), Int(y), Int(z));
    FourDigits(q[0], q[1], q[2], q[3]);
    ThreeBytes(x, y, z);
    QuadInts(Int(x), Int(y), Int(z));
  }

  lemma QuadInts(x: nat, y: nat, z: nat)
    requires x < 256 && y < 256 && z < 256
    ensures x / 4 * 262144 + (x % 4 * 16 + y / 16) * 4096 + (y % 16 * 4 + z / 64) * 64 + z % 64
         == x * 65536 + y * 256 + z
  {
    Wholes(x, y, z);
  }

  /** The sextets' number is the bytes', with the filling. */
  lemma {:induction false} SextetsNumber(b: Bytes)
    ensures Number(Sextets(b)) == Value(b) * Filling(|b|)
    decreases |b|
  {
    hide *;
    SextetsSplit(b);
    if b == [] {
      FourDigits(0, 0, 0, 0);
      ThreeBytes(0, 0, 0);
      FillingPeriod(0);
    } else if |b| < 3 {
      ShortNumber(b);
    } else {
      var head, rest := b[..3], b[3..];
      assert b == head + rest && head == [b[0], b[1], b[2]];
      SextetsNumber(rest);
      QuadNumber(b[0], b[1], b[2]);
      FillingPeriod(|rest|);
      Joined(Quad(Int(b[0]), Int(b[1]), Int(b[2])), Sextets(rest), head, rest);
    }
  }

  lemma FillingPeriod(n: nat)
    ensures Filling(n + 3) == Filling(n)
  {
  }

  lemma SextetsSplit(b: Bytes)
    ensures b == [] ==> Sextets(b) == []
    ensures |b| >= 3 ==> Sextets(b) == Quad(Int(b[0]), Int(b[1]), Int(b[2])) + Sextets(b[3..])
  {
    hide Quad, Int;
  }

  lemma Joined(q: seq<Sextet>, v: seq<Sextet>, head: Bytes, rest: Bytes)
    requires Number(q) == Value(head) && Number(v) == Value(rest) * Filling(|rest|) && |v| == (4 * |rest| + 2) / 3
    ensures Number(q + v) == Value(head + rest) * Filling(|rest|)
  {
    hide *;
    NumberOfConcat(q, v);
    ValueOfConcat(head, rest);
    FillingIs(|rest|);
    Distribute(Value(head), Pow2(8 * |rest|), Value(rest), Filling(|rest|));
  }

  lemma Distribute(a: nat, p: nat, r: nat, f: nat)
    ensures a * (p * f) + r * f == (a * p + r) * f
  {
    Associate(p, a, f);
    assert a * p * f == a * (p * f);
  }

  lemma ShortNumber(b: Bytes)
    requires 1 <= |b| < 3
    ensures Number(Sextets(b)) == Value(b) * Filling(|b|)
  {
    hide Value, Number, Int;
    if |b| == 1 {
      assert b == [b[0]];
      OneNumber(b[0]);
    } else {
      assert b == [b[0], b[1]];
      TwoNumber(b[0], b[1]);
    }
  }

  lemma OneNumber(b0: bv8)
    ensures Number([Int(b0) / 4, Int(b0) % 4 * 16]) == Value([b0]) * 16
  {
    hide *;
    var x := Int(b0);
    FourDigits(x / 4, x % 4 * 16, 0, 0);
    ThreeBytes(b0, 0, 0);
    Wholes(x, 0, 0);
  }

  lemma TwoNumber(b0: bv8, b1: bv8)
    ensures Number([Int(b0) / 4, Int(b0) % 4 * 16 + Int(b1) / 16, Int(b1) % 16 * 4]) == Value([b0, b1]) * 4
  {
    hide *;
    var x, y := Int(b0), Int(b1);
    FourDigits(x / 4, x % 4 * 16 + y / 16, y % 16 * 4, 0);
    ThreeBytes(b0, b1, 0);
    Wholes(x, y, 0);
  }

  /** Base64 text is the digits of the bytes' number, the last filled with zero bits, and
      '=' up to whole groups of four if it is padded. */
  lemma EncodedIsNumber(url: bool, padded: bool, b: Bytes) returns (v: seq<Sextet>)
    ensures |v| == (4 * |b| + 2) / 3
    ensures Number(v) == Value(b) * if |b| % 3 == 0 then 1 else if |b| % 3 == 1 then 16 else 4
    ensures var s := Encoded(url, padded, b);
      && |s| == (if padded then (|b| + 2) / 3 * 4 else |v|)
      && (forall i :: 0 <= i < |v| ==> s[i] == Digits(url)[v[i]])
      && (forall i :: |v| <= i < |s| ==> s[i] == '=')
  {
    hide Value, Number, Digits, Sextets, Alpha;
    v := Sextets(b);
    SextetsNumber(b);
    PadIs(|b|);
    forall i | 0 <= i < |v|
      ensures Alpha(url, v[i]) == Digits(url)[v[i]]
    {
      AlphaIsDigit(url, v[i]);
    }
  }

  lemma PadIs(n: nat)
    ensures |Pad(n)| == (n + 2) / 3 * 4 - (4 * n + 2) / 3 && forall i :: 0 <= i < |Pad(n)| ==> Pad(n)[i] == '='
  {
    var q, r := n / 3, n % 3;
    assert n == 3 * q + r;
    assert (n + 2) / 3 == q + (if r == 0 then 0 else 1);
    assert (4 * n + 2) / 3 == 4 * q + (if r == 0 then 0 else r + 1);
  }

  // ----- decoding -----

  /** The bits of the last digit that fill no byte, as a factor. */
  function Spilling(n: nat): nat { if n % 4 == 2 then 16 else if n % 4 == 3 then 4 else 1 }

  lemma SpillingIs(n: nat)
    requires n % 4 != 1
    ensures Pow2(6 * n) == Pow2(8 * (6 * n / 8)) * Spilling(n)
  {
    hide Pow2;
    Pow2Of6();
    Pow2Of8();
    var q := n / 4;
    if n % 4 == 0 {
      assert 6 * n == 8 * (6 * n / 8);
    } else if n % 4 == 2 {
      assert 6 * n == 8 * (6 * n / 8) + 4;
      Pow2Add(8 * (6 * n / 8), 4);
    } else {
      assert 6 * n == 8 * (6 * n / 8) + 2;
      Pow2Add(8 * (6 * n / 8), 2);
    }
  }

  lemma ByteOfInts(v: seq<Sextet>, k: nat)
    requires 1 <= k <= 3 && k < |v|
    ensures Int(ByteOf(v, k)) == NextByte(v[k - 1], v[k], k)
  {
    IntOfOctet(NextByte(v[k - 1], v[k], k));
  }

  lemma FourNumber(v: seq<Sextet>)
    requires |v| >= 4
    ensures Number(v[..4]) == Value([ByteOf(v, 1), ByteOf(v, 2), ByteOf(v, 3)])
  {
    hide Value, Number, ByteOf;
    ByteOfInts(v, 1);
    ByteOfInts(v, 2);
    ByteOfInts(v, 3);
    assert v[..4] == [v[0], v[1], v[2], v[3]];
    FourDigits(v[0], v[1], v[2], v[3]);
    ThreeBytes(ByteOf(v, 1), ByteOf(v, 2), ByteOf(v, 3));
    FourSplit(v[0], v[1], v[2], v[3]);
  }

  lemma FourSplit(p: Sextet, q: Sextet, r: Sextet, t: Sextet)
    ensures (p * 4 + q / 16) * 65536 + (q % 16 * 16 + r / 4) * 256 + (r % 4 * 64 + t)
         == p * 262144 + q * 4096 + r * 64 + t
  {
    assert q / 16 * 16 + q % 16 == q && r / 4 * 4 + r % 4 == r;
  }

  /** Unpacking gives the bytes of the number the digits make, less the bits that fill none. */
  lemma {:induction false} UnpackNumber(v: seq<Sextet>)
    requires |v| % 4 != 1
    ensures |Unpack(v)| == 6 * |v| / 8 && Value(Unpack(v)) == Number(v) / Spilling(|v|)
    decreases |v|
  {
    hide Value, Number, Pow2, ByteOf;
    if |v| >= 4 {
      var rest := v[4..];
      UnpackNumber(rest);
      FourNumber(v);
      var three: Bytes := [ByteOf(v, 1), ByteOf(v, 2), ByteOf(v, 3)];
      assert v == v[..4] + rest && Unpack(v) == three + Unpack(rest);
      assert Spilling(|v|) == Spilling(|rest|);
      Unjoined(v[..4], rest, three, Unpack(rest));
    } else {
      ShortUnpackNumber(v);
    }
  }

  lemma Unjoined(q: seq<Sextet>, v: seq<Sextet>, head: Bytes, rest: Bytes)
    requires |v| % 4 != 1 && Number(q) == Value(head) && |rest| == 6 * |v| / 8
    requires Value(rest) == Number(v) / Spilling(|v|)
    ensures Value(head + rest) == Number(q + v) / Spilling(|v|)
  {
    hide *;
    NumberOfConcat(q, v);
    ValueOfConcat(head, rest);
    SpillingIs(|v|);
    SpillingIsPositive(|v|);
    CutOff(Value(head), Pow2(8 * |rest|), Number(v), Spilling(|v|));
  }

  lemma SpillingIsPositive(n: nat)
    ensures Spilling(n) > 0
  {
  }

  lemma CutOff(a: nat, p: nat, r: nat, f: nat)
    requires f > 0
    ensures (a * (p * f) + r) / f == a * p + r / f
  {
    assert a * (p * f) == f * (a * p);
    assert r == f * (r / f) + r % f;
    ModUnique(a * (p * f) + r, f, a * p + r / f, r % f);
  }

  lemma ShortUnpackNumber(v: seq<Sextet>)
    requires |v| < 4 && |v| != 1
    ensures |Unpack(v)| == 6 * |v| / 8 && Value(Unpack(v)) == Number(v) / Spilling(|v|)
  {
    hide Value, Number, ByteOf;
    if |v| == 0 {
      FourDigits(0, 0, 0, 0);
      ThreeBytes(0, 0, 0);
      assert v == [];
    } else {
      ByteOfInts(v, 1);
      if |v| == 2 {
        assert v == [v[0], v[1]];
        FourDigits(v[0], v[1], 0, 0);
        ThreeBytes(ByteOf(v, 1), 0, 0);
        OneSplit(v[0], v[1]);
      } else {
        assert v == [v[0], v[1], v[2]];
        ByteOfInts(v, 2);
        FourDigits(v[0], v[1], v[2], 0);
        ThreeBytes(ByteOf(v, 1), ByteOf(v, 2), 0);
        TwoSplit(v[0], v[1], v[2]);
      }
    }
  }

  lemma OneSplit(p: Sextet, q: Sextet)
    ensures (p * 64 + q) / 16 == p * 4 + q / 16
  {
    var n: int := p * 64 + q;
    ModUnique(n, 16, p * 4 + q / 16, q % 16);
  }

  lemma TwoSplit(p: Sextet, q: Sextet, r: Sextet)
    ensures (p * 4096 + q * 64 + r) / 4 == (p * 4 + q / 16) * 256 + (q % 16 * 16 + r / 4)
  {
    assert q / 16 * 16 + q % 16 == q && r / 4 * 4 + r % 4 == r;
    var n: int := p * 4096 + q * 64 + r;
    ModUnique(n, 4, (p * 4 + q / 16) * 256 + (q % 16 * 16 + r / 4), r % 4);
  }

  /** The number the digits of s make. */
  ghost predicate Spells(url: bool, s: string, v: seq<Sextet>) {
    |v| == |s| && forall i :: 0 <= i < |s| ==> s[i] == Digits(url)[v[i]]
  }

  lemma SpellsValues(url: bool, s: string, v: seq<Sextet>)
    requires Spells(url, s, v)
    ensures AllAlpha(url, s) && Values(url, s) == v && forall i :: 0 <= i < |s| ==> s[i] != '=' && s[i] in Digits(url)
  {
    hide DecodeChar, Digits;
    forall i | 0 <= i < |s|
      ensures DecodeChar(url, s[i]) == v[i] && s[i] != '='
    {
      DigitsDecode(url, v[i]);
      PadIsNoDigit(url);
    }
  }

  lemma PadIsNoDigit(url: bool)
    ensures DecodeChar(url, '=') == -1
  {
  }

  lemma {:induction false} GroupsArePacked(s: string)
    requires AllAlpha(false, s) && |s| % 4 != 1
    ensures Groups(s) == Some(Unpack(Values(false, s)))
    decreases |s|
  {
    hide DecodeChar, Groups, ByteOf, GoodFour, FourBytes;
    if s == "" {
      StopGroups([]);
      StartGroups(s);
    } else if |s| < 4 {
      GroupAlone(s);
      LastGroup(s);
    } else {
      var four, rest := s[..4], s[4..];
      assert s == four + rest;
      GroupsArePacked(rest);
      GroupThen(four, rest);
      WholeFour(s);
      assert Values(false, s)[4..] == Values(false, rest);
    }
  }

  lemma DigitsNotPads(s: string)
    requires AllAlpha(false, s)
    ensures forall i :: 0 <= i < |s| ==> s[i] != '=' && ValueOf(s[i]) == DecodeChar(false, s[i])
  {
    hide DecodeChar;
    PadIsNoDigit(false);
  }

  lemma WholeFour(s: string)
    requires AllAlpha(false, s) && |s| >= 4
    ensures var v, four := Values(false, s), s[..4];
      GoodFour(four) && FourBytes(four) == [ByteOf(v, 1), ByteOf(v, 2), ByteOf(v, 3)]
  {
    hide DecodeChar, Octet, NextByte, ValueOf, SumOf;
    DigitsNotPads(s);
    var v, four := Values(false, s), s[..4];
    FourSum(four, v[0], v[1], v[2], v[3]);
    SumBytes(v[0], v[1], v[2], v[3]);
  }

  lemma FourSum(f: string, p: Sextet, q: Sextet, r: Sextet, t: Sextet)
    requires |f| == 4 && DecodeChar(false, f[0]) == p && DecodeChar(false, f[1]) == q
    requires ValueOf(f[2]) == r && ValueOf(f[3]) == t
    ensures SumOf(f) == p * 262144 + q * 4096 + r * 64 + t
  {
    hide DecodeChar, ValueOf;
  }

  lemma SumBytes(p: Sextet, q: Sextet, r: Sextet, t: Sextet)
    ensures var n := p * 262144 + q * 4096 + r * 64 + t;
      && n / 65536 % 256 == NextByte(p, q, 1) && n / 256 % 256 == NextByte(q, r, 2) && n % 256 == NextByte(r, t, 3)
  {
    var n := p * 262144 + q * 4096 + r * 64 + t;
    var x, y, z := p * 4 + q / 16, q % 16 * 16 + r / 4, r % 4 * 64 + t;
    FourSplit(p, q, r, t);
    assert n == x * 65536 + y * 256 + z;
    ModUnique(n, 65536, x, y * 256 + z);
    ModUnique(n, 256, x * 256 + y, z);
    ModUnique(x, 256, 0, x);
    ModUnique(x * 256 + y, 256, x, y);
    NextBytes(p, q);
    NextBytes(q, r);
    NextBytes(r, t);
  }

  lemma LastGroup(s: string)
    requires AllAlpha(false, s) && 2 <= |s| < 4
    ensures var four := [s[0], s[1], if |s| > 2 then s[2] else '=', '='];
      GoodFour(four) && FourBytes(four) == Unpack(Values(false, s))
  {
    hide DecodeChar, Octet, NextByte, ValueOf;
    DigitsNotPads(s);
    PadIsZero();
    var v := Values(false, s);
    SumBytes(v[0], v[1], if |s| > 2 then v[2] else 0, 0);
  }

  // ----- white space -----

  /** s is t with any number of spaces, tabs, line feeds, carriage returns and form feeds
      put in, wherever. */
  ghost predicate Inserted(t: string, s: string)
    decreases |s|, 1
  {
    s == t || exists i :: 0 <= i < |s| && InsertedAt(t, s, i)
  }

  ghost predicate InsertedAt(t: string, s: string, i: nat)
    requires i < |s|
    decreases |s|, 0
  {
    var c := s[i];
    (c == ' ' || c == '\t' || c == '\n' || c == '\r' || c == '\U{0C}') && Inserted(t, s[..i] + s[i + 1..])
  }

  lemma {:induction false} StripBoth(a: string, b: string)
    ensures Strip(a + b) == Strip(a) + Strip(b)
    decreases |a|
  {
    hide White;
    if a == "" {
      assert a + b == b;
    } else {
      StripBoth(a[1..], b);
      assert (a + b)[0] == a[0] && (a + b)[1..] == a[1..] + b;
      var one := if White(a[0]) then "" else [a[0]];
      assert one + (Strip(a[1..]) + Strip(b)) == one + Strip(a[1..]) + Strip(b);
    }
  }

  /** One white character, anywhere, makes no difference to atob. */
  lemma AtobPassesOver(s: string, i: nat, c: char)
    requires i <= |s| && (c == ' ' || c == '\t' || c == '\n' || c == '\r' || c == '\U{0C}')
    ensures AtobBytes(s[..i] + [c] + s[i..]) == AtobBytes(s)
  {
    hide Groups, Strip;
    var a, b := s[..i], s[i..];
    StripBoth(a + [c], b);
    StripBoth(a, [c]);
    StripBoth(a, b);
    OneWhite(c);
    assert a + b == s && Strip(a) + "" == Strip(a);
    assert Strip(a + [c] + b) == Strip(s);
  }

  lemma OneWhite(c: char)
    requires c == ' ' || c == '\t' || c == '\n' || c == '\r' || c == '\U{0C}'
    ensures Strip([c]) == ""
  {
    assert [c][1..] == "";
  }

  lemma {:induction false} AtobOfInserted(t: string, s: string)
    requires Inserted(t, s)
    ensures AtobBytes(s) == AtobBytes(t)
    decreases |s|
  {
    hide AtobBytes;
    if s != t {
      var i :| 0 <= i < |s| && InsertedAt(t, s, i);
      var c := s[i];
      var u := s[..i] + s[i + 1..];
      AtobOfInserted(t, u);
      assert u[..i] + [c] + u[i..] == s;
      AtobPassesOver(u, i, c);
    }
  }

  /** White space anywhere in an encoding, padded or not, is no matter. */
  lemma AtobOfSpaced(padded: bool, b: Bytes, s: string)
    requires Inserted(Encoded(false, padded, b), s)
    ensures AtobBytes(s) == Some(b)
  {
    hide AtobBytes, Encoded, Inserted;
    AtobOfInserted(Encoded(false, padded, b), s);
    EncodedIsNotWhite(padded, b);
    StripEncoded(Encoded(false, padded, b));
    AtobOfStripped(padded, b, Encoded(false, padded, b));
  }

  predicate NoWhite(s: string) {
    forall i :: 0 <= i < |s| ==> s[i] != ' ' && s[i] != '\t' && s[i] != '\n' && s[i] != '\r' && s[i] != '\U{0C}'
  }

  lemma StripNothing(s: string)
    requires NoWhite(s)
    ensures Strip(s) == s
  {
    StripEncoded(s);
  }

  lemma DigitsAreNotWhite(url: bool, c: char)
    requires c in Digits(url)
    ensures NoWhite([c])
  {
    hide Digits;
    DigitOrNot(url, c);
  }

  /** A digit, or a pad that ends its group of four. */
  predicate DigitOrPad(s: string, i: nat)
    requires i < |s|
  {
    || s[i] in Digits(false)
    || (s[i] == '=' && (i % 4 == 3 || (i % 4 == 2 && (i + 1 == |s| || s[i + 1] == '='))))
  }

  /** A text without white space is accepted if and only if its length is not 1 modulo 4
      and each character is a digit, or a pad that ends its group of four. */
  lemma AtobAcceptsText(s: string)
    requires NoWhite(s)
    ensures AtobOf(s).Some? <==> |s| % 4 != 1 && forall i :: 0 <= i < |s| ==> DigitOrPad(s, i)
  {
    hide Groups, Strip, AtobOf, WellPlaced, DigitOrPad;
    StripNothing(s);
    AtobAccepts(s);
    forall i | 0 <= i < |s|
      ensures WellPlaced(s, i) <==> DigitOrPad(s, i)
    {
      PlacedIs(s, i);
    }
  }

  lemma PlacedIs(s: string, i: nat)
    requires i < |s|
    ensures WellPlaced(s, i) <==> DigitOrPad(s, i)
  {
    hide Digits, DecodeChar;
    DigitOrNot(false, s[i]);
  }

  /** The digits a text spells, without white space or pads, come to the bytes of the number
      they make, less the bits that fill no byte. */
  lemma AtobIsNumber(s: string, v: seq<Sextet>)
    requires Spells(false, s, v) && |s| % 4 != 1
    ensures AtobBytes(s).Some? && |AtobBytes(s).value| == 6 * |s| / 8
    ensures Value(AtobBytes(s).value) == Number(v) / if |s| % 4 == 2 then 16 else if |s| % 4 == 3 then 4 else 1
  {
    hide Groups, Strip, Value, Number, Unpack, Digits, AllAlpha, Values;
    SpellsValues(false, s, v);
    forall i | 0 <= i < |s|
      ensures NoWhite([s[i]])
    {
      DigitsAreNotWhite(false, s[i]);
    }
    assert NoWhite(s) by {
      forall i | 0 <= i < |s|
        ensures s[i] != ' ' && s[i] != '\t' && s[i] != '\n' && s[i] != '\r' && s[i] != '\U{0C}'
      {
        assert [s[i]][0] == s[i];
      }
    }
    StripNothing(s);
    GroupsArePacked(s);
    UnpackNumber(v);
  }

  /** A first part in whole groups is decoded on its own, and pads complete the last one. */
  lemma AtobOfConcat(s: string, t: string)
    requires NoWhite(s) && NoWhite(t) && |s| % 4 == 0 && AtobBytes(s).Some?
    ensures AtobBytes(s + t) == WithBytes(AtobBytes(s).value, AtobBytes(t))
  {
    hide Groups, Strip;
    StripNothing(s);
    StripNothing(t);
    StripNothing(s + t);
    GroupsOfConcat(s, t, AtobBytes(s).value);
  }

  /** Pads that complete the last group change nothing. */
  lemma AtobOfPadded(s: string, pad: string)
    requires NoWhite(s) && (forall i :: 0 <= i < |s| ==> s[i] in Digits(false))
    requires (|s| % 4 == 2 && (pad == "=" || pad == "==")) || (|s| % 4 == 3 && pad == "=")
    ensures AtobBytes(s + pad) == AtobBytes(s)
  {
    hide *;
    var k := |s| - |s| % 4;
    var head, last := s[..k], s[k..];
    assert s == head + last && s + pad == head + (last + pad);
    AllDigits(s);
    NotWhiteEither(s, pad);
    GroupsArePacked(head);
    GroupsOfConcat(head, last, Groups(head).value);
    GroupsOfConcat(head, last + pad, Groups(head).value);
    PaddedGroup(last, pad);
  }

  lemma NotWhiteEither(s: string, pad: string)
    requires NoWhite(s) && (pad == "=" || pad == "==") && |s| % 4 != 1 && |s + pad| % 4 != 1
    ensures AtobBytes(s) == Groups(s) && AtobBytes(s + pad) == Groups(s + pad)
  {
    hide Groups, Strip;
    StripNothing(s);
    StripNothing(s + pad);
  }

  lemma PaddedGroup(last: string, pad: string)
    requires (|last| == 2 && (pad == "=" || pad == "==")) || (|last| == 3 && pad == "=")
    ensures Groups(last + pad) == Groups(last)
  {
    hide Groups, GoodFour, FourBytes;
    GroupAlone(last);
    GroupAlone(last + pad);
  }

  lemma AllDigits(s: string)
    requires forall i :: 0 <= i < |s| ==> s[i] in Digits(false)
    ensures forall k :: 0 <= k <= |s| ==> AllAlpha(false, s[..k])
  {
    forall i | 0 <= i < |s|
      ensures DecodeChar(false, s[i]) >= 0
    {
      DigitOrNot(false, s[i]);
    }
  }

  // ----- base64url -----

  /** The decoder of keys reads up to the first pad; what is there must be digits, not 1
      modulo 4 of them, and comes to the bytes of their number. */
  lemma UrlIsNumber(s: string, more: string)
    requires '=' !in s && (more == "" || more[0] == '=')
    ensures UrlDecoded(s + more).Some? <==> |s| % 4 != 1 && forall i :: 0 <= i < |s| ==> s[i] in Digits(true)
    ensures forall v :: Spells(true, s, v) && |s| % 4 != 1 ==>
      && UrlDecoded(s + more).Some? && |UrlDecoded(s + more).value| == 6 * |s| / 8
      && Value(UrlDecoded(s + more).value) == Number(v) / if |s| % 4 == 2 then 16 else if |s| % 4 == 3 then 4 else 1
  {
    hide Value, Number, Unpack, Digits;
    UpToPadIs(s + more, |s|);
    assert (s + more)[..|s|] == s;
    forall i | 0 <= i < |s|
      ensures DecodeChar(true, s[i]) >= 0 <==> s[i] in Digits(true)
    {
      DigitOrNot(true, s[i]);
    }
    forall v | Spells(true, s, v) && |s| % 4 != 1
      ensures && UrlDecoded(s + more).Some? && |UrlDecoded(s + more).value| == 6 * |s| / 8
        && Value(UrlDecoded(s + more).value) == Number(v) / if |s| % 4 == 2 then 16 else if |s| % 4 == 3 then 4 else 1
    {
      SpellsValues(true, s, v);
      UnpackNumber(v);
    }
  }
}
