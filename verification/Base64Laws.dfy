/** How the base64 codecs undo each other. */
module Base64Laws {
  import opened Arith
  import opened Common
  import opened Octets
  import opened Utf8
  import opened Base64

  // ----- base64url -----

  lemma OctetOfInt(x: bv8)
    ensures Octet(Int(x)) == x
  {
    ByteInjective(Octet(Int(x)), x);
  }

  lemma IntOfOctet(n: nat)
    requires n < 256
    ensures Int(Octet(n)) == n
  {
  }

  /** Three bytes as four sextets and as bytes again. */
  lemma PackInts(x: nat, y: nat, z: nat)
    requires x < 256 && y < 256 && z < 256
    ensures NextByte(x / 4, x % 4 * 16 + y / 16, 1) == x
    ensures NextByte(x % 4 * 16 + y / 16, y % 16 * 4 + z / 64, 2) == y
    ensures NextByte(y % 16 * 4 + z / 64, z % 64, 3) == z
  {
    var b, c := x % 4 * 16 + y / 16, y % 16 * 4 + z / 64;
    ModUnique(b, 16, x % 4, y / 16);
    ModUnique(c, 4, y % 16, z / 64);
    NextBytes(x / 4, b);
    NextBytes(b, c);
    NextBytes(c, z % 64);
    Wholes(x, y, z);
  }

  lemma NextBytes(last: Sextet, x: Sextet)
    ensures NextByte(last, x, 1) == last * 4 + x / 16
    ensures NextByte(last, x, 2) == last % 16 * 16 + x / 4
    ensures NextByte(last, x, 3) == last % 4 * 64 + x
  {
  }

  lemma Wholes(x: nat, y: nat, z: nat)
    ensures x / 4 * 4 + x % 4 == x && y / 16 * 16 + y % 16 == y && z / 64 * 64 + z % 64 == z
  {
  }

  lemma ByteOfIs(v: seq<Sextet>, k: nat, x: bv8)
    requires 1 <= k <= 3 && k < |v| && NextByte(v[k - 1], v[k], k) == Int(x)
    ensures ByteOf(v, k) == x
  {
    hide NextByte;
    OctetOfInt(x);
  }

  /** The sextets of the first three bytes, as far as there are any. */
  lemma SextetsHead(b: Bytes)
    requires b != []
    ensures var v := Sextets(b);
            var x := Int(b[0]);
            var y := if |b| > 1 then Int(b[1]) else 0;
            var z := if |b| > 2 then Int(b[2]) else 0;
      && v[0] == x / 4 && v[1] == x % 4 * 16 + y / 16 && (|b| > 1 ==> v[2] == y % 16 * 4 + z / 64)
      && (|b| > 2 ==> v[3] == z % 64 && v == v[..4] + Sextets(b[3..]))
  {
    hide Int;
    if |b| == 1 { assert Int(b[0]) % 4 * 16 + 0 / 16 == Int(b[0]) % 4 * 16; }
  }

  lemma {:induction false} UnpackOfSextets(b: Bytes)
    ensures Unpack(Sextets(b)) == b
    decreases |b|
  {
    hide Octet, Int, ByteOf, NextByte, Sextets;
    if b == [] {
      assert Sextets(b) == [];
    } else {
      var v := Sextets(b);
      SextetsHead(b);
      PackInts(Int(b[0]), if |b| > 1 then Int(b[1]) else 0, if |b| > 2 then Int(b[2]) else 0);
      ByteOfIs(v, 1, b[0]);
      if |b| > 1 { ByteOfIs(v, 2, b[1]); }
      if |b| > 2 {
        ByteOfIs(v, 3, b[2]);
        UnpackOfSextets(b[3..]);
        assert v[4..] == Sextets(b[3..]);
        assert b == [b[0], b[1], b[2]] + b[3..];
      }
    }
  }

  lemma CharsAreAlpha(url: bool, v: seq<Sextet>)
    ensures AllAlpha(url, Chars(url, v)) && Values(url, Chars(url, v)) == v
    ensures forall i :: 0 <= i < |v| ==> Chars(url, v)[i] != '='
  {
    hide Alpha, DecodeChar;
    forall i | 0 <= i < |v|
      ensures DecodeChar(url, Chars(url, v)[i]) == v[i] && Chars(url, v)[i] != '='
    {
      DecodeOfAlpha(url, v[i]);
    }
  }

  /** base64urlDecode undoes base64urlEncode, and takes the padded form as well. */
  lemma UrlDecodeOfEncode(b: Bytes, padded: bool)
    ensures UrlDecoded(Encoded(true, padded, b)) == Some(b)
  {
    hide Unpack, Sextets, Values, AllAlpha, UpToPad;
    var v := Sextets(b);
    var s := Encoded(true, padded, b);
    CharsAreAlpha(true, v);
    UnpackOfSextets(b);
    UpToPadIs(s, |v|);
    assert s[..|v|] == Chars(true, v);
    SextetCount(|b|);
  }

  lemma SextetCount(n: nat)
    ensures (4 * n + 2) / 3 % 4 == [0, 2, 3][n % 3]
  {
    var q := n / 3;
    assert 4 * n + 2 == 12 * q + (4 * (n % 3) + 2);
    assert (4 * n + 2) / 3 == 4 * q + (4 * (n % 3) + 2) / 3;
  }

  /** The bits of the last sextet that fill no byte. */
  function Spare(v: seq<Sextet>): int {
    if |v| % 4 == 2 then v[|v| - 1] % 16 else if |v| % 4 == 3 then v[|v| - 1] % 4 else 0
  }

  lemma {:induction false} SextetsOfUnpack(v: seq<Sextet>)
    requires |v| % 4 != 1
    ensures Sextets(Unpack(v)) == v <==> Spare(v) == 0
    decreases |v|
  {
    hide Octet, Int, NextByte, ByteOf, Sextets, Unpack;
    if v == [] {
      NothingBack();
    } else if |v| < 4 {
      ShortUnpack(v);
    } else {
      FourBack(v);
      SextetsOfUnpack(v[4..]);
      assert v == v[..4] + v[4..];
      SameBehind(v[..4], Sextets(Unpack(v[4..])), v[4..]);
    }
  }

  lemma NothingBack()
    ensures Sextets(Unpack([])) == []
  {
  }

  lemma FourBack(v: seq<Sextet>)
    requires |v| >= 4
    ensures Sextets(Unpack(v)) == v[..4] + Sextets(Unpack(v[4..]))
  {
    hide *;
    UnpackFour(v);
    FourSextets(v);
    HeadFour(Unpack(v), v[0], v[1], v[2], v[3]);
    FirstFourOf(v);
  }

  lemma FirstFourOf(v: seq<Sextet>)
    requires |v| >= 4
    ensures v[..4] == [v[0], v[1], v[2], v[3]]
  {
  }

  /** p, q, r, t are the sextets of the bytes x, y, z. */
  predicate FourFit(x: nat, y: nat, z: nat, p: int, q: int, r: int, t: int) {
    x / 4 == p && x % 4 * 16 + y / 16 == q && y % 16 * 4 + z / 64 == r && z % 64 == t
  }

  lemma FourSextets(v: seq<Sextet>)
    requires |v| >= 4
    ensures FourFit(Int(ByteOf(v, 1)), Int(ByteOf(v, 2)), Int(ByteOf(v, 3)), v[0], v[1], v[2], v[3])
  {
    hide *;
    SplitByte(v, 1);
    SplitByte(v, 2);
    SplitByte(v, 3);
    FourInts(Int(ByteOf(v, 1)), Int(ByteOf(v, 2)), Int(ByteOf(v, 3)), v[0], v[1], v[2], v[3]);
  }

  lemma HeadFour(b: Bytes, p: Sextet, q: Sextet, r: Sextet, t: Sextet)
    requires |b| >= 3 && FourFit(Int(b[0]), Int(b[1]), Int(b[2]), p, q, r, t)
    ensures Sextets(b) == [p, q, r, t] + Sextets(b[3..])
  {
    hide Int, Sextets;
    SextetsHead(b);
    var v := Sextets(b);
    assert v[0] == p && v[1] == q && v[2] == r && v[3] == t;
    FirstFourOf(v);
  }

  lemma UnpackFour(v: seq<Sextet>)
    requires |v| >= 4
    ensures var b := Unpack(v);
      |b| >= 3 && b[0] == ByteOf(v, 1) && b[1] == ByteOf(v, 2) && b[2] == ByteOf(v, 3) && b[3..] == Unpack(v[4..])
  {
    hide ByteOf;
    assert Unpack(v)[3..] == Unpack(v[4..]);
  }

  lemma FourInts(x: nat, y: nat, z: nat, p: int, q: int, r: int, t: int)
    requires x / 4 == p && x % 4 * 16 == q / 16 * 16
    requires y / 16 == q % 16 && y % 16 * 4 == r / 4 * 4
    requires z / 64 == r % 4 && z % 64 == t
    ensures FourFit(x, y, z, p, q, r, t)
  {
  }

  lemma ShortUnpack(v: seq<Sextet>)
    requires |v| == 2 || |v| == 3
    ensures Sextets(Unpack(v)) == v <==> Spare(v) == 0
  {
    hide Octet, Int, NextByte, ByteOf, Sextets;
    SextetsHead(Unpack(v));
    SplitByte(v, 1);
    if |v| == 3 { SplitByte(v, 2); }
    SpareBits(v[|v| - 1]);
  }

  lemma SpareBits(x: Sextet)
    ensures x / 16 * 16 == x - x % 16 && x / 4 * 4 == x - x % 4
  {
  }

  lemma SameBehind(head: seq<Sextet>, a: seq<Sextet>, b: seq<Sextet>)
    ensures head + a == head + b <==> a == b
  {
    assert a == (head + a)[|head|..] && b == (head + b)[|head|..];
  }

  /** A byte cut where its two sextets meet. */
  lemma SplitByte(v: seq<Sextet>, k: nat)
    requires 1 <= k <= 3 && k < |v|
    ensures var n := Int(ByteOf(v, k));
      && (k == 1 ==> n / 4 == v[0] && n % 4 * 16 == v[1] / 16 * 16)
      && (k == 2 ==> n / 16 == v[1] % 16 && n % 16 * 4 == v[2] / 4 * 4)
      && (k == 3 ==> n / 64 == v[2] % 4 && n % 64 == v[3])
  {
    hide NextByte, Int, Octet;
    var p, q: Sextet := v[k - 1], v[k];
    NextBytes(p, q);
    IntOfOctet(NextByte(p, q, k));
    SplitInts(p, q);
  }

  lemma SplitInts(p: Sextet, q: Sextet)
    ensures var n := p * 4 + q / 16; n / 4 == p && n % 4 == q / 16
    ensures var n := p % 16 * 16 + q / 4; n / 16 == p % 16 && n % 16 == q / 4
    ensures var n := p % 4 * 64 + q; n / 64 == p % 4 && n % 64 == q
  {
    ModUnique(p * 4 + q / 16, 4, p, q / 16);
    ModUnique(p % 16 * 16 + q / 4, 16, p % 16, q / 4);
    ModUnique(p % 4 * 64 + q, 64, p % 4, q);
  }

  /** A string is what its decoding encodes to exactly when the decoder accepts it, it
      has no padding, and the bits it drops are zero. */
  lemma UrlEncodeOfDecode(s: string)
    requires UrlDecoded(s).Some?
    ensures Encoded(true, false, UrlDecoded(s).value) == s
        <==> UpToPad(s) == s && Spare(Values(true, UpToPad(s))) == 0
  {
    hide Unpack, Sextets, UpToPad, Spare;
    var body := UpToPad(s);
    var v := Values(true, body);
    var w := Sextets(Unpack(v));
    SextetsOfUnpack(v);
    CharsAreAlpha(true, w);
    ValuesBack(body);
    var e := Encoded(true, false, Unpack(v));
    assert e == Chars(true, w);
    if e == s {
      UpToPadIs(s, |s|);
      assert s[..|s|] == s;
      assert w == v;
    }
  }

  lemma ValuesBack(s: string)
    requires AllAlpha(true, s)
    ensures Chars(true, Values(true, s)) == s
  {
    forall i | 0 <= i < |s|
      ensures Chars(true, Values(true, s))[i] == s[i]
    {
      AlphaOfDecode(true, s[i]);
    }
  }

  lemma AlphaOfDecode(url: bool, c: char)
    requires DecodeChar(url, c) >= 0
    ensures DecodeChar(url, c) < 64 && Alpha(url, DecodeChar(url, c)) == c
  {
  }

  // ----- the alphabets -----

  function Translated(s: string): (r: string)
    ensures |r| == |s|
  {
    seq(|s|, i requires 0 <= i < |s| => if s[i] == '+' then '-' else if s[i] == '/' then '_' else s[i])
  }

  /** base64urlEncode is btoa's and Blob's encoding without the padding and in the
      other alphabet. */
  lemma EncodersAgree(b: Bytes)
    ensures Encoded(true, false, b) == Translated(UpToPad(Encoded(false, true, b)))
  {
    hide Sextets, UpToPad;
    var v := Sextets(b);
    var s := Encoded(false, true, b);
    CharsAreAlpha(false, v);
    UpToPadIs(s, |v|);
    assert s[..|v|] == Chars(false, v);
    assert Translated(Chars(false, v)) == Chars(true, v);
  }

  // ----- btoa and atob -----

  predicate InLatin1(text: seq<Scalar>) { forall i :: 0 <= i < |text| ==> text[i] < 256 }

  function BytesOf(text: seq<Scalar>): (b: Bytes)
    requires InLatin1(text)
    ensures |b| == |text|
  {
    seq(|text|, i requires 0 <= i < |text| => Octet(text[i]))
  }

  lemma AsTextOfBytes(text: seq<Scalar>)
    requires InLatin1(text)
    ensures AsText(BytesOf(text)) == text
  {
  }

  lemma Latin1Step(c: Scalar, rest: Bytes)
    ensures Latin1(Encode(c) + rest) == if c < 256 then WithByte(Octet(c), Latin1(rest)) else None
  {
    hide Octet, LeadWidth, TwoBytes, IsCont;
    var u := Encode(c) + rest;
    if c < 0x80 {
      assert u[1..] == rest;
      LowByteIs(Octet(c));
    } else {
      EncodeShaped(c);
      LeadIs(c);
      assert u[0] == Encode(c)[0] && u[1] == Encode(c)[1];
      if c < 256 {
        assert u[2..] == rest;
        TwoBytesOf(c);
      }
    }
  }

  lemma LowByteIs(b: bv8)
    ensures b as int < 0x80 <==> b < 0x80
  {
    RangesAreInts(b);
  }

  lemma LeadIs(c: Scalar)
    requires c >= 0x80
    ensures !(Encode(c)[0] < 0x80)
    ensures c < 256 <==> Encode(c)[0] == 0xC2 || Encode(c)[0] == 0xC3
  {
    hide Octet;
    LowByteIs(Encode(c)[0]);
    IntIs(Encode(c)[0], 0xC2);
    IntIs(Encode(c)[0], 0xC3);
    assert (0xC2 as bv8) as int == 0xC2 && (0xC3 as bv8) as int == 0xC3;
  }

  lemma IntIs(x: bv8, y: bv8)
    ensures x == y <==> x as int == y as int
  {
    if x as int == y as int { ByteInjective(x, y); }
  }

  lemma TwoBytesOf(c: Scalar)
    requires 0x80 <= c < 256
    ensures TwoBytes(Encode(c)[0], Encode(c)[1]) == Octet(c)
  {
    hide *;
    assert Encode(c) == [Octet(0xC0 + c / 64), Octet(0x80 + c % 64)] by { EncodeTwo(c); }
    var m, n := 0xC0 + c / 64, 0x80 + c % 64;
    TwoInts(c, m, n);
    IntOfOctet(m);
    IntOfOctet(n);
    TwoBytesAre(Octet(m), Octet(n), m, n);
  }

  lemma EncodeTwo(c: Scalar)
    requires 0x80 <= c < 256
    ensures Encode(c) == [Octet(0xC0 + c / 64), Octet(0x80 + c % 64)]
  {
    hide Octet;
  }

  lemma TwoBytesAre(b0: bv8, b1: bv8, m: nat, n: nat)
    requires Int(b0) == m && Int(b1) == n
    ensures TwoBytes(b0, b1) == Octet((m % 32 * 64 + n % 64) % 256)
  {
  }

  lemma TwoInts(c: nat, m: nat, n: nat)
    requires 0x80 <= c < 256 && m == 0xC0 + c / 64 && n == 0x80 + c % 64
    ensures (m % 32 * 64 + n % 64) % 256 == c
  {
    assert m % 32 == c / 64;
    assert n % 64 == c % 64;
  }

  lemma {:induction false} Latin1OfText(text: seq<Scalar>)
    ensures Latin1(EncodeAll(text)) == if InLatin1(text) then Some(BytesOf(text)) else None
    decreases |text|
  {
    hide Encode, Octet, Latin1;
    if text == [] {
      Latin1Nothing();
    } else {
      Latin1Step(text[0], EncodeAll(text[1..]));
      Latin1OfText(text[1..]);
      assert InLatin1(text) <==> text[0] < 256 && InLatin1(text[1..]) by { InLatin1Split(text); }
      if InLatin1(text) { assert BytesOf(text) == [Octet(text[0])] + BytesOf(text[1..]); }
    }
  }

  lemma Latin1Nothing()
    ensures Latin1([]) == Some([])
  {
  }

  lemma InLatin1Split(text: seq<Scalar>)
    requires text != []
    ensures InLatin1(text) <==> text[0] < 256 && InLatin1(text[1..])
  {
    if text[0] < 256 && InLatin1(text[1..]) {
      forall i | 0 <= i < |text|
        ensures text[i] < 256
      {
        if i > 0 { assert text[1..][i - 1] == text[i]; }
      }
    }
  }

  /** One group of characters decodes to the bytes it came from. */
  lemma {:induction false} GroupsOfEncoded(padded: bool, b: Bytes)
    ensures Groups(Encoded(false, padded, b)) == Some(b)
    decreases |b|
  {
    hide Groups, Encoded, GoodFour, FourBytes, FourOf, Group, GroupChar;
    if b == [] {
      EncodedNone(false, padded);
      StopGroups([]);
    } else if |b| >= 3 {
      EncodedThree(false, padded, b);
      var n := Group(b[0], b[1], b[2]);
      var four := [GroupChar(false, n, 0), GroupChar(false, n, 1), GroupChar(false, n, 2), GroupChar(false, n, 3)];
      WholeGroup(b[0], b[1], b[2]);
      GroupsOfEncoded(padded, b[3..]);
      GroupThen(four, Encoded(false, padded, b[3..]));
      assert b == [b[0], b[1], b[2]] + b[3..];
    } else if |b| == 2 {
      assert b == [b[0], b[1]];
      EncodedTwo(false, padded, b[0], b[1]);
      var n := Group(b[0], b[1], 0);
      TwoGroup(b[0], b[1]);
      GroupAlone([GroupChar(false, n, 0), GroupChar(false, n, 1), GroupChar(false, n, 2)] + if padded then "=" else "");
    } else {
      assert b == [b[0]];
      EncodedOne(false, padded, b[0]);
      var n := Group(b[0], 0, 0);
      OneGroupBack(b[0]);
      GroupAlone([GroupChar(false, n, 0), GroupChar(false, n, 1)] + if padded then "==" else "");
    }
  }

  lemma GroupThen(four: string, rest: string)
    requires |four| == 4
    ensures Groups(four + rest) == if GoodFour(four) then WithBytes(FourBytes(four), Groups(rest)) else None
  {
    hide GoodFour, FourBytes;
    var s := four + rest;
    assert FourOf(s) == four;
    assert s[4..] == rest;
  }

  lemma GroupAlone(t: string)
    requires 2 <= |t| <= 4
    ensures var four := [t[0], t[1], if |t| > 2 then t[2] else '=', if |t| > 3 then t[3] else '='];
      Groups(t) == if GoodFour(four) then Some(FourBytes(four)) else None
  {
    hide GoodFour, FourBytes;
    var four := [t[0], t[1], if |t| > 2 then t[2] else '=', if |t| > 3 then t[3] else '='];
    assert FourOf(t) == four;
    assert Groups("") == Some([]);
    if GoodFour(four) { assert FourBytes(four) + [] == FourBytes(four); }
  }

  lemma GroupIs(x: bv8, y: bv8, z: bv8)
    ensures Group(x, y, z) == Int(x) * 65536 + Int(y) * 256 + Int(z)
  {
  }

  lemma GroupBack(n: nat, x: nat, y: nat, z: nat)
    requires x < 256 && y < 256 && z < 256 && n == x * 65536 + y * 256 + z
    ensures
      && n / 262144 % 64 * 262144 + n / 4096 % 64 * 4096 + n / 64 % 64 * 64 + n % 64 == n
      && n / 65536 % 256 == x && n / 256 % 256 == y && n % 256 == z
  {
    GroupInts(x, y, z);
    Wholes(x, y, z);
    ModUnique(n, 65536, x, y * 256 + z);
    ModUnique(n, 256, x * 256 + y, z);
    ModUnique(x * 256 + y, 256, x, y);
    ModUnique(x, 256, 0, x);
  }

  lemma CharBack(n: nat, k: nat)
    requires k < 4
    ensures var v := n / [262144, 4096, 64, 1][k] % 64;
      DecodeChar(false, GroupChar(false, n, k)) == v && ValueOf(GroupChar(false, n, k)) == v
      && GroupChar(false, n, k) != '='
  {
    hide Alpha, DecodeChar;
    DecodeOfAlpha(false, n / [262144, 4096, 64, 1][k] % 64);
  }

  lemma GroupSum(x: bv8, y: bv8, z: bv8)
    ensures var n := Group(x, y, z);
      && n / 262144 % 64 * 262144 + n / 4096 % 64 * 4096 + n / 64 % 64 * 64 + n % 64 == n
      && Octet(n / 65536 % 256) == x && Octet(n / 256 % 256) == y && Octet(n % 256) == z
  {
    hide *;
    var n := Group(x, y, z);
    assert n == Int(x) * 65536 + Int(y) * 256 + Int(z) by { GroupIs(x, y, z); }
    GroupBack(n, Int(x), Int(y), Int(z));
    OctetOfInt(x);
    OctetOfInt(y);
    OctetOfInt(z);
  }

  lemma CharsBack(n: nat)
    ensures forall k :: 0 <= k < 4 ==> GroupChar(false, n, k) != '='
    ensures DecodeChar(false, GroupChar(false, n, 0)) == n / 262144 % 64
    ensures DecodeChar(false, GroupChar(false, n, 1)) == n / 4096 % 64
    ensures ValueOf(GroupChar(false, n, 2)) == n / 64 % 64
    ensures ValueOf(GroupChar(false, n, 3)) == n % 64
  {
    hide DecodeChar, GroupChar, ValueOf;
    CharBack(n, 0);
    CharBack(n, 1);
    CharBack(n, 2);
    CharBack(n, 3);
  }

  lemma WholeGroup(x: bv8, y: bv8, z: bv8)
    ensures var n := Group(x, y, z);
            var four := [GroupChar(false, n, 0), GroupChar(false, n, 1), GroupChar(false, n, 2),
                         GroupChar(false, n, 3)];
      GoodFour(four) && FourBytes(four) == [x, y, z]
  {
    hide GroupChar, DecodeChar, ValueOf, Octet, Group;
    CharsBack(Group(x, y, z));
    GroupSum(x, y, z);
  }

  lemma PadIsZero()
    ensures ValueOf('=') == 0
  {
  }

  lemma ZeroLow(x: bv8, y: bv8)
    ensures Group(x, y, 0) % 64 == 0 && Group(x, 0, 0) / 64 % 64 == 0
  {
    hide Int;
    IntZero();
    GroupInts(Int(x), Int(y), 0);
    GroupInts(Int(x), 0, 0);
  }

  lemma TwoGroup(x: bv8, y: bv8)
    ensures var n := Group(x, y, 0);
            var four := [GroupChar(false, n, 0), GroupChar(false, n, 1), GroupChar(false, n, 2), '='];
      GoodFour(four) && FourBytes(four) == [x, y]
  {
    hide GroupChar, DecodeChar, ValueOf, Octet, Group;
    CharsBack(Group(x, y, 0));
    GroupSum(x, y, 0);
    PadIsZero();
    ZeroLow(x, y);
  }

  lemma OneGroupBack(x: bv8)
    ensures var n := Group(x, 0, 0);
            var four := [GroupChar(false, n, 0), GroupChar(false, n, 1), '=', '='];
      GoodFour(four) && FourBytes(four) == [x]
  {
    hide GroupChar, DecodeChar, ValueOf, Octet, Group;
    CharsBack(Group(x, 0, 0));
    GroupSum(x, 0, 0);
    PadIsZero();
    ZeroLow(x, 0);
  }

  lemma {:induction false} StripEncoded(s: string)
    requires forall i :: 0 <= i < |s| ==> !White(s[i])
    ensures Strip(s) == s
  {
    if s != "" { StripEncoded(s[1..]); }
  }

  lemma EncodedIsNotWhite(padded: bool, b: Bytes)
    ensures var s := Encoded(false, padded, b);
      && (forall i :: 0 <= i < |s| ==> !White(s[i])) && |s| % 4 != 1
  {
    hide Sextets, Alpha, White;
    var v := Sextets(b);
    var s := Encoded(false, padded, b);
    forall i | 0 <= i < |s|
      ensures !White(s[i])
    {
      if i < |v| { AlphaIsNotWhite(v[i]); } else { PadIsNotWhite(|b|, i - |v|); }
    }
    SextetCount(|b|);
  }

  lemma AlphaIsNotWhite(v: Sextet)
    ensures !White(Alpha(false, v))
  {
  }

  lemma PadIsNotWhite(n: nat, i: nat)
    ensures i < |Pad(n)| ==> !White(Pad(n)[i])
  {
  }

  lemma AtobOfStripped(padded: bool, b: Bytes, s: string)
    requires Strip(s) == Encoded(false, padded, b)
    ensures AtobBytes(s) == Some(b)
  {
    hide Encoded, Groups, Strip;
    EncodedIsNotWhite(padded, b);
    GroupsOfEncoded(padded, b);
  }

  /** btoa accepts exactly the Latin1 strings, and atob gives each of them back. */
  lemma AtobOfBtoa(text: seq<Scalar>)
    ensures BtoaOf(EncodeAll(text)).Some? <==> InLatin1(text)
    ensures InLatin1(text) ==> AtobOf(BtoaOf(EncodeAll(text)).value) == Some(EncodeAll(text))
  {
    hide Encoded, AtobBytes, EncodeAll, Latin1;
    Latin1OfText(text);
    if InLatin1(text) {
      var b := BytesOf(text);
      var s := Encoded(false, true, b);
      EncodedIsNotWhite(true, b);
      StripEncoded(s);
      AtobOfStripped(true, b, s);
      AsTextOfBytes(text);
    }
  }

  // ----- what atob accepts -----

  /** A digit, or a pad in the third or fourth place of its four characters, in the
      third only if the fourth is one too or is missing. */
  predicate WellPlaced(t: string, i: nat)
    requires i < |t|
  {
    || DecodeChar(false, t[i]) >= 0
    || (t[i] == '=' && (i % 4 == 3 || (i % 4 == 2 && (i + 1 < |t| ==> t[i + 1] == '='))))
  }

  predicate Accepted(t: string) { |t| % 4 != 1 && forall i :: 0 <= i < |t| ==> WellPlaced(t, i) }

  lemma FirstFourPlaced(t: string)
    requires t != "" && |t| % 4 != 1
    ensures GoodFour(FourOf(t)) <==> forall i :: 0 <= i < |t| && i < 4 ==> WellPlaced(t, i)
  {
    hide DecodeChar;
    NoPadDigit();
    if GoodFour(FourOf(t)) {
      forall i | 0 <= i < |t| && i < 4
        ensures WellPlaced(t, i)
      {
      }
    } else {
      assert |t| >= 2;
      if WellPlaced(t, 0) && WellPlaced(t, 1) && |t| >= 3 {
        assert !WellPlaced(t, 2) || (|t| >= 4 && !WellPlaced(t, 3));
      }
    }
  }

  lemma NoPadDigit()
    ensures DecodeChar(false, '=') == -1
  {
  }

  lemma {:induction false} GroupsAccept(t: string)
    requires |t| % 4 != 1
    ensures Groups(t).Some? <==> forall i :: 0 <= i < |t| ==> WellPlaced(t, i)
    decreases |t|
  {
    hide GoodFour, FourBytes, FourOf, WellPlaced;
    if t != "" {
      FirstFourPlaced(t);
      if |t| > 4 {
        GroupsAccept(t[4..]);
        forall i | 0 <= i < |t| - 4
          ensures WellPlaced(t, i + 4) == WellPlaced(t[4..], i)
        {
          PlacedBehind(t, i);
        }
        forall i | 4 <= i < |t|
          ensures WellPlaced(t, i) == WellPlaced(t[4..], i - 4)
        {
          assert WellPlaced(t, i - 4 + 4) == WellPlaced(t[4..], i - 4);
        }
      }
    }
  }

  lemma PlacedBehind(t: string, i: nat)
    requires i + 4 < |t|
    ensures WellPlaced(t, i + 4) == WellPlaced(t[4..], i)
  {
    hide DecodeChar;
    assert (i + 4) % 4 == i % 4;
  }

  /** atob accepts a string if and only if, without its white space, its length is not 1
      modulo 4 and every character is well placed. */
  lemma AtobAccepts(s: string)
    ensures AtobOf(s).Some? <==> Accepted(Strip(s))
  {
    hide Groups, Strip, WellPlaced;
    if |Strip(s)| % 4 != 1 { GroupsAccept(Strip(s)); }
  }

  lemma {:induction false} GroupsOfConcat(s: string, t: string, b: Bytes)
    requires |s| % 4 == 0 && Groups(s) == Some(b)
    ensures Groups(s + t) == WithBytes(b, Groups(t))
    decreases |s|
  {
    hide GoodFour, FourBytes, FourOf, Groups;
    if s == "" {
      StopGroups([]);
      StartGroups(t);
      assert s + t == t && t[0..] == t;
    } else {
      var four, rest := s[..4], s[4..];
      assert s == four + rest && s + t == four + (rest + t);
      GroupThen(four, rest);
      GroupThen(four, rest + t);
      GroupsOfConcat(rest, t, Groups(rest).value);
      Regrouped(FourBytes(four), Groups(rest).value, Groups(t));
    }
  }

  lemma Regrouped(a: Bytes, b: Bytes, r: Option<Bytes>)
    ensures WithBytes(a, WithBytes(b, r)) == WithBytes(a + b, r)
  {
    if r.Some? { assert a + (b + r.value) == a + b + r.value; }
  }

  /** Pads may stand inside: a padded text with another behind it is the bytes of both. */
  lemma AtobOfTwoTexts(a: Bytes, b: Bytes, padded: bool)
    ensures AtobBytes(Encoded(false, true, a) + Encoded(false, padded, b)) == Some(a + b)
  {
    hide Encoded, Groups, Strip, White;
    var s, t := Encoded(false, true, a), Encoded(false, padded, b);
    EncodedIsNotWhite(true, a);
    EncodedIsNotWhite(padded, b);
    StripEncoded(s + t);
    PaddedLength(a);
    GroupsOfEncoded(true, a);
    GroupsOfEncoded(padded, b);
    GroupsOfConcat(s, t, a);
  }

  lemma PaddedLength(b: Bytes)
    ensures |Encoded(false, true, b)| % 4 == 0
  {
    hide Sextets;
    SextetCount(|b|);
  }
}
