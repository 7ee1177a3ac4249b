/** The base64 codecs: btoa and atob, the data-URL encoder of Blob and FileReader, and
    the base64url pair of JSON Web Keys (sections 4 and 5 of RFC 4648).
 */
module Base64 {
  import opened Arith
  import opened Common
  import opened Octets
  import opened Utf8

  type Sextet = v: int | 0 <= v < 64

  /** Character v of the alphabet. */
  function Alpha(url: bool, v: Sextet): char {
    if v < 26 then 'A' + v as char
    else if v < 52 then 'a' + (v - 26) as char
    else if v < 62 then '0' + (v - 52) as char
    else if v == 62 then if url then '-' else '+'
    else if url then '_' else '/'
  }

  /** A character's value, -1 if it has none. */
  function DecodeChar(url: bool, c: char): int {
    if 'A' <= c <= 'Z' then c as int - 'A' as int
    else if 'a' <= c <= 'z' then c as int - 'a' as int + 26
    else if '0' <= c <= '9' then c as int - '0' as int + 52
    else if c == (if url then '-' else '+') then 62
    else if c == (if url then '_' else '/') then 63
    else -1
  }

  lemma DecodeOfAlpha(url: bool, v: Sextet)
    ensures DecodeChar(url, Alpha(url, v)) == v && Alpha(url, v) != '='
  {
  }

  function Int(x: bv8): (n: nat)
    ensures n < 256
  {
    x as int
  }

  /** Three bytes as four sextets. */
  function Quad(x: nat, y: nat, z: nat): (r: seq<Sextet>)
    requires x < 256 && y < 256 && z < 256
    ensures |r| == 4
  {
    [x / 4, x % 4 * 16 + y / 16, y % 16 * 4 + z / 64, z % 64]
  }

  /** The bytes' bits six at a time, zeros behind the last. */
  function Sextets(b: Bytes): (r: seq<Sextet>)
    ensures |r| == (4 * |b| + 2) / 3
  {
    if b == [] then []
    else
      var x := Int(b[0]);
      if |b| == 1 then [x / 4, x % 4 * 16]
      else
        var y := Int(b[1]);
        if |b| == 2 then [x / 4, x % 4 * 16 + y / 16, y % 16 * 4]
        else
          var z := Int(b[2]);
          Quad(x, y, z) + Sextets(b[3..])
  }

  function Chars(url: bool, v: seq<Sextet>): (s: string)
    ensures |s| == |v|
  {
    seq(|v|, i requires 0 <= i < |v| => Alpha(url, v[i]))
  }

  function Pad(n: nat): string { if n % 3 == 1 then "==" else if n % 3 == 2 then "=" else "" }

  function Encoded(url: bool, padded: bool, b: Bytes): string {
    Chars(url, Sextets(b)) + if padded then Pad(|b|) else ""
  }

  // ----- the three encoders -----

  /** Character k of the 24-bit group n, counted from the left. */
  function GroupChar(url: bool, n: nat, k: nat): char
    requires k < 4
  {
    Alpha(url, n / [262144, 4096, 64, 1][k] % 64)
  }

  function Group(x: bv8, y: bv8, z: bv8): nat { Int(x) * 65536 + Int(y) * 256 + Int(z) }

  lemma GroupSextets(x: bv8, y: bv8, z: bv8)
    ensures var n := Group(x, y, z);
      && n / 262144 % 64 == Int(x) / 4
      && n / 4096 % 64 == Int(x) % 4 * 16 + Int(y) / 16
      && n / 64 % 64 == Int(y) % 16 * 4 + Int(z) / 64
      && n % 64 == Int(z) % 64
  {
    hide Int;
    GroupInts(Int(x), Int(y), Int(z));
  }

  lemma GroupInts(x: nat, y: nat, z: nat)
    requires x < 256 && y < 256 && z < 256
    ensures var n := x * 65536 + y * 256 + z;
      && n / 262144 % 64 == x / 4 && n / 4096 % 64 == x % 4 * 16 + y / 16
      && n / 64 % 64 == y % 16 * 4 + z / 64 && n % 64 == z % 64
  {
    var n := x * 65536 + y * 256 + z;
    ModUnique(n, 262144, x / 4, x % 4 * 65536 + y * 256 + z);
    ModUnique(n, 4096, x * 16 + y / 16, y % 16 * 256 + z);
    ModUnique(n, 64, x * 1024 + y * 4 + z / 64, z % 64);
    ModUnique(x / 4, 64, 0, x / 4);
    ModUnique(x * 16 + y / 16, 64, x / 4, x % 4 * 16 + y / 16);
    ModUnique(x * 1024 + y * 4 + z / 64, 64, x * 16 + y / 16, y % 16 * 4 + z / 64);
  }

  lemma CharsMore(url: bool, v: seq<Sextet>, w: seq<Sextet>)
    ensures Chars(url, v + w) == Chars(url, v) + Chars(url, w)
  {
  }

  /** Three more bytes are four more characters. */
  lemma EncodedThree(url: bool, padded: bool, b: Bytes)
    requires |b| >= 3
    ensures var n := Group(b[0], b[1], b[2]);
      Encoded(url, padded, b) ==
      [GroupChar(url, n, 0), GroupChar(url, n, 1), GroupChar(url, n, 2), GroupChar(url, n, 3)]
      + Encoded(url, padded, b[3..])
  {
    hide Alpha, Int, Group, Sextets, Pad;
    var n := Group(b[0], b[1], b[2]);
    var four: seq<Sextet> := [n / 262144 % 64, n / 4096 % 64, n / 64 % 64, n % 64];
    SextetsThree(b);
    CharsMore(url, four, Sextets(b[3..]));
    FourChars(url, n);
    PadPeriod(|b|);
  }

  lemma SextetsThree(b: Bytes)
    requires |b| >= 3
    ensures var n := Group(b[0], b[1], b[2]);
      Sextets(b) == [n / 262144 % 64, n / 4096 % 64, n / 64 % 64, n % 64] + Sextets(b[3..])
  {
    hide Int, Group, Quad;
    QuadIsGroup(b[0], b[1], b[2]);
  }

  lemma QuadIsGroup(x: bv8, y: bv8, z: bv8)
    ensures var n := Group(x, y, z);
      Quad(Int(x), Int(y), Int(z)) == [n / 262144 % 64, n / 4096 % 64, n / 64 % 64, n % 64]
  {
    hide Int, Group;
    GroupSextets(x, y, z);
  }

  lemma FourChars(url: bool, n: nat)
    ensures Chars(url, [n / 262144 % 64, n / 4096 % 64, n / 64 % 64, n % 64])
         == [GroupChar(url, n, 0), GroupChar(url, n, 1), GroupChar(url, n, 2), GroupChar(url, n, 3)]
  {
    hide Alpha;
  }

  lemma PadPeriod(n: nat)
    requires n >= 3
    ensures Pad(n) == Pad(n - 3)
  {
  }

  lemma IntZero()
    ensures Int(0) == 0
  {
  }

  lemma EncodedOne(url: bool, padded: bool, x: bv8)
    ensures var n := Group(x, 0, 0);
      Encoded(url, padded, [x]) == [GroupChar(url, n, 0), GroupChar(url, n, 1)] + if padded then "==" else ""
  {
    hide Alpha, Int, Group;
    GroupSextets(x, 0, 0);
    IntZero();
    var n := Group(x, 0, 0);
    assert Sextets([x]) == [n / 262144 % 64, n / 4096 % 64];
  }

  lemma EncodedTwo(url: bool, padded: bool, x: bv8, y: bv8)
    ensures var n := Group(x, y, 0);
      Encoded(url, padded, [x, y]) ==
      [GroupChar(url, n, 0), GroupChar(url, n, 1), GroupChar(url, n, 2)] + if padded then "=" else ""
  {
    hide Alpha, Int, Group;
    GroupSextets(x, y, 0);
    IntZero();
    var n := Group(x, y, 0);
    assert Sextets([x, y]) == [n / 262144 % 64, n / 4096 % 64, n / 64 % 64];
  }

  lemma EncodedNone(url: bool, padded: bool)
    ensures Encoded(url, padded, []) == ""
  {
  }

  /** The loop and the tail that base64Encode and base64urlEncode share. */
  method EncodeTail(url: bool, padded: bool, data: Bytes) returns (out: string)
    ensures out == Encoded(url, padded, data)
  {
    hide *;
    out := "";
    var i := 0;
    while i + 2 < |data|
      invariant 0 <= i <= |data|
      invariant out + Encoded(url, padded, data[i..]) == Encoded(url, padded, data)
    {
      EncodedThree(url, padded, data[i..]);
      assert data[i..][3..] == data[i + 3..];
      var n := Group(data[i], data[i + 1], data[i + 2]);
      var four := [GroupChar(url, n, 0), GroupChar(url, n, 1), GroupChar(url, n, 2), GroupChar(url, n, 3)];
      assert out + (four + Encoded(url, padded, data[i + 3..])) == out + four + Encoded(url, padded, data[i + 3..]);
      out := out + four;
      i := i + 3;
    }
    if i + 1 == |data| {
      assert data[i..] == [data[i]];
      EncodedOne(url, padded, data[i]);
      var n := Group(data[i], 0, 0);
      out := out + ([GroupChar(url, n, 0), GroupChar(url, n, 1)] + if padded then "==" else "");
    } else if i + 2 == |data| {
      assert data[i..] == [data[i], data[i + 1]];
      EncodedTwo(url, padded, data[i], data[i + 1]);
      var n := Group(data[i], data[i + 1], 0);
      out := out + ([GroupChar(url, n, 0), GroupChar(url, n, 1), GroupChar(url, n, 2)] + if padded then "=" else "");
    } else {
      EncodedNone(url, padded);
      assert data[i..] == [] && out + "" == out;
    }
  }

  /** base64Encode of blob.cpp. */
  method Base64Encode(data: Bytes) returns (out: string)
    ensures out == Encoded(false, true, data)
  {
    out := EncodeTail(false, true, data);
  }

  method Base64urlEncode(data: Bytes) returns (out: string)
    ensures out == Encoded(true, false, data)
  {
    out := EncodeTail(true, false, data);
  }

  // ----- btoa -----

  /** The bytes whose UTF-8 this is, or None outside Latin1. */
  function Latin1(utf8: Bytes): Option<Bytes>
    decreases |utf8|
  {
    if utf8 == [] then Some([])
    else if utf8[0] < 0x80 then WithByte(utf8[0], Latin1(utf8[1..]))
    else if (utf8[0] == 0xC2 || utf8[0] == 0xC3) && |utf8| > 1 then
      if IsCont(utf8[1]) then WithByte(TwoBytes(utf8[0], utf8[1]), Latin1(utf8[2..])) else None
    else None
  }

  function TwoBytes(b0: bv8, b1: bv8): bv8 { Octet((Int(b0) % 32 * 64 + Int(b1) % 64) % 256) }

  function WithByte(x: bv8, rest: Option<Bytes>): Option<Bytes> {
    match rest
    case None => None
    case Some(r) => Some([x] + r)
  }

  function WithBytes(head: Bytes, rest: Option<Bytes>): Option<Bytes> {
    match rest
    case None => None
    case Some(r) => Some(head + r)
  }

  lemma WithMore(head: Bytes, x: bv8, rest: Option<Bytes>)
    ensures WithBytes(head, WithByte(x, rest)) == WithBytes(head + [x], rest)
  {
    if rest.Some? { assert head + ([x] + rest.value) == head + [x] + rest.value; }
  }

  function BtoaOf(utf8: Bytes): Option<string> {
    match Latin1(utf8)
    case None => None
    case Some(b) => Some(Encoded(false, true, b))
  }

  method ToLatin1(utf8: Bytes) returns (r: Option<Bytes>)
    ensures r == Latin1(utf8)
  {
    hide IsCont, TwoBytes;
    var latin1: Bytes := [];
    var i := 0;
    LatinStart(utf8);
    while i < |utf8|
      invariant 0 <= i <= |utf8|
      invariant Latin1(utf8) == WithBytes(latin1, Latin1(utf8[i..]))
    {
      var b0 := utf8[i];
      ghost var rest := utf8[i..];
      if b0 < 0x80 {
        WithMore(latin1, b0, Latin1(utf8[i + 1..]));
        assert rest[1..] == utf8[i + 1..];
        latin1 := latin1 + [b0];
        i := i + 1;
      } else if (b0 == 0xC2 || b0 == 0xC3) && i + 1 < |utf8| {
        var b1 := utf8[i + 1];
        if !IsCont(b1) { return None; }
        WithMore(latin1, TwoBytes(b0, b1), Latin1(utf8[i + 2..]));
        assert rest[2..] == utf8[i + 2..];
        latin1 := latin1 + [TwoBytes(b0, b1)];
        i := i + 2;
      } else {
        return None;
      }
    }
    assert latin1 + [] == latin1;
    return Some(latin1);
  }

  lemma LatinStart(utf8: Bytes)
    ensures utf8[0..] == utf8 && Latin1(utf8) == WithBytes([], Latin1(utf8[0..]))
  {
    if Latin1(utf8).Some? { assert [] + Latin1(utf8).value == Latin1(utf8).value; }
  }

  /** nativeBtoa on the UTF-8 form of its argument; None is InvalidCharacterError. */
  method Btoa(utf8: Bytes) returns (r: Option<string>)
    ensures r == BtoaOf(utf8)
  {
    var latin1 := ToLatin1(utf8);
    if latin1 == None { return None; }
    var out := EncodeGroups(latin1.value);
    r := Some(out);
  }

  method EncodeGroups(latin1: Bytes) returns (out: string)
    ensures out == Encoded(false, true, latin1)
  {
    hide *;
    out := "";
    var i, len := 0, |latin1|;
    while i < len
      invariant 0 <= i
      invariant i <= len ==> out + Encoded(false, true, latin1[i..]) == Encoded(false, true, latin1)
      invariant i > len ==> out == Encoded(false, true, latin1)
      decreases len - i
    {
      var b1 := latin1[i];
      var b2 := if i + 1 < len then latin1[i + 1] else 0;
      var b3 := if i + 2 < len then latin1[i + 2] else 0;
      var triple := Group(b1, b2, b3);
      var four := [
        GroupChar(false, triple, 0), GroupChar(false, triple, 1),
        if i + 1 < len then GroupChar(false, triple, 2) else '=',
        if i + 2 < len then GroupChar(false, triple, 3) else '='];
      OneGroup(latin1, i, four);
      assert i + 3 <= len
        ==> out + (four + Encoded(false, true, latin1[i + 3..])) == out + four + Encoded(false, true, latin1[i + 3..]);
      out := out + four;
      i := i + 3;
    }
    if i == len {
      EncodedNone(false, true);
      assert latin1[i..] == [] && out + "" == out;
    }
  }

  lemma OneGroup(b: Bytes, i: nat, four: string)
    requires i < |b|
    requires var n := Group(b[i], if i + 1 < |b| then b[i + 1] else 0, if i + 2 < |b| then b[i + 2] else 0);
      four == [GroupChar(false, n, 0), GroupChar(false, n, 1), if i + 1 < |b| then GroupChar(false, n, 2) else '=',
               if i + 2 < |b| then GroupChar(false, n, 3) else '=']
    ensures Encoded(false, true, b[i..]) == four + if i + 3 <= |b| then Encoded(false, true, b[i + 3..]) else ""
  {
    hide *;
    if i + 3 <= |b| {
      assert b[i..][3..] == b[i + 3..];
      EncodedThree(false, true, b[i..]);
    } else if i + 2 == |b| {
      assert b[i..] == [b[i], b[i + 1]];
      EncodedTwo(false, true, b[i], b[i + 1]);
    } else {
      assert b[i..] == [b[i]];
      EncodedOne(false, true, b[i]);
    }
  }

  // ----- atob -----

  predicate White(c: char) { c == ' ' || c == '\t' || c == '\n' || c == '\r' || c == '\U{0C}' }

  function Strip(s: string): (r: string)
    ensures |r| <= |s|
  {
    if s == "" then "" else (if White(s[0]) then "" else [s[0]]) + Strip(s[1..])
  }

  /** One group, padded with '=' if the text runs out. */
  function FourOf(s: string): (r: string)
    requires s != ""
    ensures |r| == 4
  {
    [s[0], if |s| > 1 then s[1] else '=', if |s| > 2 then s[2] else '=', if |s| > 3 then s[3] else '=']
  }

  function ValueOf(c: char): int { if c == '=' then 0 else DecodeChar(false, c) }

  predicate GoodFour(f: string)
    requires |f| == 4
  {
    DecodeChar(false, f[0]) >= 0 && DecodeChar(false, f[1]) >= 0 && ValueOf(f[2]) >= 0 && ValueOf(f[3]) >= 0
    && !(f[2] == '=' && f[3] != '=')
  }

  /** The group's 24 bits. */
  function SumOf(f: string): int
    requires |f| == 4
  {
    DecodeChar(false, f[0]) * 262144 + DecodeChar(false, f[1]) * 4096 + ValueOf(f[2]) * 64 + ValueOf(f[3])
  }

  function FourBytes(f: string): Bytes
    requires |f| == 4 && GoodFour(f)
  {
    hide Octet;
    var n := SumOf(f);
    [Octet(n / 65536 % 256)] + (if f[2] != '=' then [Octet(n / 256 % 256)] else [])
    + if f[3] != '=' then [Octet(n % 256)] else []
  }

  function Groups(s: string): Option<Bytes>
    decreases |s|
  {
    if s == "" then Some([])
    else if !GoodFour(FourOf(s)) then None
    else WithBytes(FourBytes(FourOf(s)), Groups(if |s| > 4 then s[4..] else ""))
  }

  function AtobBytes(s: string): Option<Bytes> {
    if |Strip(s)| % 4 == 1 then None else Groups(Strip(s))
  }

  /** The UTF-8 of bytes taken as code points. */
  function AsText(b: Bytes): (r: seq<Scalar>)
    ensures |r| == |b|
  {
    seq(|b|, i requires 0 <= i < |b| => b[i] as int)
  }

  function AtobOf(s: string): Option<Bytes> {
    match AtobBytes(s)
    case None => None
    case Some(b) => Some(EncodeAll(AsText(b)))
  }

  method Atob(s: string) returns (r: Option<Bytes>)
    ensures r == AtobOf(s)
  {
    hide *;
    var clean := Clean(s);
    var decoded: Option<Bytes> := None;
    if |clean| % 4 != 1 { decoded := DecodeGroups(clean); }
    AtobUnfolded(s);
    if decoded == None { return None; }
    var outUtf8: Bytes := [];
    for k := 0 to |decoded.value|
      invariant outUtf8 == EncodeAll(AsText(decoded.value[..k]))
    {
      TextMore(decoded.value[..k], decoded.value[k]);
      assert decoded.value[..k + 1] == decoded.value[..k] + [decoded.value[k]];
      outUtf8 := outUtf8 + Encode(Int(decoded.value[k]));
    }
    assert decoded.value[..|decoded.value|] == decoded.value;
    return Some(outUtf8);
  }

  lemma AtobUnfolded(s: string)
    ensures AtobBytes(s) == if |Strip(s)| % 4 == 1 then None else Groups(Strip(s))
    ensures AtobOf(s) == if AtobBytes(s).Some? then Some(EncodeAll(AsText(AtobBytes(s).value))) else None
    ensures EncodeAll(AsText([])) == []
  {
  }

  lemma TextMore(b: Bytes, x: bv8)
    ensures EncodeAll(AsText(b + [x])) == EncodeAll(AsText(b)) + Encode(Int(x))
  {
    hide Encode;
    assert AsText(b + [x]) == AsText(b) + [Int(x)];
    EncodeAllConcat(AsText(b), [Int(x)]);
    EncodeOne(Int(x));
  }

  method Clean(s: string) returns (clean: string)
    ensures clean == Strip(s)
  {
    hide *;
    clean := "";
    StripStep("", s);
    assert s[0..] == s;
    for i := 0 to |s|
      invariant clean + Strip(s[i..]) == Strip(s)
    {
      assert s[i..][1..] == s[i + 1..];
      StripStep(clean, s[i..]);
      if !White(s[i]) { clean := clean + [s[i]]; }
    }
    StripStep(clean, s[|s|..]);
  }

  lemma StripStep(before: string, s: string)
    ensures s == "" ==> before + Strip(s) == before
    ensures s != "" ==> before + Strip(s) == (if White(s[0]) then before else before + [s[0]]) + Strip(s[1..])
    ensures "" + Strip(s) == Strip(s)
  {
    hide White;
  }

  method DecodeGroups(clean: string) returns (r: Option<Bytes>)
    ensures r == Groups(clean)
  {
    hide *;
    var decoded: Bytes := [];
    var i, len := 0, |clean|;
    StartGroups(clean);
    while i < len
      invariant 0 <= i <= len
      invariant Groups(clean) == WithBytes(decoded, Groups(clean[i..]))
    {
      var from := i;
      var c0 := clean[i];
      i := i + 1;
      var c1, c2, c3 := '=', '=', '=';
      if i < len { c1, i := clean[i], i + 1; }
      if i < len { c2, i := clean[i], i + 1; }
      if i < len { c3, i := clean[i], i + 1; }
      var four := [c0, c1, c2, c3];
      assert FourOf(clean[from..]) == four by { FourIs(clean, from); }
      NextGroup(clean, from, decoded);
      assert clean[i..] == if len - from > 4 then clean[from + 4..] else "";
      if !GoodFour(four) { return None; }
      decoded := decoded + FourBytes(four);
    }
    StopGroups(decoded);
    assert clean[i..] == "";
    return Some(decoded);
  }

  lemma FourIs(s: string, i: nat)
    requires i < |s|
    ensures FourOf(s[i..]) == [s[i], if i + 1 < |s| then s[i + 1] else '=', if i + 2 < |s| then s[i + 2] else '=',
                               if i + 3 < |s| then s[i + 3] else '=']
  {
  }

  lemma StartGroups(s: string)
    ensures s[0..] == s && Groups(s) == WithBytes([], Groups(s[0..]))
  {
    hide GoodFour, FourBytes;
    assert s[0..] == s;
    if Groups(s).Some? { assert [] + Groups(s).value == Groups(s).value; }
  }

  lemma StopGroups(b: Bytes)
    ensures WithBytes(b, Groups("")) == Some(b)
  {
    assert b + [] == b;
  }

  lemma NextGroup(s: string, i: nat, decoded: Bytes)
    requires i < |s|
    ensures var four := FourOf(s[i..]);
      WithBytes(decoded, Groups(s[i..])) ==
      if GoodFour(four) then WithBytes(decoded + FourBytes(four), Groups(if |s| - i > 4 then s[i + 4..] else ""))
      else None
  {
    hide GoodFour, FourBytes, FourOf;
    var t := s[i..];
    assert |t| > 4 ==> t[4..] == s[i + 4..];
    var rest := Groups(if |t| > 4 then t[4..] else "");
    if GoodFour(FourOf(t)) && rest.Some? {
      assert decoded + (FourBytes(FourOf(t)) + rest.value) == decoded + FourBytes(FourOf(t)) + rest.value;
    }
  }

  // ----- base64url decoding -----

  function UpToPad(s: string): (r: string)
    ensures |r| <= |s|
  {
    if s == "" || s[0] == '=' then "" else [s[0]] + UpToPad(s[1..])
  }

  predicate AllAlpha(url: bool, s: string) { forall i :: 0 <= i < |s| ==> DecodeChar(url, s[i]) >= 0 }

  function Values(url: bool, s: string): (v: seq<Sextet>)
    requires AllAlpha(url, s)
    ensures |v| == |s|
  {
    seq(|s|, i requires 0 <= i < |s| => DecodeChar(url, s[i]))
  }

  /** The byte that x completes after `last`, m sextets into its group. */
  function NextByte(last: int, x: int, m: nat): (n: nat)
    requires 1 <= m <= 3 && 0 <= last < 64 && 0 <= x < 64
    ensures n < 256
  {
    if m == 1 then last * 4 + x / 16 else if m == 2 then last % 16 * 16 + x / 4 else last % 4 * 64 + x
  }

  function ByteOf(v: seq<Sextet>, m: nat): bv8
    requires 1 <= m <= 3 && m < |v|
  {
    Octet(NextByte(v[m - 1], v[m], m))
  }

  /** Sextets back into bytes; bits that do not fill a byte are dropped. */
  function Unpack(v: seq<Sextet>): (b: Bytes)
    decreases |v|
  {
    if |v| < 2 then []
    else if |v| == 2 then [ByteOf(v, 1)]
    else if |v| == 3 then [ByteOf(v, 1), ByteOf(v, 2)]
    else [ByteOf(v, 1), ByteOf(v, 2), ByteOf(v, 3)] + Unpack(v[4..])
  }

  function UrlDecoded(s: string): Option<Bytes> {
    var body := UpToPad(s);
    if AllAlpha(true, body) && |body| % 4 != 1 then Some(Unpack(Values(true, body))) else None
  }

  lemma {:induction false} UnpackMore(v: seq<Sextet>, x: Sextet)
    ensures var m := |v| % 4;
      Unpack(v + [x]) == Unpack(v) + if m == 0 then [] else [Octet(NextByte(v[|v| - 1], x, m))]
    decreases |v|
  {
    hide Octet, NextByte;
    if |v| >= 4 {
      UnpackMore(v[4..], x);
      assert (v + [x])[4..] == v[4..] + [x];
      FirstFour(v, x);
    }
  }

  lemma FirstFour(v: seq<Sextet>, x: Sextet)
    requires |v| >= 4
    ensures ByteOf(v + [x], 1) == ByteOf(v, 1) && ByteOf(v + [x], 2) == ByteOf(v, 2)
      && ByteOf(v + [x], 3) == ByteOf(v, 3)
  {
    hide Octet, NextByte;
  }

  const TWO32 := 0x1_0000_0000

  /** (acc << 6) | v in 32 bits. */
  function Shifted(acc: nat, v: Sextet): nat { (acc * 64 + v) % TWO32 }

  /** Only the low 12 bits of the accumulator matter, so its wrapping does not. */
  lemma WrapDoesNotMatter(acc: nat, v: Sextet, m: nat)
    requires 1 <= m <= 3
    ensures Shifted(acc, v) / [1, 16, 4, 1][m] % 256 == NextByte(acc % 64, v, m)
  {
    hide Shifted;
    LowBits(acc, v);
    Window(Shifted(acc, v));
    LowByte(acc % 64, v);
  }

  lemma LowByte(last: nat, v: Sextet)
    requires last < 64
    ensures var low := last * 64 + v;
      low / 16 == last * 4 + v / 16 && low / 4 % 256 == last % 16 * 16 + v / 4 && low % 256 == last % 4 * 64 + v
  {
    var low := last * 64 + v;
    assert low / 4 == last * 16 + v / 4;
    ModUnique(low / 4, 256, last / 16, last % 16 * 16 + v / 4);
    ModUnique(low, 256, last / 4, last % 4 * 64 + v);
  }

  lemma LowBits(acc: nat, v: Sextet)
    ensures Shifted(acc, v) % 4096 == acc % 64 * 64 + v && Shifted(acc, v) % 64 == v
  {
    var n := acc * 64 + v;
    var q := n / TWO32;
    ModUnique(Shifted(acc, v), 4096, acc / 64 - 1048576 * q, acc % 64 * 64 + v);
    ModUnique(Shifted(acc, v), 64, acc - 67108864 * q, v);
  }

  lemma Window(n: nat)
    ensures n / 16 % 256 == n % 4096 / 16 && n / 4 % 256 == n % 4096 / 4 % 256 && n % 256 == n % 4096 % 256
  {
    var q, r := n / 4096, n % 4096;
    DivOfSum(n, q, r);
    ModUnique(n / 16, 256, q, r / 16);
    ModUnique(n / 4, 256, 4 * q + r / 4 / 256, r / 4 % 256);
    ModUnique(n, 256, 16 * q + r / 256, r % 256);
  }

  lemma DivOfSum(n: nat, q: nat, r: nat)
    requires n == 4096 * q + r
    ensures n / 16 == 256 * q + r / 16 && n / 4 == 1024 * q + r / 4
  {
  }

  method Base64urlDecode(s: string) returns (r: Option<Bytes>)
    ensures r == UrlDecoded(s)
  {
    hide *;
    var out: Bytes := [];
    var acc, bits, i := 0, 0, 0;
    ghost var vals: seq<Sextet> := [];
    UrlStart(s);
    while i < |s|
      invariant 0 <= i <= |s| && |vals| == i && UrlDone(s, i, vals)
      invariant bits == 6 * i % 8 && (i > 0 ==> acc % 64 == vals[i - 1])
      invariant out == Unpack(vals)
    {
      var v := DecodeChar(true, s[i]);
      UrlStep(s, i, vals);
      if v < 0 {
        if s[i] == '=' { break; }
        return None;
      }
      UnpackMore(vals, v);
      LowBits(acc, v);
      if i % 4 != 0 { WrapDoesNotMatter(acc, v, i % 4); }
      BitsCount(i);
      acc := Shifted(acc, v);
      bits := bits + 6;
      if bits >= 8 {
        bits := bits - 8;
        out := out + [Octet(acc / (if bits == 4 then 16 else if bits == 2 then 4 else 1) % 256)];
      }
      vals := vals + [v];
      i := i + 1;
    }
    UrlEnd(s, i, vals);
    r := if bits < 6 then Some(out) else None;
  }

  lemma BitsCount(i: nat)
    ensures 6 * i % 8 == [0, 6, 4, 2][i % 4] && 6 * (i + 1) % 8 == [6, 4, 2, 0][i % 4]
  {
    var q, r := i / 4, i % 4;
    assert 6 * i == 24 * q + 6 * r;
    if r == 0 {
      ModUnique(6 * i, 8, 3 * q, 0);
      ModUnique(6 * (i + 1), 8, 3 * q, 6);
    } else if r == 1 {
      ModUnique(6 * i, 8, 3 * q, 6);
      ModUnique(6 * (i + 1), 8, 3 * q + 1, 4);
    } else if r == 2 {
      ModUnique(6 * i, 8, 3 * q + 1, 4);
      ModUnique(6 * (i + 1), 8, 3 * q + 2, 2);
    } else {
      ModUnique(6 * i, 8, 3 * q + 2, 2);
      ModUnique(6 * (i + 1), 8, 3 * q + 3, 0);
    }
  }

  /** The first i characters are digits of value vals. */
  predicate UrlDone(s: string, i: nat, vals: seq<Sextet>) {
    |vals| == i <= |s| && forall k :: 0 <= k < i ==> DecodeChar(true, s[k]) == vals[k]
  }

  lemma UrlStart(s: string)
    ensures UrlDone(s, 0, []) && Unpack([]) == []
  {
  }

  lemma {:induction false} UpToPadIs(s: string, i: nat)
    requires i <= |s| && (forall k :: 0 <= k < i ==> s[k] != '=') && (i == |s| || s[i] == '=')
    ensures UpToPad(s) == s[..i]
  {
    if i > 0 { UpToPadIs(s[1..], i - 1); }
  }

  lemma {:induction false} UpToPadKeeps(s: string, i: nat)
    requires i < |s| && forall k :: 0 <= k <= i ==> s[k] != '='
    ensures i < |UpToPad(s)| && UpToPad(s)[i] == s[i]
  {
    if i > 0 { UpToPadKeeps(s[1..], i - 1); }
  }

  lemma UrlStep(s: string, i: nat, vals: seq<Sextet>)
    requires UrlDone(s, i, vals) && i < |s|
    ensures var v := DecodeChar(true, s[i]);
      && v < 64 && (v >= 0 ==> UrlDone(s, i + 1, vals + [v]))
      && (v < 0 && s[i] != '=' ==> UrlDecoded(s) == None)
  {
    if DecodeChar(true, s[i]) < 0 && s[i] != '=' {
      assert forall k :: 0 <= k < i ==> s[k] != '=';
      UpToPadKeeps(s, i);
    }
  }

  lemma UrlEnd(s: string, i: nat, vals: seq<Sextet>)
    requires UrlDone(s, i, vals) && (i == |s| || s[i] == '=')
    ensures UrlDecoded(s) == if 6 * i % 8 < 6 then Some(Unpack(vals)) else None
  {
    hide Unpack;
    assert forall k :: 0 <= k < i ==> s[k] != '=';
    UpToPadIs(s, i);
    assert Values(true, s[..i]) == vals;
  }
}
