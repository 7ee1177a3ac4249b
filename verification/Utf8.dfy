/** UTF-8 (section 3 of RFC 3629). */
module Utf8 {
  import opened Common
  import opened Octets

  type Scalar = c: int | 0 <= c < 0xD800 || 0xE000 <= c < 0x110000

  function Width(c: Scalar): nat {
    if c < 0x80 then 1 else if c < 0x800 then 2 else if c < 0x10000 then 3 else 4
  }

  function Octet(x: nat): (b: bv8)
    requires x < 256
    ensures b as int == x
  {
    ByteOfInt(x);
    x as bv8
  }

  function Encode(c: Scalar): (r: Bytes)
    ensures |r| == Width(c)
  {
    match Width(c)
    case 1 => [Octet(c)]
    case 2 => [Octet(0xC0 + c / 64), Octet(0x80 + c % 64)]
    case 3 => [Octet(0xE0 + c / 4096), Octet(0x80 + c / 64 % 64), Octet(0x80 + c % 64)]
    case _ => [Octet(0xF0 + c / 262144), Octet(0x80 + c / 4096 % 64), Octet(0x80 + c / 64 % 64), Octet(0x80 + c % 64)]
  }

  function EncodeAll(text: seq<Scalar>): Bytes {
    if text == [] then [] else Encode(text[0]) + EncodeAll(text[1..])
  }

  predicate IsCont(b: bv8) { b & 0xC0 == 0x80 }

  /** How many bytes a code point starting with b takes, 0 if none starts with it. */
  function LeadWidth(b: bv8): nat {
    if b & 0x80 == 0x00 then 1
    else if b & 0xC0 == 0x80 then 0
    else if b & 0xE0 == 0xC0 then 2
    else if b & 0xF0 == 0xE0 then 3
    else if b & 0xF8 == 0xF0 then 4
    else 0
  }

  lemma MasksAreRanges(b: bv8)
    ensures b & 0x80 == 0x00 <==> b < 0x80
    ensures b & 0xC0 == 0x80 <==> 0x80 <= b < 0xC0
    ensures b & 0xE0 == 0xC0 <==> 0xC0 <= b < 0xE0
    ensures b & 0xF0 == 0xE0 <==> 0xE0 <= b < 0xF0
    ensures b & 0xF8 == 0xF0 <==> 0xF0 <= b < 0xF8
  {
  }

  lemma RangesAreInts(b: bv8)
    ensures b < 0x80 <==> b as int < 0x80
    ensures b < 0xC0 <==> b as int < 0xC0
    ensures b < 0xE0 <==> b as int < 0xE0
    ensures b < 0xF0 <==> b as int < 0xF0
    ensures b < 0xF8 <==> b as int < 0xF8
  {
  }

  lemma Classes(b: bv8)
    ensures IsCont(b) <==> 0x80 <= b as int < 0xC0
    ensures LeadWidth(b) == var x := b as int;
      if x < 0x80 then 1 else if x < 0xC0 then 0 else if x < 0xE0 then 2
      else if x < 0xF0 then 3 else if x < 0xF8 then 4 else 0
  {
    MasksAreRanges(b);
    RangesAreInts(b);
  }

  /** A lead byte that says how many bytes there are, then continuation bytes. */
  predicate Shaped(u: Bytes, width: nat) {
    u != [] && LeadWidth(u[0]) == width && !IsCont(u[0]) && forall i :: 1 <= i < |u| ==> IsCont(u[i])
  }

  lemma EncodeShaped(c: Scalar)
    ensures Shaped(Encode(c), Width(c))
  {
    hide LeadWidth, IsCont, Octet;
    var u := Encode(c);
    Classes(u[0]);
    forall i | 1 <= i < |u|
      ensures IsCont(u[i])
    {
      Classes(u[i]);
    }
  }

  lemma {:induction false} EncodeAllConcat(a: seq<Scalar>, b: seq<Scalar>)
    ensures EncodeAll(a + b) == EncodeAll(a) + EncodeAll(b)
    decreases |a|
  {
    hide Encode;
    if a == [] {
      assert a + b == b;
    } else {
      assert (a + b)[0] == a[0] && (a + b)[1..] == a[1..] + b;
      EncodeAllConcat(a[1..], b);
    }
  }

  lemma EncodeOne(c: Scalar)
    ensures EncodeAll([c]) == Encode(c)
  {
    assert [c][1..] == [];
    assert Encode(c) + [] == Encode(c);
  }

  // ----- a decoder -----

  function Low6(b: bv8): int { b as int - 0x80 }

  /** The code point a well-formed u of this width spells. */
  function Spelled(u: Bytes): int
    requires u != []
  {
    match |u|
    case 1 => u[0] as int
    case 2 => (u[0] as int - 0xC0) * 64 + Low6(u[1])
    case 3 => (u[0] as int - 0xE0) * 4096 + Low6(u[1]) * 64 + Low6(u[2])
    case 4 => (u[0] as int - 0xF0) * 262144 + Low6(u[1]) * 4096 + Low6(u[2]) * 64 + Low6(u[3])
    case _ => -1
  }

  lemma SpelledOfEncode(c: Scalar)
    ensures Spelled(Encode(c)) == c
  {
    hide Octet;
    assert c / 4096 == c / 64 / 64 && c / 262144 == c / 4096 / 64;
  }

  /** A decoder; U+FFFD stands for a byte no code point starts at. */
  function Decode(b: Bytes): seq<Scalar>
    decreases |b|
  {
    if b == [] then []
    else
      var w := LeadWidth(b[0]);
      if w == 0 || w > |b| then [0xFFFD] + Decode(b[1..])
      else
        var c := Spelled(b[..w]);
        if 0 <= c < 0xD800 || 0xE000 <= c < 0x110000 then [c] + Decode(b[w..])
        else [0xFFFD] + Decode(b[1..])
  }

  lemma {:induction false} DecodeOfEncodeAll(text: seq<Scalar>)
    ensures Decode(EncodeAll(text)) == text
  {
    hide Encode, LeadWidth, Spelled;
    if text != [] {
      var u, rest := Encode(text[0]), EncodeAll(text[1..]);
      var b := u + rest;
      EncodeShaped(text[0]);
      SpelledOfEncode(text[0]);
      assert b[0] == u[0] && b[..|u|] == u && b[|u|..] == rest;
      DecodeOfEncodeAll(text[1..]);
    }
  }

  /** What a decoder must do: undo the encoder. */
  ghost predicate Faithful(decode: Bytes -> seq<Scalar>) {
    forall text :: decode(EncodeAll(text)) == text
  }

  lemma DecodeIsFaithful()
    ensures Faithful(Decode)
  {
    forall text
      ensures Decode(EncodeAll(text)) == text
    {
      DecodeOfEncodeAll(text);
    }
  }

  // ----- prefixes -----

  predicate PrefixOf(x: Bytes, y: Bytes) { |x| <= |y| && x == y[..|x|] }

  /** The start of a code point, not the whole of it. */
  ghost predicate Partial(part: Bytes) {
    part == [] || exists c: Scalar :: |part| < Width(c) && PrefixOf(part, Encode(c))
  }

  lemma PartialIsShort(part: Bytes)
    requires Partial(part)
    ensures |part| <= 3
  {
  }

  lemma PrefixBehind(x: Bytes, u: Bytes, rest: Bytes)
    requires PrefixOf(x, u + rest) && |x| >= |u|
    ensures x == u + x[|u|..] && PrefixOf(x[|u|..], rest)
  {
    assert (u + rest)[..|u|] == u && x[..|u|] == u;
    assert (u + rest)[|u|..] == rest;
  }

  /** A prefix of encoded text is some whole code points and the start of one. */
  lemma {:induction false} PrefixSplits(x: Bytes, text: seq<Scalar>) returns (k: nat, part: Bytes)
    requires PrefixOf(x, EncodeAll(text))
    ensures k <= |text| && x == EncodeAll(text[..k]) + part && Partial(part)
    ensures part != [] ==> k < |text|
    decreases |text|
  {
    hide Encode;
    if x == [] || text == [] { return 0, []; }
    var u, rest := Encode(text[0]), EncodeAll(text[1..]);
    if |x| < |u| {
      assert x == u[..|x|];
      assert PrefixOf(x, Encode(text[0]));
      return 0, x;
    }
    var y := x[|u|..];
    PrefixBehind(x, u, rest);
    k, part := PrefixSplits(y, text[1..]);
    assert text[..k + 1][0] == text[0] && text[..k + 1][1..] == text[1..][..k];
    assert x == u + (EncodeAll(text[1..][..k]) + part);
    k := k + 1;
  }
}
