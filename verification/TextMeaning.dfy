/** UTF-8 and UTF-16 with their constants written out, and where a streamed decoder cuts,
    whatever the bytes.
 */
module TextMeaning {
  import opened Common
  import opened Octets
  import opened Utf8
  import opened TextDecoder
  import opened TextEncoder

  // ----- UTF-8 -----

  /** The ends of the four lengths and of the surrogates' gap. */
  lemma EncodeAtTheEnds()
    ensures Encode(0) == [0x00] && Encode(0x7F) == [0x7F]
    ensures Encode(0x80) == [0xC2, 0x80] && Encode(0x7FF) == [0xDF, 0xBF]
    ensures Encode(0x800) == [0xE0, 0xA0, 0x80] && Encode(0xFFFF) == [0xEF, 0xBF, 0xBF]
    ensures Encode(0xD7FF) == [0xED, 0x9F, 0xBF] && Encode(0xE000) == [0xEE, 0x80, 0x80]
    ensures Encode(0x10000) == [0xF0, 0x90, 0x80, 0x80] && Encode(0x10FFFF) == [0xF4, 0x8F, 0xBF, 0xBF]
  {
    ShortEnds();
    ThreeEnds();
    FourEnds();
  }

  lemma ShortEnds()
    ensures Encode(0) == [0x00] && Encode(0x7F) == [0x7F]
    ensures Encode(0x80) == [0xC2, 0x80] && Encode(0x7FF) == [0xDF, 0xBF]
  {
    hide Octet;
    OctetIs(0x00, 0x00);
    OctetIs(0x7F, 0x7F);
    OctetIs(0xC2, 0xC2);
    OctetIs(0x80, 0x80);
    OctetIs(0xDF, 0xDF);
    OctetIs(0xBF, 0xBF);
  }

  lemma ThreeEnds()
    ensures Encode(0x800) == [0xE0, 0xA0, 0x80] && Encode(0xFFFF) == [0xEF, 0xBF, 0xBF]
    ensures Encode(0xD7FF) == [0xED, 0x9F, 0xBF] && Encode(0xE000) == [0xEE, 0x80, 0x80]
  {
    hide Octet;
    OctetIs(0xE0, 0xE0);
    OctetIs(0xA0, 0xA0);
    OctetIs(0x80, 0x80);
    OctetIs(0xEF, 0xEF);
    OctetIs(0xBF, 0xBF);
    OctetIs(0xED, 0xED);
    OctetIs(0x9F, 0x9F);
    OctetIs(0xEE, 0xEE);
  }

  lemma FourEnds()
    ensures Encode(0x10000) == [0xF0, 0x90, 0x80, 0x80] && Encode(0x10FFFF) == [0xF4, 0x8F, 0xBF, 0xBF]
  {
    hide Octet;
    OctetIs(0xF0, 0xF0);
    OctetIs(0x90, 0x90);
    OctetIs(0x80, 0x80);
    OctetIs(0xF4, 0xF4);
    OctetIs(0x8F, 0x8F);
    OctetIs(0xBF, 0xBF);
  }

  lemma OctetIs(n: nat, b: bv8)
    requires n < 256 && b as int == n
    ensures Octet(n) == b
  {
    ByteInjective(Octet(n), b);
  }

  /** a is in front of b byte by byte. */
  predicate Before(a: Bytes, b: Bytes, k: nat) {
    k < |a| && k < |b| && a[..k] == b[..k] && a[k] as int < b[k] as int
  }

  /** UTF-8 sorts as the code points do, and behind the first byte of a code point there are
      only bytes from 0x80 to 0xBF. */
  lemma EncodeSorts(c: Scalar, d: Scalar) returns (k: nat)
    requires c < d
    ensures Before(Encode(c), Encode(d), k)
    ensures forall i :: 1 <= i < |Encode(c)| ==> 0x80 <= Encode(c)[i] as int < 0xC0
  {
    hide *;
    EncodedInts(c);
    EncodedInts(d);
    IntsSort(c, d);
    k := Sorts(Encode(c), Encode(d), Ints(c), Ints(d));
  }

  /** The bytes as numbers. */
  function Ints(c: Scalar): seq<int> {
    var c1, c2 := c / 64, c / 64 / 64;
    if c < 0x80 then [c]
    else if c < 0x800 then [0xC0 + c1, 0x80 + c % 64]
    else if c < 0x10000 then [0xE0 + c2, 0x80 + c1 % 64, 0x80 + c % 64]
    else [0xF0 + c2 / 64, 0x80 + c2 % 64, 0x80 + c1 % 64, 0x80 + c % 64]
  }

  lemma IntsSort(c: Scalar, d: Scalar)
    requires c < d
    ensures Less(Ints(c), Ints(d))
  {
    hide Ints;
    IntsAre(c);
    IntsAre(d);
    if c >= 0x80 && Width(c) == Width(d) { SameWidth(c, d); }
  }

  lemma IntsAre(c: Scalar)
    ensures var s := Ints(c);
      && |s| == Width(c) && (Width(c) == 1 ==> s[0] == c < 0xC0) && (Width(c) == 2 ==> 0xC0 <= s[0] < 0xE0)
      && (Width(c) == 3 ==> 0xE0 <= s[0] < 0xF0) && (Width(c) == 4 ==> 0xF0 <= s[0])
  {
  }

  lemma SameWidth(c: Scalar, d: Scalar)
    requires c < d && c >= 0x80 && Width(c) == Width(d)
    ensures Less(Ints(c), Ints(d))
  {
    SixBits(c, d);
    if Width(c) == 2 {
      LessTwo(0xC0 + c / 64, c % 64, 0xC0 + d / 64, d % 64);
    } else if Width(c) == 3 {
      SixBits(c / 64, d / 64);
      LessThree(0xE0, c, d);
    } else {
      SixBits(c / 64, d / 64);
      SixBits(c / 64 / 64, d / 64 / 64);
      LessFour(c, d);
    }
  }

  lemma LessTwo(p: int, q: int, p': int, q': int)
    requires p < p' || (p == p' && q < q')
    ensures Less([p, 0x80 + q], [p', 0x80 + q'])
  {
    assert [p, 0x80 + q][1..] == [0x80 + q] && [p', 0x80 + q'][1..] == [0x80 + q'];
  }

  lemma LessThree(base: int, c: nat, d: nat)
    requires c / 64 < d / 64 || (c / 64 == d / 64 && c % 64 < d % 64)
    requires c / 64 < d / 64 ==>
      c / 64 / 64 < d / 64 / 64 || (c / 64 / 64 == d / 64 / 64 && c / 64 % 64 < d / 64 % 64)
    ensures Less([base + c / 64 / 64, 0x80 + c / 64 % 64, 0x80 + c % 64],
                 [base + d / 64 / 64, 0x80 + d / 64 % 64, 0x80 + d % 64])
  {
    LessDigits(base + c / 64 / 64, 0x80 + c / 64 % 64, 0x80 + c % 64,
               base + d / 64 / 64, 0x80 + d / 64 % 64, 0x80 + d % 64);
  }

  lemma LessDigits(p: int, q: int, r: int, p': int, q': int, r': int)
    requires p < p' || (p == p' && (q < q' || (q == q' && r < r')))
    ensures Less([p, q, r], [p', q', r'])
  {
    assert [p, q, r][1..] == [q, r] && [p', q', r'][1..] == [q', r'] && [q, r][1..] == [r] && [q', r'][1..] == [r'];
    assert q == q' && r < r' ==> Less([r], [r']) && Less([q, r], [q', r']);
  }

  lemma LessFour(c: nat, d: nat)
    requires c / 64 < d / 64 || (c / 64 == d / 64 && c % 64 < d % 64)
    requires c / 64 < d / 64 ==>
      c / 64 / 64 < d / 64 / 64 || (c / 64 / 64 == d / 64 / 64 && c / 64 % 64 < d / 64 % 64)
    requires c / 64 / 64 < d / 64 / 64 ==>
      c / 64 / 64 / 64 < d / 64 / 64 / 64
      || (c / 64 / 64 / 64 == d / 64 / 64 / 64 && c / 64 / 64 % 64 < d / 64 / 64 % 64)
    ensures Less([0xF0 + c / 64 / 64 / 64, 0x80 + c / 64 / 64 % 64, 0x80 + c / 64 % 64, 0x80 + c % 64],
                 [0xF0 + d / 64 / 64 / 64, 0x80 + d / 64 / 64 % 64, 0x80 + d / 64 % 64, 0x80 + d % 64])
  {
    var x := [0xF0 + c / 64 / 64 / 64, 0x80 + c / 64 / 64 % 64, 0x80 + c / 64 % 64, 0x80 + c % 64];
    var y := [0xF0 + d / 64 / 64 / 64, 0x80 + d / 64 / 64 % 64, 0x80 + d / 64 % 64, 0x80 + d % 64];
    assert x[1..] == [x[1], x[2], x[3]] && y[1..] == [y[1], y[2], y[3]];
    if x[0] == y[0] { LessDigits(x[1], x[2], x[3], y[1], y[2], y[3]); }
  }

  /** x is in front of y, entry by entry. */
  predicate Less(x: seq<int>, y: seq<int>) {
    x != [] && y != [] && (x[0] < y[0] || (x[0] == y[0] && Less(x[1..], y[1..])))
  }

  lemma {:induction false} Sorts(a: Bytes, b: Bytes, x: seq<int>, y: seq<int>) returns (k: nat)
    requires |a| == |x| && |b| == |y| && Less(x, y)
    requires (forall i :: 0 <= i < |a| ==> a[i] as int == x[i]) && forall i :: 0 <= i < |b| ==> b[i] as int == y[i]
    ensures Before(a, b, k)
    decreases |x|
  {
    if x[0] < y[0] {
      k := 0;
    } else {
      k := Sorts(a[1..], b[1..], x[1..], y[1..]);
      ByteInjective(a[0], b[0]);
      assert a[..k + 1] == [a[0]] + a[1..][..k] && b[..k + 1] == [b[0]] + b[1..][..k];
      k := k + 1;
    }
  }

  lemma EncodedInts(c: Scalar)
    ensures |Encode(c)| == |Ints(c)| && forall i :: 0 <= i < |Encode(c)| ==> Encode(c)[i] as int == Ints(c)[i]
    ensures forall i :: 1 <= i < |Encode(c)| ==> 0x80 <= Encode(c)[i] as int < 0xC0
  {
    hide Octet;
    assert c / 4096 == c / 64 / 64 && c / 262144 == c / 64 / 64 / 64;
  }

  lemma SixBits(c: nat, d: nat)
    ensures c < d ==> c / 64 < d / 64 || (c / 64 == d / 64 && c % 64 < d % 64)
    ensures c <= d ==> c / 64 <= d / 64
  {
  }

  // ----- the cut -----

  /** k bytes that start a code point of more. */
  predicate StartsLonger(b: Bytes, k: nat)
    requires 0 < k <= |b|
  {
    var x := b[|b| - k] as int;
    && (forall i :: |b| - k < i < |b| ==> 0x80 <= b[i] as int < 0xC0)
    && (if k == 1 then 0xC0 <= x < 0xF8 else if k == 2 then 0xE0 <= x < 0xF8 else k == 3 && 0xF0 <= x < 0xF8)
  }

  /** Whatever the bytes, a streaming call keeps the last k of them if and only if they are
      one to three bytes that start a longer code point. */
  lemma CutIs(pending: Bytes, input: Bytes, k: nat)
    requires k > 0
    ensures |Kept(pending, input, true)| == k <==> k <= |pending + input| && StartsLonger(pending + input, k)
  {
    hide CutFrom, StartsLonger;
    var b := pending + input;
    KeptIsCut(pending, input);
    CutTable(b);
    if k <= |b| { Starts(b, k); }
  }

  lemma KeptIsCut(pending: Bytes, input: Bytes)
    ensures |Kept(pending, input, true)| == CutFrom(pending + input, 1)
  {
    hide CutFrom;
  }

  predicate Cont(b: bv8) { 0x80 <= b as int < 0xC0 }

  lemma CutStepIs(b: Bytes, i: nat)
    requires 1 <= i <= 4 && i <= |b|
    ensures var x := b[|b| - i] as int;
      CutFrom(b, i) ==
      if Cont(b[|b| - i]) then CutFrom(b, i + 1)
      else if (0xC0 <= x < 0xE0 && i < 2) || (0xE0 <= x < 0xF0 && i < 3) || (0xF0 <= x < 0xF8 && i < 4) then i else 0
  {
    hide CutFrom;
    CutStep(b, i);
    Classes(b[|b| - i]);
  }

  lemma CutEnds(b: Bytes, i: nat)
    requires 1 <= i && (i > 4 || i > |b|)
    ensures CutFrom(b, i) == 0
  {
  }

  /** The scan, written out. */
  lemma CutTable(b: Bytes)
    ensures var n, cut := |b|, CutFrom(b, 1);
      && (cut == 1 <==> n >= 1 && 0xC0 <= b[n - 1] as int < 0xF8)
      && (cut == 2 <==> n >= 2 && Cont(b[n - 1]) && 0xE0 <= b[n - 2] as int < 0xF8)
      && (cut == 3 <==> n >= 3 && Cont(b[n - 1]) && Cont(b[n - 2]) && 0xF0 <= b[n - 3] as int < 0xF8)
      && cut <= 3
  {
    hide CutFrom;
    if |b| >= 1 { CutStepIs(b, 1); } else { CutEnds(b, 1); }
    if |b| >= 2 { CutStepIs(b, 2); } else { CutEnds(b, 2); }
    if |b| >= 3 { CutStepIs(b, 3); } else { CutEnds(b, 3); }
    if |b| >= 4 { CutStepIs(b, 4); } else { CutEnds(b, 4); }
    CutEnds(b, 5);
  }

  lemma Starts(b: Bytes, k: nat)
    requires 0 < k <= |b|
    ensures var n := |b|;
      StartsLonger(b, k) <==>
        || (k == 1 && 0xC0 <= b[n - 1] as int < 0xF8)
        || (k == 2 && Cont(b[n - 1]) && 0xE0 <= b[n - 2] as int < 0xF8)
        || (k == 3 && Cont(b[n - 1]) && Cont(b[n - 2]) && 0xF0 <= b[n - 3] as int < 0xF8)
  {
    var n := |b|;
    if k >= 2 { assert n - k < n - 1 < n; }
  }

  // ----- UTF-16 -----

  /** What a text starts with: a pair of surrogates is one code point, a surrogate without
      its other half is U+FFFD, and any other unit is itself. */
  lemma ScalarsStart(str: seq<Unit>)
    requires str != []
    ensures var u := str[0];
            var paired := 0xD800 <= u <= 0xDBFF && |str| > 1 && 0xDC00 <= str[1] <= 0xDFFF;
      Scalars(str) ==
      if paired then [0x10000 + (u - 0xD800) * 0x400 + (str[1] - 0xDC00)] + Scalars(str[2..])
      else if 0xD800 <= u <= 0xDFFF then [0xFFFD] + Scalars(str[1..])
      else [u] + Scalars(str[1..])
  {
  }
}
