/** The member header of a gzip stream (section 2.3 of RFC 1952). */
module GzipHeader {
  import opened Common

  predicate Flag(p: Bytes, mask: bv8)
    requires |p| >= 10
  {
    p[3] & mask != 0
  }

  predicate Fixed(p: Bytes) { |p| >= 10 && p[0] == 0x1f && p[1] == 0x8b && p[2] == 8 }

  /** A length-prefixed field when `present`, nothing otherwise. */
  predicate Extra(p: Bytes, present: bool, i: nat, j: nat) {
    if !present then i == j <= |p|
    else i + 2 <= j <= |p| && j == i + 2 + p[i] as int + 256 * p[i + 1] as int
  }

  /** A zero-terminated string when `present`, nothing otherwise. */
  predicate Text(p: Bytes, present: bool, i: nat, j: nat) {
    if !present then i == j <= |p|
    else i < j <= |p| && p[j - 1] == 0 && forall k :: i <= k < j - 1 ==> p[k] != 0
  }

  /** FEXTRA ends at a, FNAME at b, FCOMMENT at c and FHCRC at n. */
  predicate Layout(p: Bytes, a: nat, b: nat, c: nat, n: nat) {
    && Fixed(p)
    && Extra(p, Flag(p, 0x04), 10, a) && Text(p, Flag(p, 0x08), a, b) && Text(p, Flag(p, 0x10), b, c)
    && n == (if Flag(p, 0x02) then c + 2 else c) && n <= |p|
  }

  /** The first n bytes of p are a whole header. */
  ghost predicate IsHeader(p: Bytes, n: nat) { exists a, b, c :: Layout(p, a, b, c, n) }

  ghost predicate HasHeader(p: Bytes) { exists n :: IsHeader(p, n) }

  lemma TextEndsOnce(p: Bytes, present: bool, i: nat, j: nat, k: nat)
    requires Text(p, present, i, j) && Text(p, present, i, k)
    ensures j == k
  {
  }

  lemma LayoutUnique(p: Bytes, a: nat, b: nat, c: nat, n: nat, a': nat, b': nat, c': nat, n': nat)
    requires Layout(p, a, b, c, n) && Layout(p, a', b', c', n')
    ensures n == n'
  {
    assert a == a';
    TextEndsOnce(p, Flag(p, 0x08), a, b, b');
    TextEndsOnce(p, Flag(p, 0x10), b, c, c');
  }

  /** Headers are prefix-free: no byte string starts with two of them. */
  lemma HeaderUnique(p: Bytes, n: nat, n': nat)
    requires IsHeader(p, n) && IsHeader(p, n')
    ensures n == n' && 10 <= n <= |p|
  {
    var a, b, c :| Layout(p, a, b, c, n);
    var a', b', c' :| Layout(p, a', b', c', n');
    LayoutUnique(p, a, b, c, n, a', b', c', n');
  }

  lemma LayoutStable(p: Bytes, more: Bytes, a: nat, b: nat, c: nat, n: nat)
    requires Layout(p, a, b, c, n)
    ensures Layout(p + more, a, b, c, n)
  {
  }

  /** A header stays one when bytes are appended, so parseGzipHeader's non-zero
      answer is final. */
  lemma HeaderStable(p: Bytes, more: Bytes, n: nat)
    requires IsHeader(p, n)
    ensures IsHeader(p + more, n)
  {
    var a, b, c :| Layout(p, a, b, c, n);
    LayoutStable(p, more, a, b, c, n);
  }

  /** A header that ends within x is a header of x. */
  lemma HeaderWithin(x: Bytes, more: Bytes, n: nat)
    requires IsHeader(x + more, n) && n <= |x|
    ensures IsHeader(x, n)
  {
    var a, b, c :| Layout(x + more, a, b, c, n);
    LayoutWithin(x, more, a, b, c, n);
  }

  lemma LayoutWithin(x: Bytes, more: Bytes, a: nat, b: nat, c: nat, n: nat)
    requires Layout(x + more, a, b, c, n) && n <= |x|
    ensures Layout(x, a, b, c, n)
  {
    hide Text, Extra;
    var p := x + more;
    assert 10 <= a <= b <= c by { Ordered(p, a, b, c); }
    assert x == p[..|x|];
    ExtraWithin(x, more, Flag(x, 0x04), 10, a);
    TextWithin(x, more, Flag(x, 0x08), a, b);
    TextWithin(x, more, Flag(x, 0x10), b, c);
  }

  lemma Ordered(p: Bytes, a: nat, b: nat, c: nat)
    requires |p| >= 10 && Extra(p, Flag(p, 0x04), 10, a) && Text(p, Flag(p, 0x08), a, b) && Text(p, Flag(p, 0x10), b, c)
    ensures 10 <= a <= b <= c
  {
  }

  lemma ExtraWithin(x: Bytes, more: Bytes, present: bool, i: nat, j: nat)
    requires Extra(x + more, present, i, j) && j <= |x|
    ensures Extra(x, present, i, j)
  {
  }

  lemma TextWithin(x: Bytes, more: Bytes, present: bool, i: nat, j: nat)
    requires Text(x + more, present, i, j) && j <= |x|
    ensures Text(x, present, i, j)
  {
    forall k | i <= k < j - 1
      ensures present ==> x[k] != 0
    {
      assert (x + more)[k] == x[k];
    }
  }

  /** Two wrong bytes at the start can never be mended. */
  lemma BadMagicIsFinal(p: Bytes, more: Bytes)
    requires |p| >= 2 && (p[0] != 0x1f || p[1] != 0x8b)
    ensures !HasHeader(p + more)
  {
  }

  /** parseGzipHeader: the length of the header p starts with, 0 when it starts
      with none. */
  method ParseGzipHeader(p: Bytes) returns (off: nat)
    ensures off == 0 <==> !HasHeader(p)
    ensures off != 0 ==> IsHeader(p, off)
  {
    hide *;
    NoFixed(p);
    if |p| < 10 { return 0; }
    if p[0] != 0x1f || p[1] != 0x8b { return 0; }
    if p[2] != 8 { return 0; }
    off := 10;
    if Flag(p, 0x04) {
      NoExtra(p);
      if off + 2 > |p| { return 0; }
      off := off + 2 + (p[off] as int + 256 * p[off + 1] as int);
      if off > |p| { return 0; }
    }
    ghost var a := off;
    ExtraEnds(p, a);
    if Flag(p, 0x08) {
      off := SkipText(p, off);
      NoName(p, a, off);
      if off >= |p| { return 0; }
      off := off + 1;
    }
    ghost var b := off;
    TextEnds(p, Flag(p, 0x08), a, b);
    if Flag(p, 0x10) {
      off := SkipText(p, off);
      NoComment(p, a, b, off);
      if off >= |p| { return 0; }
      off := off + 1;
    }
    ghost var c := off;
    TextEnds(p, Flag(p, 0x10), b, c);
    NoCheck(p, a, b, c);
    if Flag(p, 0x02) {
      if off + 2 > |p| { return 0; }
      off := off + 2;
    }
    WholeHeader(p, a, b, c, off);
  }

  lemma NoFixed(p: Bytes)
    ensures HasHeader(p) ==> |p| >= 10 && p[0] == 0x1f && p[1] == 0x8b && p[2] == 8
  {
  }

  lemma NoExtra(p: Bytes)
    requires |p| >= 10 && Flag(p, 0x04)
    ensures HasHeader(p) ==> 12 <= |p| && 12 + p[10] as int + 256 * p[11] as int <= |p|
  {
    hide Flag;
  }

  lemma ExtraEnds(p: Bytes, a: nat)
    requires |p| >= 10 && a <= |p|
    requires a == if Flag(p, 0x04) then if |p| >= 12 then 12 + p[10] as int + 256 * p[11] as int else 0 else 10
    requires a >= 10
    ensures Extra(p, Flag(p, 0x04), 10, a)
  {
  }

  /** SkipText ran to `off` from i. */
  predicate Skipped(p: Bytes, i: nat, off: nat) {
    i <= off <= |p| && (forall k :: i <= k < off ==> p[k] != 0) && (off < |p| ==> p[off] == 0)
  }

  lemma TextEnds(p: Bytes, present: bool, i: nat, j: nat)
    requires if present then i < j <= |p| && Skipped(p, i, j - 1) else i == j <= |p|
    ensures Text(p, present, i, j)
  {
  }

  lemma NoText(p: Bytes, i: nat, j: nat)
    requires Skipped(p, i, |p|)
    ensures !Text(p, true, i, j)
  {
  }

  lemma NoName(p: Bytes, a: nat, off: nat)
    requires |p| >= 10 && Flag(p, 0x08) && Extra(p, Flag(p, 0x04), 10, a) && Skipped(p, a, off)
    ensures off == |p| ==> !HasHeader(p)
  {
    hide Flag, Text;
    if off == |p| {
      forall a', b, c, n
        ensures !Layout(p, a', b, c, n)
      {
        NoText(p, a, b);
      }
    }
  }

  lemma NoComment(p: Bytes, a: nat, b: nat, off: nat)
    requires |p| >= 10 && Flag(p, 0x10) && Extra(p, Flag(p, 0x04), 10, a) && Text(p, Flag(p, 0x08), a, b)
    requires Skipped(p, b, off)
    ensures off == |p| ==> !HasHeader(p)
  {
    hide Flag, Text;
    if off == |p| {
      forall a', b', c, n
        ensures !Layout(p, a', b', c, n)
      {
        if Layout(p, a', b', c, n) {
          TextEndsOnce(p, Flag(p, 0x08), a, b, b');
          NoText(p, b, c);
        }
      }
    }
  }

  lemma NoCheck(p: Bytes, a: nat, b: nat, c: nat)
    requires |p| >= 10 && Extra(p, Flag(p, 0x04), 10, a) && Text(p, Flag(p, 0x08), a, b) && Text(p, Flag(p, 0x10), b, c)
    ensures Flag(p, 0x02) && c + 2 > |p| ==> !HasHeader(p)
  {
    hide Flag, Text;
    forall a', b', c', n
      ensures Layout(p, a', b', c', n) ==> c' == c
    {
      if Layout(p, a', b', c', n) {
        TextEndsOnce(p, Flag(p, 0x08), a, b, b');
        TextEndsOnce(p, Flag(p, 0x10), b, c, c');
      }
    }
  }

  lemma WholeHeader(p: Bytes, a: nat, b: nat, c: nat, n: nat)
    requires |p| >= 10 && p[0] == 0x1f && p[1] == 0x8b && p[2] == 8
    requires Extra(p, Flag(p, 0x04), 10, a) && Text(p, Flag(p, 0x08), a, b) && Text(p, Flag(p, 0x10), b, c)
    requires n == (if Flag(p, 0x02) then c + 2 else c) && n <= |p|
    ensures HasHeader(p) && IsHeader(p, n)
  {
    hide Flag, Text, Extra;
    assert Layout(p, a, b, c, n);
    assert IsHeader(p, n);
  }

  method SkipText(p: Bytes, from: nat) returns (off: nat)
    requires from <= |p|
    ensures Skipped(p, from, off)
  {
    off := from;
    while off < |p| && p[off] != 0
      invariant from <= off <= |p| && forall k :: from <= k < off ==> p[k] != 0
    {
      off := off + 1;
    }
  }
}
