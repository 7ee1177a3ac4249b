/** The formats written out: what a gzip header is, which trailers a decompressor accepts,
    and what a compressor puts around the deflated data.
 */
module CodecMeaning {
  import opened Common
  import opened Octets
  import opened GzipHeader
  import opened Inflate
  import opened Codec

  // ----- the member header -----

  /** The parts of a header: its flags, the six bytes nobody looks at, and the optional
      parts. */
  datatype Parts = Parts(flags: bv8, six: Bytes, extra: Option<Bytes>, name: Option<Bytes>,
                         comment: Option<Bytes>, check: Option<Bytes>)

  predicate Proper(f: Parts) {
    && |f.six| == 6
    && (f.flags & 4 != 0 <==> f.extra.Some?) && (f.extra.Some? ==> |f.extra.value| < 65536)
    && (f.flags & 8 != 0 <==> f.name.Some?) && (f.name.Some? ==> 0 !in f.name.value)
    && (f.flags & 16 != 0 <==> f.comment.Some?) && (f.comment.Some? ==> 0 !in f.comment.value)
    && (f.flags & 2 != 0 <==> f.check.Some?) && (f.check.Some? ==> |f.check.value| == 2)
  }

  /** Two bytes of length in front. */
  function Lengthed(extra: Option<Bytes>): Bytes
    requires extra.Some? ==> |extra.value| < 65536
  {
    match extra
    case None => []
    case Some(b) => [(|b| % 256) as bv8, (|b| / 256) as bv8] + b
  }

  /** A zero byte behind. */
  function Ended0(text: Option<Bytes>): Bytes { if text.Some? then text.value + [0] else [] }

  function Bare(check: Option<Bytes>): Bytes { if check.Some? then check.value else [] }

  function Written(f: Parts): Bytes
    requires Proper(f)
  {
    [0x1f, 0x8b, 8, f.flags] + f.six + Lengthed(f.extra) + Ended0(f.name) + Ended0(f.comment) + Bare(f.check)
  }

  lemma LengthBack(n: nat)
    requires n < 65536
    ensures n / 256 < 256 && ((n % 256) as bv8) as int + 256 * ((n / 256) as bv8) as int == n
  {
    ByteOfInt(n % 256);
    ByteOfInt(n / 256);
  }

  lemma LengthedIsExtra(p: Bytes, i: nat, extra: Option<Bytes>)
    requires extra.Some? ==> |extra.value| < 65536
    requires i + |Lengthed(extra)| <= |p| && p[i..i + |Lengthed(extra)|] == Lengthed(extra)
    ensures Extra(p, extra.Some?, i, i + |Lengthed(extra)|)
  {
    hide Lengthed;
    LengthBytes(extra);
    var l := Lengthed(extra);
    if extra.Some? { assert p[i] == p[i..i + |l|][0] && p[i + 1] == p[i..i + |l|][1]; }
  }

  lemma LengthBytes(extra: Option<Bytes>)
    requires extra.Some? ==> |extra.value| < 65536
    ensures var l := Lengthed(extra);
      if extra.Some? then |l| == 2 + |extra.value| && l[0] as int + 256 * l[1] as int == |extra.value| else l == []
  {
    if extra.Some? { LengthBack(|extra.value|); }
  }

  lemma EndedIsText(p: Bytes, i: nat, text: Option<Bytes>)
    requires text.Some? ==> 0 !in text.value
    requires i + |Ended0(text)| <= |p| && p[i..i + |Ended0(text)|] == Ended0(text)
    ensures Text(p, text.Some?, i, i + |Ended0(text)|)
  {
    if text.Some? {
      var e := Ended0(text);
      assert p[i..i + |e|][|e| - 1] == p[i + |e| - 1];
      forall k | i <= k < i + |e| - 1
        ensures p[k] != 0
      {
        assert p[i..i + |e|][k - i] == p[k] == text.value[k - i];
      }
    }
  }

  lemma Sections(a: Bytes, b: Bytes, c: Bytes, d: Bytes, e: Bytes)
    ensures var p := a + b + c + d + e;
            var i, j, k := |a| + |b|, |a| + |b| + |c|, |a| + |b| + |c| + |d|;
      && |p| == k + |e| && p[..|a|] == a && p[|a|..i] == b && p[i..j] == c && p[j..k] == d && p[k..] == e
  {
  }

  lemma WrittenIsHeader(f: Parts)
    requires Proper(f)
    ensures IsHeader(Written(f), |Written(f)|)
  {
    hide Lengthed, Ended0, Extra, Text, Bare, Written, IsHeader, Layout;
    var p := Written(f);
    var l, n, c := Lengthed(f.extra), Ended0(f.name), Ended0(f.comment);
    WrittenSections(f);
    HeadBytes(p, f.flags, f.six);
    LengthedIsExtra(p, 10, f.extra);
    EndedIsText(p, 10 + |l|, f.name);
    EndedIsText(p, 10 + |l| + |n|, f.comment);
    BareLength(f.check);
    LaidOut(f, p, 10 + |l|, 10 + |l| + |n|, 10 + |l| + |n| + |c|);
  }

  lemma WrittenSections(f: Parts)
    requires Proper(f)
    ensures var p, l, n, c := Written(f), Lengthed(f.extra), Ended0(f.name), Ended0(f.comment);
            var i, j, k := 10 + |l|, 10 + |l| + |n|, 10 + |l| + |n| + |c|;
      && |p| == k + |Bare(f.check)| && p[..10] == [0x1f, 0x8b, 8, f.flags] + f.six
      && p[10..i] == l && p[i..j] == n && p[j..k] == c
  {
    hide Lengthed, Ended0, Bare;
    var head := [0x1f, 0x8b, 8, f.flags] + f.six;
    assert |head| == 10;
    Sections(head, Lengthed(f.extra), Ended0(f.name), Ended0(f.comment), Bare(f.check));
  }

  lemma HeadBytes(p: Bytes, flags: bv8, six: Bytes)
    requires |six| == 6 && |p| >= 10 && p[..10] == [0x1f, 0x8b, 8, flags] + six
    ensures p[0] == 0x1f && p[1] == 0x8b && p[2] == 8 && p[3] == flags
  {
    assert p[0] == p[..10][0] && p[1] == p[..10][1] && p[2] == p[..10][2] && p[3] == p[..10][3];
  }

  lemma BareLength(check: Option<Bytes>)
    ensures |Bare(check)| == if check.Some? then |check.value| else 0
  {
  }

  lemma LaidOut(f: Parts, p: Bytes, a: nat, b: nat, c: nat)
    requires Proper(f) && |p| >= 10 && p[0] == 0x1f && p[1] == 0x8b && p[2] == 8 && p[3] == f.flags
    requires Extra(p, f.extra.Some?, 10, a) && Text(p, f.name.Some?, a, b) && Text(p, f.comment.Some?, b, c)
    requires |p| == c + if f.check.Some? then 2 else 0
    ensures IsHeader(p, |p|)
  {
    hide Extra, Text;
    assert Layout(p, a, b, c, |p|);
  }

  lemma ExtraIsLengthed(p: Bytes, present: bool, i: nat, j: nat) returns (extra: Option<Bytes>)
    requires Extra(p, present, i, j)
    ensures (present <==> extra.Some?) && (extra.Some? ==> |extra.value| < 65536) && i <= j <= |p|
    ensures p[i..j] == Lengthed(extra)
  {
    if !present { return None; }
    var b := p[i + 2..j];
    var low, high := p[i] as int, p[i + 1] as int;
    assert |b| == low + 256 * high;
    assert |b| % 256 == low && |b| / 256 == high;
    SameByte(p[i], low);
    SameByte(p[i + 1], high);
    assert p[i..j] == [p[i], p[i + 1]] + b;
    return Some(b);
  }

  lemma SameByte(x: bv8, n: nat)
    requires n == x as int
    ensures n < 256 && n as bv8 == x
  {
  }

  lemma TextIsEnded(p: Bytes, present: bool, i: nat, j: nat) returns (text: Option<Bytes>)
    requires Text(p, present, i, j)
    ensures (present <==> text.Some?) && (text.Some? ==> 0 !in text.value) && i <= j <= |p|
    ensures p[i..j] == Ended0(text)
  {
    if !present { return None; }
    var t := p[i..j - 1];
    assert p[i..j] == t + [p[j - 1]];
    return Some(t);
  }

  lemma HeaderParts(p: Bytes, n: nat) returns (f: Parts)
    requires IsHeader(p, n)
    ensures n <= |p| && Proper(f) && Written(f) == p[..n]
  {
    hide Lengthed, Ended0, Extra, Text;
    var a: nat, b: nat, c: nat :| Layout(p, a, b, c, n);
    var extra := ExtraIsLengthed(p, Flag(p, 0x04), 10, a);
    var name := TextIsEnded(p, Flag(p, 0x08), a, b);
    var comment := TextIsEnded(p, Flag(p, 0x10), b, c);
    var check := if Flag(p, 0x02) then Some(p[c..n]) else None;
    f := Parts(p[3], p[4..10], extra, name, comment, check);
    assert p[..10] == [0x1f, 0x8b, 8, p[3]] + p[4..10];
    Slices(p, a, b, c, n);
    assert Bare(check) == p[c..n];
  }

  lemma Slices(p: Bytes, a: nat, b: nat, c: nat, n: nat)
    requires 10 <= a <= b <= c <= n <= |p|
    ensures p[..n] == p[..10] + p[10..a] + p[a..b] + p[b..c] + p[c..n]
  {
    assert p[..a] == p[..10] + p[10..a];
    assert p[..b] == p[..a] + p[a..b];
    assert p[..c] == p[..b] + p[b..c];
  }

  /** A string starts with a header of n bytes if and only if its first n bytes are magic,
      method, flags, six bytes and the parts the flags announce, in order. */
  lemma HeaderIsWritten(p: Bytes, n: nat)
    ensures IsHeader(p, n) <==> n <= |p| && exists f :: Proper(f) && Written(f) == p[..n]
  {
    hide Proper, Written, IsHeader;
    if IsHeader(p, n) {
      var f := HeaderParts(p, n);
    } else if n <= |p| && exists f :: Proper(f) && Written(f) == p[..n] {
      var f :| Proper(f) && Written(f) == p[..n];
      WrittenIsHeader(f);
      assert p[..n] + p[n..] == p && |p[..n]| == n;
      HeaderStable(p[..n], p[n..], n);
    }
  }

  // ----- the trailer -----

  /** The checksum after each byte. */
  ghost predicate Sums(lib: Lib, data: Bytes, w: seq<Word>) {
    |w| == |data| + 1 && w[0] == lib.crcInit && forall i :: 0 <= i < |data| ==> w[i + 1] == lib.crc(w[i], data[i])
  }

  lemma {:induction false} CrcIsLast(lib: Lib, data: Bytes, w: seq<Word>)
    requires Sums(lib, data, w)
    ensures Crc(lib, lib.crcInit, data) == w[|data|]
  {
    if data != [] { CrcIsLast(lib, data[..|data| - 1], w[..|data|]); }
  }

  /** CRC32 and length, four bytes each, the lowest first. */
  predicate Trails(t: Bytes, crc: nat, length: nat) {
    && |t| == 8
    && t[0] as int + 256 * t[1] as int + 65536 * t[2] as int + 16777216 * t[3] as int == crc
    && t[4] as int + 256 * t[5] as int + 65536 * t[6] as int + 16777216 * t[7] as int == length % 4294967296
  }

  lemma TrailsIsGood(lib: Lib, made: Bytes, w: seq<Word>, t: Bytes)
    requires Sums(lib, made, w)
    ensures GoodTrailer(lib, Gzip, made, t) <==> Trails(t, w[|made|], |made|)
  {
    hide Crc;
    CrcIsLast(lib, made, w);
    if |t| == 8 {
      assert t[..4][0] == t[0] && t[..4][1] == t[1] && t[..4][2] == t[2] && t[..4][3] == t[3];
      assert t[4..][0] == t[4] && t[4..][1] == t[5] && t[4..][2] == t[6] && t[4..][3] == t[7];
    }
  }

  lemma DecodedParts(lib: Lib, format: Format, h: Bytes, z: Bytes, made: Bytes, t: Bytes)
    requires if format.Gzip? then IsHeader(h, |h|) else h == []
    requires Feed(lib.inflater, [], z) == Ended(made, [])
    ensures Decoded(lib, format, h + z + t) == if GoodTrailer(lib, format, made, t) then Some(made) else None
  {
    hide *;
    FeedConcat(lib.inflater, [], z, t);
    var input := h + z + t;
    assert [] + t == t && input == h + (z + t);
    HeaderThen(format, h, z + t);
    EndedThen(lib, z, made, t);
    DecodedOf(lib, format, input, z + t, made, t);
  }

  lemma EndedThen(lib: Lib, z: Bytes, made: Bytes, t: Bytes)
    requires Feed(lib.inflater, [], z) == Ended(made, [])
    ensures Feed2(lib.inflater, [], z, t) == Ended(made, t)
  {
    hide Feed;
    assert [] + t == t;
  }

  lemma DecodedOf(lib: Lib, format: Format, input: Bytes, rest: Bytes, made: Bytes, t: Bytes)
    requires HasStart(format, input) && input[StartOf(format, input)..] == rest
    requires Feed(lib.inflater, [], rest) == Ended(made, t)
    ensures Decoded(lib, format, input) == if GoodTrailer(lib, format, made, t) then Some(made) else None
  {
    hide Feed, GoodTrailer, HasStart, StartOf;
  }

  /** The stream begins behind the header. */
  lemma HeaderThen(format: Format, h: Bytes, rest: Bytes)
    requires if format.Gzip? then IsHeader(h, |h|) else h == []
    ensures HasStart(format, h + rest) && (h + rest)[StartOf(format, h + rest)..] == rest
  {
    hide IsHeader;
    var input := h + rest;
    if format.Gzip? {
      HeaderStable(h, rest, |h|);
      HeaderUnique(input, |h|, HeaderLength(input));
      assert input[|h|..] == rest;
    } else {
      assert input == rest && input[0..] == rest;
    }
  }

  /** However a gzip member is cut into pieces that fit, it is decompressed to what the
      inflater makes of the data if and only if eight bytes follow with the checksum and
      the length of that, and it is refused otherwise. */
  lemma GzipMeaning(lib: Lib, h: Bytes, z: Bytes, made: Bytes, t: Bytes, w: seq<Word>, chunks: seq<Bytes>)
    requires IsHeader(h, |h|) && Feed(lib.inflater, [], z) == Ended(made, []) && Sums(lib, made, w)
    requires Concat(chunks) == h + z + t && Fits(Gzip, [], chunks)
    ensures Decompress(lib, Gzip, chunks) == if Trails(t, w[|made|], |made|) then Some(made) else None
  {
    hide Decompress, Decoded, Fits, IsHeader, Feed, Sums, GoodTrailer, Trails;
    DecompressIsDecoded(lib, Gzip, chunks);
    DecodedParts(lib, Gzip, h, z, made, t);
    TrailsIsGood(lib, made, w, t);
  }

  /** In the other formats nothing may follow. */
  lemma PlainMeaning(lib: Lib, format: Format, z: Bytes, made: Bytes, t: Bytes, chunks: seq<Bytes>)
    requires !format.Gzip? && Feed(lib.inflater, [], z) == Ended(made, [])
    requires Concat(chunks) == z + t && Fits(format, [], chunks)
    ensures Decompress(lib, format, chunks) == if t == [] then Some(made) else None
  {
    hide Decompress, Decoded, Fits, Feed;
    DecompressIsDecoded(lib, format, chunks);
    DecodedParts(lib, format, [], z, made, t);
    assert [] + z + t == z + t;
  }

  ghost predicate Headless(format: Format, h: Bytes, z: Bytes) {
    format.Gzip? && h == [] && forall n :: !IsHeader(z, n)
  }

  /** A stream that breaks or does not end, and a gzip member without a header, is refused. */
  lemma BrokenMeaning(lib: Lib, format: Format, h: Bytes, z: Bytes, chunks: seq<Bytes>)
    requires Concat(chunks) == h + z && Fits(format, [], chunks)
    requires Headless(format, h, z)
      || (!Feed(lib.inflater, [], z).Ended? && if format.Gzip? then IsHeader(h, |h|) else h == [])
    ensures Decompress(lib, format, chunks) == None
  {
    hide Decompress, Fits, Feed, IsHeader;
    DecompressIsDecoded(lib, format, chunks);
    var input := h + z;
    assert h == [] ==> input == z && input[0..] == z;
    if !Headless(format, h, z) { HeaderThen(format, h, z); }
  }

  // ----- what comes out when -----

  /** The pushes alone: the state they lead to and what they have given out. */
  ghost function Pushed(lib: Lib, c: Inflating, chunks: seq<Bytes>): Outcome<Inflating>
    decreases |chunks|
  {
    if chunks == [] then Gave(c, [])
    else
      match Push(lib, c, chunks[0])
      case Threw => Threw
      case Gave(c', out) =>
        match Pushed(lib, c', chunks[1..])
        case Threw => Threw
        case Gave(c'', more) => Gave(c'', out + more)
  }

  lemma {:induction false} PushedStands(lib: Lib, format: Format, x: Bytes, o: Bytes, c: Inflating, chunks: seq<Bytes>)
    requires Stands(lib, format, x, o, c) && Fits(format, x, chunks) && Pushed(lib, c, chunks).Gave?
    ensures var p := Pushed(lib, c, chunks); Stands(lib, format, x + Concat(chunks), o + p.out, p.state)
    decreases |chunks|
  {
    hide Stands, Push, Offered;
    if chunks == [] {
      assert x + Concat(chunks) == x && o + [] == o;
    } else {
      PushStands(lib, format, x, o, c, chunks[0]);
      var p := Push(lib, c, chunks[0]);
      PushedStands(lib, format, x + chunks[0], o + p.out, p.state, chunks[1..]);
      var q := Pushed(lib, p.state, chunks[1..]);
      assert x + Concat(chunks) == x + chunks[0] + Concat(chunks[1..]);
      assert o + (p.out + q.out) == o + p.out + q.out;
    }
  }

  /** Nothing is held back: what the pushes have given out so far is all the inflater makes
      of what they brought, behind the header. */
  lemma OutputIsPrompt(lib: Lib, format: Format, chunks: seq<Bytes>)
    requires Fits(format, [], chunks) && Pushed(lib, Fresh(lib, format), chunks).Gave?
    ensures var o, x := Pushed(lib, Fresh(lib, format), chunks).out, Concat(chunks);
      if HasStart(format, x) then
        var f := Feed(lib.inflater, [], x[StartOf(format, x)..]);
        !f.Faulted? && f.made == o
      else o == []
  {
    hide Feed, Push, Fits;
    NothingStands(lib, format);
    PushedStands(lib, format, [], [], Fresh(lib, format), chunks);
    var p := Pushed(lib, Fresh(lib, format), chunks);
    assert [] + Concat(chunks) == Concat(chunks) && [] + p.out == p.out;
  }

  /** Two wrong bytes at the front are refused by the push that brings the second. */
  lemma MagicIsCheckedAtOnce(lib: Lib, c: Inflating, chunk: Bytes)
    requires c.format.Gzip? && !c.closed && !c.finished && !c.headerDone
    requires var x := c.hdr + chunk; |x| >= 2 && !(x[0] == 0x1f && x[1] == 0x8b)
    ensures Push(lib, c, chunk) == Threw
  {
    var x := c.hdr + chunk;
    BadMagicIsFinal(x, []);
    assert x + [] == x;
  }

  /** A codec that has finished takes no more. */
  lemma FinishedIsClosed(lib: Lib, c: Inflating, chunk: Bytes)
    requires Finish(c).Gave?
    ensures Finish(Finish(c).state) == Threw && Push(lib, Finish(c).state, chunk) == Threw
  {
    hide Pump;
  }
}
