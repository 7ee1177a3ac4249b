/** The gzip, zlib and raw codec shell around the inflater and deflater. */
module Codec {
  import opened Arith
  import opened Common
  import opened Octets
  import opened GzipHeader
  import opened Inflate

  datatype Format = Gzip | Zlib | Raw

  const TWO32 := 0x1_0000_0000

  const TWO64 := 0x1_0000_0000_0000_0000

  type Word = w: int | 0 <= w < TWO32

  /** What the codec gets from miniz, for the window bits of its format. mz_crc32 is
      a fold over the bytes. `deflate` is what the compressor puts out for the last
      of the pieces it was fed, or, with true, for the end of them. */
  datatype Lib = Lib(
    inflater: Inflater, deflate: (seq<Bytes>, bool) -> Bytes, crc: (Word, bv8) -> Word, crcInit: Word)

  function Crc(lib: Lib, c: Word, data: Bytes): Word {
    if data == [] then c else lib.crc(Crc(lib, c, data[..|data| - 1]), data[|data| - 1])
  }

  lemma {:induction false} CrcConcat(lib: Lib, c: Word, a: Bytes, b: Bytes)
    ensures Crc(lib, c, a + b) == Crc(lib, Crc(lib, c, a), b)
  {
    if b == [] {
      assert a + b == a;
    } else {
      var n := |b| - 1;
      CrcConcat(lib, c, a, b[..n]);
      assert (a + b)[..|a + b| - 1] == a + b[..n];
    }
  }

  lemma SumMod(a: nat, b: nat)
    ensures (a % TWO64 + b) % TWO64 == (a + b) % TWO64
    ensures a % TWO64 % TWO32 == a % TWO32
  {
  }

  /** Four bytes, least significant first. */
  function Little(t: Bytes): (w: Word)
    requires |t| == 4
  {
    t[0] as int + 256 * t[1] as int + 65536 * t[2] as int + 16777216 * t[3] as int
  }

  function ByteAt(w: Word, k: nat): bv8
    requires k < 4
  {
    (w / [1, 256, 65536, 16777216][k] % 256) as bv8
  }

  function LittleBytes(w: Word): (r: Bytes)
    ensures |r| == 4
  {
    [ByteAt(w, 0), ByteAt(w, 1), ByteAt(w, 2), ByteAt(w, 3)]
  }

  lemma LittleBytesBack(w: Word)
    ensures Little(LittleBytes(w)) == w
  {
    ByteOfInt(w % 256);
    ByteOfInt(w / 256 % 256);
    ByteOfInt(w / 65536 % 256);
    ByteOfInt(w / 16777216 % 256);
    Digits(w);
  }

  lemma Digits(w: Word)
    ensures w % 256 + 256 * (w / 256 % 256) + 65536 * (w / 65536 % 256) + 16777216 * (w / 16777216 % 256) == w
  {
    assert w / 65536 == w / 256 / 256 && w / 16777216 == w / 65536 / 256;
  }

  // ----- decompression, a call at a time -----

  /** The fields of CodecState a decompressor uses; `past` is what the stream ate. */
  datatype Inflating = Inflating(
    format: Format, hdr: Bytes, headerDone: bool, past: Bytes, finished: bool,
    trailer: Bytes, crcOut: Word, totalOut: nat, closed: bool)

  datatype Outcome<+S> = Threw | Gave(state: S, out: Bytes)

  function Fresh(lib: Lib, format: Format): Inflating {
    Inflating(format, [], false, [], false, [], lib.crcInit, 0, false)
  }

  /** avail_in is a 32-bit count, so longer input is cut to its length modulo 2^32. */
  function Low32(input: Bytes): Bytes { input[..|input| % TWO32] }

  function Count(lib: Lib, c: Inflating, made: Bytes): Inflating {
    c.(crcOut := if c.format.Gzip? then Crc(lib, c.crcOut, made) else c.crcOut,
       totalOut := (c.totalOut + |made|) % TWO64)
  }

  function Pump(lib: Lib, c: Inflating, input: Bytes): Outcome<Inflating> {
    match Feed(lib.inflater, c.past, input)
    case Faulted => Threw
    case Going(made) => Gave(Count(lib, c, made).(past := c.past + input), made)
    case Ended(made, rest) =>
      if !c.format.Gzip? && rest != [] then Threw
      else Gave(Count(lib, c, made).(past := [], finished := true, trailer := c.trailer + rest), made)
  }

  ghost function HeaderLength(p: Bytes): (n: nat)
    requires HasHeader(p)
    ensures IsHeader(p, n) && 10 <= n <= |p|
  {
    var n :| IsHeader(p, n);
    HeaderUnique(p, n, n);
    n
  }

  predicate BadMagic(p: Bytes) { |p| >= 2 && (p[0] != 0x1f || p[1] != 0x8b) }

  ghost function Push(lib: Lib, c: Inflating, chunk: Bytes): Outcome<Inflating> {
    if c.closed then Threw
    else if c.finished then
      if c.format.Gzip? then Gave(c.(trailer := c.trailer + chunk), [])
      else if chunk != [] then Threw
      else Gave(c, [])
    else if c.format.Gzip? && !c.headerDone then
      var c := c.(hdr := c.hdr + chunk);
      if HasHeader(c.hdr) then Pump(lib, c.(headerDone := true), Low32(c.hdr[HeaderLength(c.hdr)..]))
      else if BadMagic(c.hdr) then Threw
      else Gave(c, [])
    else Pump(lib, c, Low32(chunk))
  }

  function Finish(c: Inflating): Outcome<Inflating> {
    if c.closed || !c.finished then Threw
    else if c.format.Gzip? &&
            (|c.trailer| != 8 || Little(c.trailer[..4]) != c.crcOut || Little(c.trailer[4..]) != c.totalOut % TWO32)
    then Threw
    else Gave(c.(closed := true), [])
  }

  /** The chunks pushed in order and then finish; a call that throws ends it all. */
  ghost function RunFrom(lib: Lib, c: Inflating, chunks: seq<Bytes>): Option<Bytes>
    decreases |chunks|
  {
    if chunks == [] then if Finish(c).Gave? then Some(Finish(c).out) else None
    else
      match Push(lib, c, chunks[0])
      case Threw => None
      case Gave(c', out) =>
        AfterOut(out, RunFrom(lib, c', chunks[1..]))
  }

  function AfterOut(out: Bytes, r: Option<Bytes>): Option<Bytes> {
    match r
    case None => None
    case Some(more) => Some(out + more)
  }

  ghost function Decompress(lib: Lib, format: Format, chunks: seq<Bytes>): Option<Bytes> {
    RunFrom(lib, Fresh(lib, format), chunks)
  }

  // ----- what the whole input means -----

  ghost predicate HasStart(format: Format, input: Bytes) { format.Gzip? ==> HasHeader(input) }

  /** Where the deflate or zlib stream begins. */
  ghost function StartOf(format: Format, input: Bytes): (n: nat)
    requires HasStart(format, input)
    ensures n <= |input|
  {
    if format.Gzip? then HeaderLength(input) else 0
  }

  /** What must be left after the stream: nothing, or CRC32 and ISIZE. */
  predicate GoodTrailer(lib: Lib, format: Format, made: Bytes, rest: Bytes) {
    if format.Gzip? then
      |rest| == 8 && Little(rest[..4]) == Crc(lib, lib.crcInit, made) && Little(rest[4..]) == |made| % TWO32
    else rest == []
  }

  /** The meaning of a byte string in a format: what it decompresses to, if it is
      well formed. No chunks, no state. */
  ghost function Decoded(lib: Lib, format: Format, input: Bytes): Option<Bytes> {
    if !HasStart(format, input) then None
    else
      match Feed(lib.inflater, [], input[StartOf(format, input)..])
      case Ended(made, rest) => if GoodTrailer(lib, format, made, rest) then Some(made) else None
      case _ => None
  }

  // ----- chunking does not matter -----

  /** The state after pushing x and giving out o. */
  ghost predicate Stands(lib: Lib, format: Format, x: Bytes, o: Bytes, c: Inflating) {
    && c.format == format && !c.closed
    && c.crcOut == (if format.Gzip? then Crc(lib, lib.crcInit, o) else lib.crcInit) && c.totalOut == |o| % TWO64
    && if format.Gzip? && !c.headerDone then
         c == Fresh(lib, format).(hdr := x) && o == [] && !HasHeader(x)
       else
         HasStart(format, x) && match Feed(lib.inflater, [], x[StartOf(format, x)..])
           case Going(made) => made == o && !c.finished && c.trailer == [] && c.past == x[StartOf(format, x)..]
           case Ended(made, rest) => made == o && c.finished && c.trailer == rest && (!format.Gzip? ==> rest == [])
           case Faulted => false
  }

  /** A call leads to where x and o stand, or x can no longer become well formed. */
  ghost predicate Leads(lib: Lib, format: Format, x: Bytes, o: Bytes, p: Outcome<Inflating>) {
    match p
    case Threw => forall more :: Decoded(lib, format, x + more) == None
    case Gave(c, out) => Stands(lib, format, x, o + out, c)
  }

  lemma StartStable(format: Format, x: Bytes, more: Bytes)
    requires HasStart(format, x)
    ensures HasStart(format, x + more) && StartOf(format, x + more) == StartOf(format, x)
    ensures (x + more)[StartOf(format, x)..] == x[StartOf(format, x)..] + more
  {
    if format.Gzip? {
      var n := HeaderLength(x);
      HeaderStable(x, more, n);
      HeaderUnique(x + more, n, HeaderLength(x + more));
    }
  }

  lemma CountConcat(lib: Lib, c: Inflating, o: Bytes, made: Bytes)
    requires c.crcOut == (if c.format.Gzip? then Crc(lib, lib.crcInit, o) else lib.crcInit) && c.totalOut == |o| % TWO64
    ensures var c' := Count(lib, c, made);
      && c'.crcOut == (if c.format.Gzip? then Crc(lib, lib.crcInit, o + made) else lib.crcInit)
      && c'.totalOut == |o + made| % TWO64
  {
    CrcConcat(lib, lib.crcInit, o, made);
    SumMod(|o|, |made|);
  }

  /** A pump from where the stream stands. */
  lemma PumpStands(lib: Lib, x: Bytes, o: Bytes, c: Inflating, input: Bytes)
    requires HasStart(c.format, x) && !c.closed && !c.finished && c.trailer == [] && (c.format.Gzip? ==> c.headerDone)
    requires c.crcOut == (if c.format.Gzip? then Crc(lib, lib.crcInit, o) else lib.crcInit) && c.totalOut == |o| % TWO64
    requires x[StartOf(c.format, x)..] == c.past + input && Feed(lib.inflater, [], c.past) == Going(o)
    ensures Leads(lib, c.format, x, o, Pump(lib, c, input))
  {
    hide HasStart, StartOf, Crc, Decoded, Feed, Count;
    FeedConcat(lib.inflater, [], c.past, input);
    assert [] + c.past == c.past;
    var p := Pump(lib, c, input);
    if p.Gave? {
      CountConcat(lib, c, o, p.out);
      CountKeeps(lib, c, p.out);
    } else {
      forall more
        ensures Decoded(lib, c.format, x + more) == None
      {
        BadStays(lib, c.format, x, more);
      }
    }
  }

  lemma CountKeeps(lib: Lib, c: Inflating, made: Bytes)
    ensures Count(lib, c, made).(crcOut := c.crcOut, totalOut := c.totalOut) == c
  {
  }

  lemma BadStays(lib: Lib, format: Format, x: Bytes, more: Bytes)
    requires HasStart(format, x)
    requires var f := Feed(lib.inflater, [], x[StartOf(format, x)..]);
      f.Faulted? || (f.Ended? && f.rest != [] && !format.Gzip?)
    ensures Decoded(lib, format, x + more) == None
  {
    hide StartOf, HasStart, Feed;
    StartStable(format, x, more);
    FeedConcat(lib.inflater, [], x[StartOf(format, x)..], more);
  }

  /** How many bytes a push of chunk after x offers the stream, if it is not over. */
  ghost function Offered(format: Format, x: Bytes, chunk: Bytes): nat {
    if HasStart(format, x) then |chunk|
    else if HasStart(format, x + chunk) then |x + chunk| - StartOf(format, x + chunk)
    else 0
  }

  /** Every push after x offers the stream less than 2^32 bytes. */
  ghost predicate Fits(format: Format, x: Bytes, chunks: seq<Bytes>)
    decreases |chunks|
  {
    chunks != [] ==> Offered(format, x, chunks[0]) < TWO32 && Fits(format, x + chunks[0], chunks[1..])
  }

  lemma PushStands(lib: Lib, format: Format, x: Bytes, o: Bytes, c: Inflating, chunk: Bytes)
    requires Stands(lib, format, x, o, c) && Offered(format, x, chunk) < TWO32
    ensures Leads(lib, format, x + chunk, o, Push(lib, c, chunk))
  {
    hide Decoded, Crc, Pump, Feed, HeaderLength;
    var y := x + chunk;
    if format.Gzip? && !c.headerDone {
      HeaderPushStands(lib, x, c, chunk);
    } else {
      StartStable(format, x, chunk);
      FeedConcat(lib.inflater, [], x[StartOf(format, x)..], chunk);
      if c.finished {
        assert o + [] == o;
        forall more
          ensures !format.Gzip? && chunk != [] ==> Decoded(lib, format, y + more) == None
        {
          if !format.Gzip? && chunk != [] { BadStays(lib, format, y, more); }
        }
      } else {
        PumpStands(lib, y, o, c, chunk);
        assert Low32(chunk) == chunk;
      }
    }
  }

  lemma HeaderPushStands(lib: Lib, x: Bytes, c: Inflating, chunk: Bytes)
    requires Stands(lib, Gzip, x, [], c) && !c.headerDone && Offered(Gzip, x, chunk) < TWO32
    ensures Leads(lib, Gzip, x + chunk, [], Push(lib, c, chunk))
  {
    hide Decoded, Crc, Pump, HasHeader;
    var y := x + chunk;
    if HasHeader(y) {
      var input := y[HeaderLength(y)..];
      assert Low32(input) == input && [] + input == input;
      EmptyCrc(lib);
      PumpStands(lib, y, [], c.(hdr := y, headerDone := true), input);
    } else if BadMagic(y) {
      forall more
        ensures Decoded(lib, Gzip, y + more) == None
      {
        BadMagicIsFinal(y, more);
        NoStart(lib, y + more);
      }
    } else {
      EmptyCrc(lib);
      var p := Push(lib, c, chunk);
      assert p.state == Fresh(lib, Gzip).(hdr := y) && [] + p.out == [];
    }
  }

  lemma EmptyCrc(lib: Lib)
    ensures Crc(lib, lib.crcInit, []) == lib.crcInit
  {
  }

  lemma NoStart(lib: Lib, input: Bytes)
    requires !HasHeader(input)
    ensures Decoded(lib, Gzip, input) == None
  {
  }

  lemma FinishIsMeaning(lib: Lib, format: Format, x: Bytes, o: Bytes, c: Inflating)
    requires Stands(lib, format, x, o, c)
    ensures Decoded(lib, format, x) == if Finish(c).Gave? then Some(o) else None
    ensures Finish(c).Gave? ==> Finish(c).out == []
  {
    hide Crc, Feed, Little, HeaderLength;
    SumMod(|o|, 0);
  }

  lemma {:induction false} RunIsMeaning(lib: Lib, format: Format, x: Bytes, o: Bytes, c: Inflating, chunks: seq<Bytes>)
    requires Stands(lib, format, x, o, c) && Fits(format, x, chunks)
    ensures Decoded(lib, format, x + Concat(chunks)) == AfterOut(o, RunFrom(lib, c, chunks))
    decreases |chunks|
  {
    hide Decoded, Stands, Push, Finish;
    if chunks == [] {
      assert x + Concat(chunks) == x && o + [] == o;
      FinishIsMeaning(lib, format, x, o, c);
    } else {
      var rest := Concat(chunks[1..]);
      assert x + Concat(chunks) == x + chunks[0] + rest;
      PushStands(lib, format, x, o, c, chunks[0]);
      var p := Push(lib, c, chunks[0]);
      if p.Gave? {
        RunIsMeaning(lib, format, x + chunks[0], o + p.out, p.state, chunks[1..]);
        assert forall more: Bytes :: o + p.out + more == o + (p.out + more);
      }
    }
  }

  /** However long the input is and however it is cut, as long as every piece fits,
      pushing the pieces and finishing accepts exactly the well-formed inputs and gives
      out exactly what they decompress to. */
  lemma DecompressIsDecoded(lib: Lib, format: Format, chunks: seq<Bytes>)
    requires Fits(format, [], chunks)
    ensures Decompress(lib, format, chunks) == Decoded(lib, format, Concat(chunks))
  {
    hide RunFrom, Decoded;
    assert Stands(lib, format, [], [], Fresh(lib, format)) by { NothingStands(lib, format); }
    RunIsMeaning(lib, format, [], [], Fresh(lib, format), chunks);
    assert [] + Concat(chunks) == Concat(chunks) && forall more: Bytes :: [] + more == more;
  }

  lemma NothingStands(lib: Lib, format: Format)
    ensures Stands(lib, format, [], [], Fresh(lib, format))
  {
    NoHeaderInNothing();
  }

  lemma NoHeaderInNothing()
    ensures !HasHeader([])
  {
  }

  /** Any two ways of cutting one input reach one verdict and one output. */
  lemma ChunkingDoesNotMatter(lib: Lib, format: Format, chunks: seq<Bytes>, others: seq<Bytes>)
    requires Concat(chunks) == Concat(others) && Fits(format, [], chunks) && Fits(format, [], others)
    ensures Decompress(lib, format, chunks) == Decompress(lib, format, others)
  {
    hide Decompress, Decoded;
    DecompressIsDecoded(lib, format, chunks);
    DecompressIsDecoded(lib, format, others);
  }

  /** Pieces of less than 2^32 bytes always fit. */
  lemma {:induction false} ShortPiecesFit(format: Format, x: Bytes, chunks: seq<Bytes>)
    requires AllShort(chunks)
    ensures Fits(format, x, chunks)
    decreases |chunks|
  {
    hide HasStart, StartOf;
    if chunks != [] {
      OfferedIsNoMore(format, x, chunks[0]);
      ShortPiecesFit(format, x + chunks[0], chunks[1..]);
    }
  }

  predicate AllShort(chunks: seq<Bytes>) { forall k :: 0 <= k < |chunks| ==> |chunks[k]| < TWO32 }

  /** The header ends behind x if x does not have one. */
  lemma OfferedIsNoMore(format: Format, x: Bytes, chunk: Bytes)
    ensures Offered(format, x, chunk) <= |chunk|
  {
    var y := x + chunk;
    if !HasStart(format, x) && HasStart(format, y) && StartOf(format, y) <= |x| {
      HeaderWithin(x, chunk, StartOf(format, y));
    }
  }

  // ----- pieces that do not fit -----

  /** A deflate stream of n bytes that makes `made` with its last one. */
  function Counting(n: nat, made: Bytes): Inflater {
    (past: Bytes, b: bv8) => if |past| + 1 == n then End(made) else More([])
  }

  lemma {:induction false} CountingGoes(n: nat, made: Bytes, past: Bytes, input: Bytes)
    requires |past| + |input| < n
    ensures Feed(Counting(n, made), past, input) == Going([])
    decreases |input|
  {
    if input != [] { CountingGoes(n, made, past + [input[0]], input[1..]); }
  }

  lemma {:induction false} CountingEnds(n: nat, made: Bytes, past: Bytes, input: Bytes)
    requires |past| < n <= |past| + |input|
    ensures Feed(Counting(n, made), past, input) == Ended(made, input[n - |past|..])
    decreases |input|
  {
    if |past| + 1 < n {
      CountingEnds(n, made, past + [input[0]], input[1..]);
      assert input[1..][n - |past| - 1..] == input[n - |past|..];
      AfterAfter([], [], Ended(made, input[n - |past|..]));
    }
  }

  /** The stream stands `lost` bytes behind what was pushed. */
  ghost predicate Behind(format: Format, x: Bytes, c: Inflating, lost: nat) {
    && c.format == format && !c.closed && !c.finished
    && if format.Gzip? && !c.headerDone then c.hdr == x && c.past == [] && !HasHeader(x) && lost == 0
       else HasStart(format, x) && |c.past| + lost == |x| - StartOf(format, x)
  }

  lemma LowIsShorter(input: Bytes)
    ensures |Low32(input)| <= |input|
    ensures |input| < TWO32 ==> Low32(input) == input
    ensures |input| >= TWO32 ==> |Low32(input)| + TWO32 <= |input|
  {
    assert |input| == |input| / TWO32 * TWO32 + |input| % TWO32;
  }

  /** The piece a push offers the stream. */
  ghost function Piece(format: Format, x: Bytes, chunk: Bytes): (r: Bytes)
    ensures |r| == Offered(format, x, chunk)
  {
    if HasStart(format, x) then chunk
    else if HasStart(format, x + chunk) then (x + chunk)[StartOf(format, x + chunk)..]
    else []
  }

  /** A push that does not get as far as the stream's end loses what does not fit. */
  lemma PushLoses(lib: Lib, n: nat, made: Bytes, x: Bytes, c: Inflating, lost: nat, chunk: Bytes)
    requires lib.inflater == Counting(n, made) && Behind(c.format, x, c, lost)
    requires var p := Piece(c.format, x, chunk);
      HasStart(c.format, x + chunk) ==> |x + chunk| - StartOf(c.format, x + chunk) - lost - |p| + |Low32(p)| < n
    ensures var p := Piece(c.format, x, chunk);
            var r := Push(lib, c, chunk);
      r.Gave? ==> Behind(c.format, x + chunk, r.state, lost + |p| - |Low32(p)|)
  {
    hide Feed, Low32, HeaderLength, Count;
    var p := Piece(c.format, x, chunk);
    LowIsShorter(p);
    if HasStart(c.format, x) { StartStable(c.format, x, chunk); }
    if HasStart(c.format, x + chunk) {
      assert |c.past| + |Low32(p)| < n;
      CountingGoes(n, made, c.past, Low32(p));
      CountKeeps(lib, c, []);
      CountKeeps(lib, c.(hdr := c.hdr + chunk, headerDone := true), []);
    }
  }

  lemma {:induction false} NotFittingIsLong(format: Format, x: Bytes, chunks: seq<Bytes>)
    requires !Fits(format, x, chunks)
    ensures |Concat(chunks)| >= TWO32 && HasStart(format, x + Concat(chunks))
    ensures var all := x + Concat(chunks); |all| - StartOf(format, all) >= TWO32
    decreases |chunks|
  {
    hide HasStart, StartOf;
    var rest := Concat(chunks[1..]);
    OfferedIsNoMore(format, x, chunks[0]);
    assert x + Concat(chunks) == x + chunks[0] + rest;
    if Fits(format, x + chunks[0], chunks[1..]) {
      assert HasStart(format, x) || HasStart(format, x + chunks[0]);
      if HasStart(format, x) { StartStable(format, x, chunks[0]); }
      StartStable(format, x + chunks[0], rest);
    } else {
      NotFittingIsLong(format, x + chunks[0], chunks[1..]);
    }
  }

  /** With bytes lost, or still to be lost, the stream never ends. */
  lemma {:induction false} NeverEnds(lib: Lib, n: nat, made: Bytes, x: Bytes, c: Inflating, lost: nat,
                                   chunks: seq<Bytes>)
    requires lib.inflater == Counting(n, made) && Behind(c.format, x, c, lost)
    requires HasStart(c.format, x + Concat(chunks))
    requires var all := x + Concat(chunks); n + TWO32 > |all| - StartOf(c.format, all)
    requires lost >= TWO32 || !Fits(c.format, x, chunks)
    ensures RunFrom(lib, c, chunks) == None
    decreases |chunks|
  {
    hide HasStart, StartOf, Behind, Low32, Push, Piece, Offered;
    if chunks == [] {
      NotFinished(c, x, lost);
    } else {
      var p := Piece(c.format, x, chunks[0]);
      var y, rest := x + chunks[0], Concat(chunks[1..]);
      assert x + Concat(chunks) == y + rest;
      LowIsShorter(p);
      var lost' := lost + |p| - |Low32(p)|;
      if lost' < TWO32 { NotFittingIsLong(c.format, y, chunks[1..]); }
      if HasStart(c.format, y) { StartStable(c.format, y, rest); }
      PushLoses(lib, n, made, x, c, lost, chunks[0]);
      var r := Push(lib, c, chunks[0]);
      if r.Gave? {
        assert r.state.format == c.format by { FormatOfBehind(c.format, y, r.state, lost'); }
        NeverEnds(lib, n, made, y, r.state, lost', chunks[1..]);
      }
    }
  }

  lemma NotFinished(c: Inflating, x: Bytes, lost: nat)
    requires Behind(c.format, x, c, lost)
    ensures Finish(c).Threw?
  {
  }

  lemma FormatOfBehind(format: Format, x: Bytes, c: Inflating, lost: nat)
    requires Behind(format, x, c, lost)
    ensures c.format == format
  {
  }

  lemma NothingBehind(lib: Lib, format: Format)
    ensures Behind(format, [], Fresh(lib, format), 0)
  {
    NoHeaderInNothing();
  }

  ghost predicate Agrees(lib: Lib, format: Format, chunks: seq<Bytes>) {
    Decompress(lib, format, chunks) == Decoded(lib, format, Concat(chunks))
  }

  /** An inflater, a checksum and a checksum's start under which `input` is well formed
      and its deflate stream is all but the trailer. */
  ghost function LibFor(format: Format, input: Bytes): Lib
    requires HasStart(format, input) && |input| - StartOf(format, input) >= TWO32
  {
    var s := input[StartOf(format, input)..];
    if format.Gzip? then
      var crc := Little(s[|s| - 8..][..4]);
      var made := seq(Little(s[|s| - 8..][4..]), _ => 0);
      Lib(Counting(|s| - 8, made), (fed, last) => [], Constant(crc), crc)
    else Lib(Counting(|s|, []), (fed, last) => [], Constant(0), 0)
  }

  function Constant(c: Word): (Word, bv8) -> Word { (w: Word, b: bv8) => c }

  lemma ConstantCrc(lib: Lib, data: Bytes)
    requires lib.crc == Constant(lib.crcInit)
    ensures Crc(lib, lib.crcInit, data) == lib.crcInit
  {
  }

  lemma LibAccepts(format: Format, input: Bytes)
    requires HasStart(format, input) && |input| - StartOf(format, input) >= TWO32
    ensures Decoded(LibFor(format, input), format, input).Some?
  {
    hide Feed, Little, HasStart, StartOf, Crc;
    var lib := LibFor(format, input);
    var s := input[StartOf(format, input)..];
    ConstantCrc(lib, if format.Gzip? then seq(Little(s[|s| - 8..][4..]), _ => 0) else []);
    if format.Gzip? {
      CountingEnds(|s| - 8, seq(Little(s[|s| - 8..][4..]), _ => 0), [], s);
    } else {
      CountingEnds(|s|, [], [], s);
    }
  }

  /** The pieces fit if and only if, whatever the inflater and the checksum are, the
      cutting does not show: one piece of 2^32 bytes or more offered to the stream and
      some input is refused that is well formed. */
  lemma FitsExactlyWhenCuttingDoesNotShow(format: Format, chunks: seq<Bytes>)
    ensures Fits(format, [], chunks) <==> forall lib :: Agrees(lib, format, chunks)
  {
    hide Decompress, Decoded, Fits;
    if Fits(format, [], chunks) {
      forall lib
        ensures Agrees(lib, format, chunks)
      {
        DecompressIsDecoded(lib, format, chunks);
      }
    } else {
      ASecondReading(format, chunks);
    }
  }

  lemma ASecondReading(format: Format, chunks: seq<Bytes>)
    requires !Fits(format, [], chunks)
    ensures exists lib :: !Agrees(lib, format, chunks)
  {
    hide *;
    var input := Concat(chunks);
    assert [] + input == input;
    NotFittingIsLong(format, [], chunks);
    var lib := LibFor(format, input);
    LibAccepts(format, input);
    NothingBehind(lib, format);
    var n, made := LibCounts(format, input);
    NeverEnds(lib, n, made, [], Fresh(lib, format), 0, chunks);
    Disagrees(lib, format, chunks);
  }

  lemma LibCounts(format: Format, input: Bytes) returns (n: nat, made: Bytes)
    requires HasStart(format, input) && |input| - StartOf(format, input) >= TWO32
    ensures LibFor(format, input).inflater == Counting(n, made)
    ensures n + TWO32 > |input| - StartOf(format, input)
  {
    hide HasStart, StartOf, Counting;
    n := |input| - StartOf(format, input) - if format.Gzip? then 8 else 0;
    made :| LibFor(format, input).inflater == Counting(n, made);
  }

  lemma Disagrees(lib: Lib, format: Format, chunks: seq<Bytes>)
    requires Decoded(lib, format, Concat(chunks)).Some? && RunFrom(lib, Fresh(lib, format), chunks) == None
    ensures !Agrees(lib, format, chunks)
  {
    hide Decoded, RunFrom;
  }

  /** Beyond 2^32 - 1 bytes it does matter: junk behind a raw stream, of 2^32 bytes or
      a multiple, goes unseen in one chunk and is refused as a chunk of its own. */
  lemma LongChunkGoesUnseen(lib: Lib, z: Bytes, made: Bytes, junk: Bytes)
    requires Feed(lib.inflater, [], z) == Ended(made, []) && |z| < TWO32
    requires junk != [] && |junk| % TWO32 == 0
    ensures Decompress(lib, Raw, [z + junk]) == Some(made)
    ensures Decompress(lib, Raw, [z, junk]) == None
    ensures Decoded(lib, Raw, z + junk) == None
  {
    hide *;
    LowWhole(z, junk);
    LongChunkAccepted(lib, z, made, z + junk);
    CutChunkRefused(lib, z, made, junk);
    JunkBehind(lib, z, junk);
  }

  lemma LongChunkAccepted(lib: Lib, z: Bytes, made: Bytes, long: Bytes)
    requires Feed(lib.inflater, [], z) == Ended(made, []) && Low32(long) == z
    ensures Decompress(lib, Raw, [long]) == Some(made)
  {
    hide *;
    var c := WholeChunk(lib, z, made, long);
    OneChunk(lib, Fresh(lib, Raw), long);
    FinishRaw(c);
    assert made + [] == made;
    DecompressIs(lib, [long]);
  }

  lemma CutChunkRefused(lib: Lib, z: Bytes, made: Bytes, junk: Bytes)
    requires Feed(lib.inflater, [], z) == Ended(made, []) && Low32(z) == z && junk != []
    ensures Decompress(lib, Raw, [z, junk]) == None
  {
    hide *;
    var c := WholeChunk(lib, z, made, z);
    OneChunk(lib, c, junk);
    PushBehind(lib, c, junk);
    FirstChunk(lib, Fresh(lib, Raw), z, junk);
    DecompressIs(lib, [z, junk]);
  }

  lemma DecompressIs(lib: Lib, chunks: seq<Bytes>)
    ensures Decompress(lib, Raw, chunks) == RunFrom(lib, Fresh(lib, Raw), chunks)
  {
  }

  lemma WholeChunk(lib: Lib, z: Bytes, made: Bytes, chunk: Bytes) returns (c: Inflating)
    requires Feed(lib.inflater, [], z) == Ended(made, []) && Low32(chunk) == z
    ensures Push(lib, Fresh(lib, Raw), chunk) == Gave(c, made) && c.finished && c.format == Raw && !c.closed
  {
    hide Feed, Low32;
    c := Push(lib, Fresh(lib, Raw), chunk).state;
  }

  lemma FinishRaw(c: Inflating)
    requires c.finished && c.format == Raw && !c.closed
    ensures Finish(c).Gave? && Finish(c).out == []
  {
  }

  lemma PushBehind(lib: Lib, c: Inflating, junk: Bytes)
    requires c.finished && c.format == Raw && !c.closed && junk != []
    ensures Push(lib, c, junk).Threw?
  {
  }

  lemma LowWhole(z: Bytes, junk: Bytes)
    requires |z| < TWO32 && |junk| % TWO32 == 0
    ensures Low32(z + junk) == z && Low32(z) == z
  {
    ModUnique(|z| + |junk|, TWO32, |junk| / TWO32, |z|);
    assert (z + junk)[..|z|] == z;
  }

  lemma OneChunk(lib: Lib, c: Inflating, chunk: Bytes)
    ensures RunFrom(lib, c, [chunk]) ==
            if Push(lib, c, chunk).Threw? then None
            else if Finish(Push(lib, c, chunk).state).Threw? then None
            else Some(Push(lib, c, chunk).out + Finish(Push(lib, c, chunk).state).out)
  {
    hide Push, Finish;
    if Push(lib, c, chunk).Gave? {
      var c' := Push(lib, c, chunk).state;
      assert RunFrom(lib, c', []) == RunFrom(lib, c', [chunk][1..]);
    }
  }

  lemma FirstChunk(lib: Lib, c: Inflating, chunk: Bytes, next: Bytes)
    requires Push(lib, c, chunk).Gave? && RunFrom(lib, Push(lib, c, chunk).state, [next]) == None
    ensures RunFrom(lib, c, [chunk, next]) == None
  {
    hide Push, Finish;
    assert [chunk, next][1..] == [next];
  }

  lemma JunkBehind(lib: Lib, z: Bytes, junk: Bytes)
    requires Feed(lib.inflater, [], z).Ended? && Feed(lib.inflater, [], z).rest == [] && junk != []
    ensures Decoded(lib, Raw, z + junk) == None
  {
    hide Feed;
    FeedConcat(lib.inflater, [], z, junk);
    assert (z + junk)[0..] == z + junk;
  }
}
