/** The compressing side of the codec, and the way back through the other. */
module Compressor {
  import opened Common
  import opened GzipHeader
  import opened Inflate
  import opened Codec

  function GzHdr(): Bytes { [0x1f, 0x8b, 0x08, 0x00, 0x00, 0x00, 0x00, 0x00, 0x00, 0x03] }

  /** The fields of CodecState a compressor uses; `fed` is what the deflater got. */
  datatype Deflating = Deflating(
    format: Format, fed: seq<Bytes>, crcIn: Word, totalIn: nat, wroteGzipHeader: bool, closed: bool)

  function FreshPacker(lib: Lib, format: Format): Deflating { Deflating(format, [], lib.crcInit, 0, false, false) }

  function Header(c: Deflating): Bytes {
    if c.format.Gzip? && !c.wroteGzipHeader then GzHdr() else []
  }

  function Trailer(c: Deflating): Bytes {
    if c.format.Gzip? then LittleBytes(c.crcIn) + LittleBytes(c.totalIn % TWO32) else []
  }

  function PackPush(lib: Lib, c: Deflating, chunk: Bytes): Outcome<Deflating> {
    if c.closed then Threw
    else
      var c' := c.(wroteGzipHeader := c.wroteGzipHeader || c.format.Gzip?);
      if chunk == [] then Gave(c', Header(c))
      else
        var c' := c'.(crcIn := Crc(lib, c.crcIn, chunk), totalIn := (c.totalIn + |chunk|) % TWO64);
        if Low32(chunk) == [] then Gave(c', Header(c))
        else
          var fed := c.fed + [Low32(chunk)];
          Gave(c'.(fed := fed), Header(c) + lib.deflate(fed, false))
  }

  function PackFinish(lib: Lib, c: Deflating): Outcome<Deflating> {
    if c.closed then Threw
    else Gave(c.(wroteGzipHeader := c.wroteGzipHeader || c.format.Gzip?, closed := true),
              Header(c) + lib.deflate(c.fed, true) + Trailer(c))
  }

  function RunFrom(lib: Lib, c: Deflating, chunks: seq<Bytes>): Option<Bytes>
    decreases |chunks|
  {
    if chunks == [] then if PackFinish(lib, c).Gave? then Some(PackFinish(lib, c).out) else None
    else
      match PackPush(lib, c, chunks[0])
      case Threw => None
      case Gave(c', out) => AfterOut(out, RunFrom(lib, c', chunks[1..]))
  }

  function Compress(lib: Lib, format: Format, chunks: seq<Bytes>): Option<Bytes> {
    RunFrom(lib, FreshPacker(lib, format), chunks)
  }

  // ----- what the deflater is trusted for -----

  /** All it puts out for some more pieces and the end. */
  function Packed(lib: Lib, fed: seq<Bytes>, pieces: seq<Bytes>): Bytes
    decreases |pieces|
  {
    if pieces == [] then lib.deflate(fed, true)
    else lib.deflate(fed + [pieces[0]], false) + Packed(lib, fed + [pieces[0]], pieces[1..])
  }

  /** The inflater undoes the deflater and stops with its last byte. */
  ghost predicate Honest(lib: Lib) {
    forall pieces :: [] !in pieces ==> Feed(lib.inflater, [], Packed(lib, [], pieces)) == Ended(Concat(pieces), [])
  }

  function Pieces(chunks: seq<Bytes>): (r: seq<Bytes>)
    ensures [] !in r && Concat(r) == Concat(chunks)
  {
    if chunks == [] then []
    else if chunks[0] == [] then Pieces(chunks[1..])
    else
      var r := [chunks[0]] + Pieces(chunks[1..]);
      assert r[1..] == Pieces(chunks[1..]);
      r
  }

  /** What the deflater gets of the chunks. */
  function Lows(chunks: seq<Bytes>): (r: seq<Bytes>)
    ensures |r| == |chunks|
  {
    if chunks == [] then [] else [Low32(chunks[0])] + Lows(chunks[1..])
  }

  lemma {:induction false} LowsKeepShort(chunks: seq<Bytes>)
    ensures |Concat(Lows(chunks))| <= |Concat(chunks)|
    ensures AllShort(chunks) ==> Lows(chunks) == chunks
    ensures !AllShort(chunks) ==> |Concat(Lows(chunks))| + TWO32 <= |Concat(chunks)|
  {
    hide Low32;
    if chunks != [] {
      LowsKeepShort(chunks[1..]);
      LowIsShorter(chunks[0]);
      assert Lows(chunks)[1..] == Lows(chunks[1..]);
      assert AllShort(chunks) <==> |chunks[0]| < TWO32 && AllShort(chunks[1..]) by { AllShortSplit(chunks); }
    }
  }

  lemma AllShortSplit(chunks: seq<Bytes>)
    requires chunks != []
    ensures AllShort(chunks) <==> |chunks[0]| < TWO32 && AllShort(chunks[1..])
  {
    if |chunks[0]| < TWO32 && AllShort(chunks[1..]) {
      forall k | 0 <= k < |chunks|
        ensures |chunks[k]| < TWO32
      {
        if k > 0 { assert chunks[k] == chunks[1..][k - 1]; }
      }
    }
  }

  /** What is left to come, whatever the chunks: the header if it is still owed, the
      packed data as far as the deflater got it, and the trailer for everything pushed. */
  lemma {:induction false} RunIs(lib: Lib, c: Deflating, chunks: seq<Bytes>)
    requires !c.closed && c.totalIn < TWO64
    ensures RunFrom(lib, c, chunks)
         == Some(Header(c) + Packed(lib, c.fed, Pieces(Lows(chunks))) + TrailerAfter(lib, c, Concat(chunks)))
    decreases |chunks|
  {
    hide Header, Trailer, Crc, Low32, Concat, TrailerAfter;
    if chunks == [] {
      NothingMore(lib, c);
    } else {
      var p := PackPush(lib, c, chunks[0]);
      ConcatSplit(chunks);
      RunIs(lib, p.state, chunks[1..]);
      HeaderPaid(lib, c, chunks[0]);
      TrailerMore(lib, c, chunks[0], Concat(chunks[1..]));
      LowOfNothing();
      var tail := TrailerAfter(lib, c, Concat(chunks));
      assert Lows(chunks)[1..] == Lows(chunks[1..]);
      if Low32(chunks[0]) == [] {
        Regroup(Header(c), [], Packed(lib, c.fed, Pieces(Lows(chunks))), tail);
      } else {
        assert Pieces(Lows(chunks))[1..] == Pieces(Lows(chunks[1..]));
        Regroup(Header(c), lib.deflate(p.state.fed, false), Packed(lib, p.state.fed, Pieces(Lows(chunks[1..]))), tail);
      }
    }
  }

  lemma LowOfNothing()
    ensures Low32([]) == []
  {
  }

  lemma Regroup(h: Bytes, d: Bytes, rest: Bytes, tail: Bytes)
    ensures (h + d) + ([] + rest + tail) == h + (d + rest) + tail
    ensures h + ([] + rest + tail) == h + rest + tail
  {
  }

  lemma ConcatSplit(chunks: seq<Bytes>)
    requires chunks != []
    ensures Concat(chunks) == chunks[0] + Concat(chunks[1..])
  {
  }

  function TrailerAfter(lib: Lib, c: Deflating, data: Bytes): Bytes {
    Trailer(c.(crcIn := Crc(lib, c.crcIn, data), totalIn := (c.totalIn + |data|) % TWO64))
  }

  lemma NothingMore(lib: Lib, c: Deflating)
    requires c.totalIn < TWO64
    ensures TrailerAfter(lib, c, Concat([])) == Trailer(c)
  {
    hide Trailer;
    var data := Concat([]);
    assert data == [] && Crc(lib, c.crcIn, data) == c.crcIn && (c.totalIn + |data|) % TWO64 == c.totalIn;
    assert c.(crcIn := c.crcIn, totalIn := c.totalIn) == c;
  }

  lemma TrailerMore(lib: Lib, c: Deflating, chunk: Bytes, data: Bytes)
    requires !c.closed && c.totalIn < TWO64
    ensures PackPush(lib, c, chunk).state.totalIn < TWO64
    ensures TrailerAfter(lib, c, chunk + data) == TrailerAfter(lib, PackPush(lib, c, chunk).state, data)
  {
    hide Crc, LittleBytes;
    CrcConcat(lib, c.crcIn, chunk, data);
    SumMod(c.totalIn + |chunk|, |data|);
    if chunk == [] { assert chunk + data == data; }
  }

  lemma HeaderPaid(lib: Lib, c: Deflating, chunk: Bytes)
    requires !c.closed
    ensures Header(PackPush(lib, c, chunk).state) == []
  {
  }

  lemma OurHeader(rest: Bytes)
    ensures IsHeader(GzHdr() + rest, 10)
  {
    var p := GzHdr() + rest;
    assert p[3] == 0 && p[0] == 0x1f && p[1] == 0x8b && p[2] == 8;
    NoFlags(p);
    assert Layout(p, 10, 10, 10, 10);
  }

  lemma NoFlags(p: Bytes)
    requires |p| >= 10 && p[3] == 0
    ensures !Flag(p, 0x02) && !Flag(p, 0x04) && !Flag(p, 0x08) && !Flag(p, 0x10)
  {
  }

  /** Whatever the chunks and however the compressed bytes are cut, the decompressor
      gives the data back if and only if no chunk was 2^32 bytes or longer. */
  lemma DecompressOfCompress(lib: Lib, format: Format, chunks: seq<Bytes>, cuts: seq<Bytes>)
    requires Honest(lib) && Compress(lib, format, chunks) == Some(Concat(cuts)) && Fits(format, [], cuts)
    ensures Decompress(lib, format, cuts) == Some(Concat(chunks)) <==> AllShort(chunks)
  {
    hide Decompress, Decoded, Packed, Pieces, RunFrom, Feed, Crc, Concat, Lows, AllShort, Fits;
    var c := FreshPacker(lib, format);
    RunIs(lib, c, chunks);
    DecompressIsDecoded(lib, format, cuts);
    var z, got := Packed(lib, [], Pieces(Lows(chunks))), Concat(Lows(chunks));
    PackedDecodes(lib, format, z, got, TrailerAfter(lib, c, Concat(chunks)));
    LowsKeepShort(chunks);
    OurTrailer(lib, format, Concat(chunks));
  }

  /** A stream of ours is read as what is packed in it, if the trailer is for that. */
  lemma PackedDecodes(lib: Lib, format: Format, z: Bytes, got: Bytes, tail: Bytes)
    requires Feed(lib.inflater, [], z) == Ended(got, [])
    requires !format.Gzip? ==> tail == []
    ensures Decoded(lib, format, Header(FreshPacker(lib, format)) + z + tail)
         == if GoodTrailer(lib, format, got, tail) then Some(got) else None
  {
    hide Feed, HasStart, StartOf, Header, GoodTrailer;
    FeedConcat(lib.inflater, [], z, tail);
    assert [] + tail == tail;
    OurStart(lib, format, z, tail);
  }

  lemma OurStart(lib: Lib, format: Format, z: Bytes, tail: Bytes)
    ensures var input := Header(FreshPacker(lib, format)) + z + tail;
      HasStart(format, input) && input[StartOf(format, input)..] == z + tail
  {
    hide HasHeader, IsHeader, GzHdr;
    var input := Header(FreshPacker(lib, format)) + z + tail;
    if format.Gzip? {
      assert input == GzHdr() + (z + tail) && |GzHdr()| == 10 by { HdrLength(); }
      OurHeader(z + tail);
      HeaderHere(input, 10);
      HeaderUnique(input, 10, StartOf(format, input));
      assert input[10..] == z + tail;
    } else {
      assert input == z + tail;
    }
  }

  lemma OurTrailer(lib: Lib, format: Format, data: Bytes)
    ensures var tail := TrailerAfter(lib, FreshPacker(lib, format), data);
      GoodTrailer(lib, format, data, tail) && (!format.Gzip? ==> tail == [])
  {
    hide Crc, Little, LittleBytes;
    var crc := Crc(lib, lib.crcInit, data);
    SumMod(0, |data|);
    SumMod(|data|, 0);
    LittleBytesBack(crc);
    LittleBytesBack(|data| % TWO32);
    var t := LittleBytes(crc) + LittleBytes(|data| % TWO32);
    assert t[..4] == LittleBytes(crc) && t[4..] == LittleBytes(|data| % TWO32);
  }

  lemma HdrLength()
    ensures |GzHdr()| == 10
  {
  }

  lemma HeaderHere(p: Bytes, n: nat)
    requires IsHeader(p, n)
    ensures HasHeader(p)
  {
  }

  lemma HeaderIs(c: Deflating)
    ensures Header(c) == if c.format.Gzip? && !c.wroteGzipHeader then [] + GzHdr() else []
  {
    hide GzHdr;
  }

  lemma TrailerIs(c: Deflating, out: Bytes)
    ensures out + Trailer(c)
         == if c.format.Gzip? then out + LittleBytes(c.crcIn) + LittleBytes(c.totalIn % TWO32) else out
  {
    hide LittleBytes;
  }

  // ----- the object -----

  /** The deflater's stream; `appetite` bounds what it hands over per call. */
  class DeflateStream {
    const deflate: (seq<Bytes>, bool) -> Bytes
    var nextIn: Bytes
    var fed: seq<Bytes>
    var pending: Bytes
    var asked: bool

    constructor (deflate: (seq<Bytes>, bool) -> Bytes)
      ensures this.deflate == deflate && fed == [] && pending == [] && nextIn == [] && !asked
    {
      this.deflate := deflate;
      nextIn, fed, pending, asked := [], [], [], false;
    }

    /** What is still to come for the input pointed at, or for the end. */
    ghost function Rest(finish: bool): Bytes
      reads this
    {
      pending + if finish && !asked then deflate(fed, true)
                else if nextIn != [] then deflate(fed + [nextIn], false) else []
    }

    method Call(finish: bool, room: nat) returns (ended: bool, out: Bytes)
      requires room > 0 && (finish ==> nextIn == [])
      modifies this`nextIn, this`fed, this`pending, this`asked
      ensures out + Rest(finish) == old(Rest(finish))
      ensures |out| <= room && (|out| < room ==> pending == [])
      ensures ended == (finish && pending == [])
      ensures nextIn == [] && asked == (old(asked) || finish)
      ensures fed == if old(nextIn) == [] then old(fed) else old(fed + [nextIn])
    {
      if nextIn != [] {
        fed := fed + [nextIn];
        nextIn := [];
        pending := pending + deflate(fed, false);
      } else if finish && !asked {
        pending := pending + deflate(fed, true);
      }
      asked := asked || finish;
      var n := if room < |pending| then room else |pending|;
      out, pending := pending[..n], pending[n..];
      ended := finish && pending == [];
    }
  }

  const ROOM := 16384

  class Packer {
    const lib: Lib
    const format: Format
    const strm: DeflateStream
    var crcIn: Word
    var totalIn: nat
    var wroteGzipHeader: bool
    var closed: bool

    ghost predicate Valid()
      reads this, strm
    {
      strm.deflate == lib.deflate && (!closed ==> strm.pending == [] && strm.nextIn == [] && !strm.asked)
    }

    ghost function View(): (c: Deflating)
      reads this, strm
    {
      Deflating(format, strm.fed, crcIn, totalIn, wroteGzipHeader, closed)
    }

    constructor (lib: Lib, format: Format)
      ensures Valid() && fresh(strm) && this.lib == lib && View() == FreshPacker(lib, format)
    {
      this.lib, this.format := lib, format;
      strm := new DeflateStream(lib.deflate);
      crcIn, totalIn, wroteGzipHeader, closed := lib.crcInit, 0, false, false;
    }

    method PumpDeflate(finish: bool, out: Bytes) returns (out': Bytes)
      requires strm.deflate == lib.deflate && (finish ==> strm.nextIn == [])
      modifies strm
      ensures out' == out + old(strm.Rest(finish))
      ensures strm.pending == [] && strm.nextIn == [] && strm.asked == (old(strm.asked) || finish)
      ensures strm.fed == if old(strm.nextIn) == [] then old(strm.fed) else old(strm.fed + [strm.nextIn])
    {
      ghost var all := strm.Rest(finish);
      out' := out;
      while true
        invariant strm.deflate == lib.deflate && (finish ==> strm.nextIn == [])
        invariant out' + strm.Rest(finish) == out + all
        invariant strm.nextIn == [] || strm.nextIn == old(strm.nextIn)
        invariant strm.nextIn == []
          ==> strm.fed == if old(strm.nextIn) == [] then old(strm.fed) else old(strm.fed + [strm.nextIn])
        invariant strm.nextIn != [] ==> strm.fed == old(strm.fed)
        invariant strm.asked == old(strm.asked) || (finish && strm.asked)
        decreases |strm.Rest(finish)|
      {
        var ended, written := strm.Call(finish, ROOM);
        out' := out' + written;
        if ended { return; }
        if |written| < ROOM { break; }
      }
    }

    /** codecPush. */
    method Push(chunk: Bytes) returns (threw: bool, out: Bytes)
      requires Valid()
      modifies this`crcIn, this`totalIn, this`wroteGzipHeader, strm
      ensures Valid()
      ensures threw == PackPush(lib, old(View()), chunk).Threw?
      ensures !threw ==> PackPush(lib, old(View()), chunk) == Gave(View(), out)
    {
      hide Crc;
      out := [];
      if closed { return true, []; }
      if format.Gzip? && !wroteGzipHeader {
        out := out + GzHdr();
        wroteGzipHeader := true;
      }
      if chunk != [] {
        crcIn := Crc(lib, crcIn, chunk);
        totalIn := (totalIn + |chunk|) % TWO64;
        strm.nextIn := Low32(chunk);
        out := PumpDeflate(false, out);
      }
      threw := false;
    }

    /** codecFinish. */
    method Finish() returns (threw: bool, out: Bytes)
      requires Valid()
      modifies this`closed, this`wroteGzipHeader, strm
      ensures Valid() && closed
      ensures threw == PackFinish(lib, old(View())).Threw?
      ensures !threw ==> PackFinish(lib, old(View())) == Gave(View(), out)
    {
      hide Header, Trailer, GzHdr, LittleBytes;
      ghost var c := View();
      HeaderIs(c);
      out := [];
      if closed { return true, []; }
      closed := true;
      if format.Gzip? && !wroteGzipHeader {
        out := out + GzHdr();
        wroteGzipHeader := true;
      }
      assert out == Header(c);
      strm.nextIn := [];
      out := PumpDeflate(true, out);
      assert out == Header(c) + lib.deflate(c.fed, true);
      TrailerIs(c, out);
      if format.Gzip? {
        out := out + LittleBytes(crcIn) + LittleBytes(totalIn % TWO32);
      }
      threw := false;
    }
  }
}
