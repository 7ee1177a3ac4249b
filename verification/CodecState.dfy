/** The decompressing codec object. */
module CodecState {
  import opened Common
  import opened GzipHeader
  import opened Inflate
  import opened Codec

  const ROOM := 16384

  lemma EmptyPump(lib: Lib, c: Inflating)
    requires c.totalOut < TWO64
    ensures Pump(lib, c, Low32([])) == Gave(c, [])
  {
    assert c.past + [] == c.past;
  }

  class Decompressor {
    const lib: Lib
    const format: Format
    const strm: MzStream
    var hdr: Bytes
    var headerDone: bool
    var finished: bool
    var trailer: Bytes
    var crcOut: Word
    var totalOut: nat
    var closed: bool

    ghost predicate Valid()
      reads this, strm
    {
      strm.inflater == lib.inflater && totalOut < TWO64 && (!finished ==> strm.Idle())
    }

    ghost function View(): (c: Inflating)
      reads this, strm
    {
      Inflating(format, hdr, headerDone, if finished then [] else strm.past, finished,
                trailer, crcOut, totalOut, closed)
    }

    constructor (lib: Lib, format: Format, appetite: nat -> nat)
      ensures Valid() && fresh(strm) && this.lib == lib && View() == Fresh(lib, format)
    {
      this.lib, this.format := lib, format;
      strm := new MzStream(lib.inflater, appetite);
      hdr, headerDone, finished, trailer := [], false, false, [];
      crcOut, totalOut, closed := lib.crcInit, 0, false;
    }

    ghost predicate Counted(crc: Word, total: nat, made: Bytes)
      reads this
    {
      && crcOut == (if format.Gzip? then Crc(lib, crc, made) else crc)
      && totalOut == (total + |made|) % TWO64
    }

    method CountOut(ghost crc: Word, ghost total: nat, ghost before: Bytes, written: Bytes)
      requires Counted(crc, total, before)
      modifies this`crcOut, this`totalOut
      ensures Counted(crc, total, before + written)
    {
      if format.Gzip? {
        assert before + written[..0] == before;
        for k := 0 to |written|
          invariant totalOut == old(totalOut) && crcOut == Crc(lib, crc, before + written[..k])
        {
          assert written[..k + 1] == written[..k] + [written[k]];
          assert before + written[..k + 1] == before + written[..k] + [written[k]];
          CrcConcat(lib, crc, before + written[..k], [written[k]]);
          crcOut := lib.crc(crcOut, written[k]);
        }
        assert written[..|written|] == written;
      }
      SumMod(total + |before|, |written|);
      totalOut := (totalOut + |written|) % TWO64;
    }

    /** Pumps everything strm.nextIn points at. The answer does not depend on how
        much each call of the stream eats. */
    method PumpInflate() returns (ok: bool, out: Bytes, streamEnd: bool)
      requires Valid() && !finished
      modifies this`crcOut, this`totalOut, strm
      ensures var f := Feed(lib.inflater, old(strm.past), old(strm.nextIn));
        && ok == !f.Faulted?
        && (ok ==> out == f.made && streamEnd == f.Ended? && Counted(old(crcOut), old(totalOut), out))
        && (f.Going? ==> strm.Idle() && strm.past == old(strm.past + strm.nextIn))
        && (f.Ended? ==> strm.nextIn == f.rest)
    {
      ghost var f := strm.Rest();
      out, streamEnd := [], false;
      AfterAfter([], [], Feed(strm.inflater, strm.past, strm.nextIn));
      AfterAfter([], [], f);
      while true
        invariant !strm.broken && !strm.Drained() && strm.inflater == lib.inflater
        invariant f == After(out, strm.Rest())
        invariant !strm.over ==> strm.past + strm.nextIn == old(strm.past + strm.nextIn)
        invariant Counted(old(crcOut), old(totalOut), out)
        decreases |strm.nextIn|, |strm.pending|
      {
        var rc, written := strm.Call(ROOM);
        if rc != DataError {
          AfterAfter(out, written, strm.Rest());
          CountOut(old(crcOut), old(totalOut), out, written);
          out := out + written;
        }
        if rc == StreamEnd { return true, out, true; }
        if rc != Ok && rc != BufError { return false, out, false; }
        if |written| < ROOM && (strm.nextIn == [] || (rc == BufError && written == [])) { break; }
      }
      assert strm.past + [] == strm.past && out + [] == out;
      return true, out, false;
    }

    /** codecPush. */
    method Push(chunk: Bytes) returns (threw: bool, out: Bytes)
      requires Valid()
      modifies this, strm
      ensures threw == Codec.Push(lib, old(View()), chunk).Threw?
      ensures !threw ==> Valid() && Codec.Push(lib, old(View()), chunk) == Gave(View(), out)
    {
      hide Counted, Feed;
      if closed { return true, []; }
      if finished {
        if format.Gzip? {
          trailer := trailer + chunk;
          return false, [];
        }
        return chunk != [], [];
      }
      if format.Gzip? && !headerDone {
        hdr := hdr + chunk;
        var hdrSize := ParseGzipHeader(hdr);
        if hdrSize == 0 {
          return BadMagic(hdr), [];
        }
        HeaderUnique(hdr, hdrSize, HeaderLength(hdr));
        headerDone := true;
        threw, out := PumpInput(hdr[hdrSize..]);
        return;
      }
      threw, out := PumpInput(chunk);
    }

    /** The part of codecPush that hands input to the stream. */
    method PumpInput(input: Bytes) returns (threw: bool, out: Bytes)
      requires Valid() && !finished
      modifies this`crcOut, this`totalOut, this`finished, this`trailer, strm
      ensures threw == Pump(lib, old(View()), Low32(input)).Threw?
      ensures !threw ==> Valid() && Pump(lib, old(View()), Low32(input)) == Gave(View(), out)
    {
      hide Feed, Crc;
      if input == [] {
        EmptyPump(lib, View());
        return false, [];
      }
      strm.nextIn := Low32(input);
      var ok, made, end := PumpInflate();
      out := made;
      if !ok { return true, out; }
      if end {
        finished := true;
        if strm.nextIn != [] {
          if !format.Gzip? { return true, out; }
          trailer := trailer + strm.nextIn;
        } else {
          assert trailer + strm.nextIn == trailer;
        }
      }
      threw := false;
    }

    /** codecFinish. */
    method Finish() returns (threw: bool, out: Bytes)
      requires Valid()
      modifies this`closed
      ensures Valid() && closed
      ensures threw == Codec.Finish(old(View())).Threw?
      ensures !threw ==> Codec.Finish(old(View())) == Gave(View(), out)
    {
      out := [];
      if closed { return true, []; }
      closed := true;
      if !finished { return true, []; }
      if format.Gzip? {
        if |trailer| < 8 { return true, []; }
        if |trailer| > 8 { return true, []; }
        var crc, isize := Little(trailer[..4]), Little(trailer[4..]);
        if crc != crcOut { return true, []; }
        if isize != totalOut % TWO32 { return true, []; }
      }
      threw := false;
    }
  }
}
