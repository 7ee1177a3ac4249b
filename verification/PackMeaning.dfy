/** The compressor's output, written out. */
module PackMeaning {
  import opened Common
  import opened Inflate
  import opened Codec
  import opened Compressor
  import opened CodecMeaning

  /** Byte k of a number, the lowest first. */
  function LowFirst(w: nat): Bytes {
    [(w % 256) as bv8, (w / 256 % 256) as bv8, (w / 65536 % 256) as bv8, (w / 16777216 % 256) as bv8]
  }

  lemma LowFirstIs(w: Word)
    ensures LittleBytes(w) == LowFirst(w)
  {
  }

  lemma SumsLength(lib: Lib, data: Bytes, w: seq<Word>)
    requires Sums(lib, data, w)
    ensures |w| == |data| + 1
  {
  }

  /** Chunks below 2^32 bytes come out as the gzip header, what the deflater makes of those
      that are not empty and of the end, and the checksum and length of all of them; in the
      other formats as the deflated data alone. */
  lemma CompressIs(lib: Lib, format: Format, chunks: seq<Bytes>, w: seq<Word>)
    requires (forall k :: 0 <= k < |chunks| ==> |chunks[k]| < 4294967296) && Sums(lib, Concat(chunks), w)
    ensures var z, n := Packed(lib, [], Pieces(chunks)), |Concat(chunks)|;
      Compress(lib, format, chunks) == Some(
        if format.Gzip? then [0x1f, 0x8b, 8, 0, 0, 0, 0, 0, 0, 3] + z + (LowFirst(w[n]) + LowFirst(n % 4294967296))
        else z)
  {
    hide Packed, Pieces, Concat, Sums, LowFirst, LittleBytes, Crc, Lows;
    var c := FreshPacker(lib, format);
    RunIs(lib, c, chunks);
    LowsKeepShort(chunks);
    var n := |Concat(chunks)|;
    SumsLength(lib, Concat(chunks), w);
    CrcIsLast(lib, Concat(chunks), w);
    SumMod(0, n);
    SumMod(n, 0);
    assert w[n] < TWO32;
    LowFirstIs(w[n]);
    LowFirstIs(n % TWO32);
    var z := Packed(lib, [], Pieces(chunks));
    assert [] + z + [] == z;
  }
}
