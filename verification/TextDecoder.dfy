/** The streaming TextDecoder: what a call cannot decode yet is kept for the next. */
module TextDecoder {
  import opened Common
  import opened Utf8

  /** The loop over the last bytes, from the i-th from the end: how many of them start
      a code point that is not all there. */
  function CutFrom(b: Bytes, i: nat): (cut: nat)
    requires 1 <= i
    ensures cut <= 3 && cut <= |b|
    decreases 5 - i
  {
    if i > 4 || i > |b| then 0
    else
      var x := b[|b| - i];
      if x & 0x80 == 0x00 then 0
      else if x & 0xC0 == 0x80 then CutFrom(b, i + 1)
      else if x & 0xE0 == 0xC0 then if i < 2 then i else 0
      else if x & 0xF0 == 0xE0 then if i < 3 then i else 0
      else if x & 0xF8 == 0xF0 then if i < 4 then i else 0
      else 0
  }

  /** What a call has to decode, with what was kept before it. */
  function Kept(pending: Bytes, input: Bytes, stream: bool): (k: Bytes)
    ensures |k| <= |pending + input|
  {
    var bytes := pending + input;
    if stream then bytes[|bytes| - CutFrom(bytes, 1)..] else []
  }

  function Decodable(pending: Bytes, input: Bytes, stream: bool): Bytes {
    var bytes := pending + input;
    bytes[..|bytes| - |Kept(pending, input, stream)|]
  }

  class Decoder {
    const native: Bytes -> seq<Scalar>
    var pending: Bytes

    constructor (native: Bytes -> seq<Scalar>)
      ensures this.native == native && pending == []
    {
      this.native, pending := native, [];
    }

    method Cut(bytes: Bytes) returns (cut: nat)
      ensures cut == CutFrom(bytes, 1)
    {
      var len, i := |bytes|, 1;
      cut := 0;
      while i <= 4 && i <= len
        invariant 1 <= i <= 5 && cut == 0
        invariant CutFrom(bytes, 1) == CutFrom(bytes, i)
      {
        var b := bytes[len - i];
        if b & 0x80 == 0x00 {
          break;
        } else if b & 0xC0 == 0x80 {
          i := i + 1;
          continue;
        } else if b & 0xE0 == 0xC0 {
          if i < 2 { cut := i; }
          break;
        } else if b & 0xF0 == 0xE0 {
          if i < 3 { cut := i; }
          break;
        } else if b & 0xF8 == 0xF0 {
          if i < 4 { cut := i; }
          break;
        } else {
          break;
        }
      }
    }

    /** What was kept and the input, nothing being kept any more. */
    method Merge(input: Bytes) returns (bytes: Bytes)
      modifies this`pending
      ensures bytes == old(pending) + input && pending == []
    {
      NothingMore(pending);
      NothingMore(input);
      bytes := input;
      if |pending| > 0 {
        if |input| > 0 { bytes := pending + input; } else { bytes := pending; }
        pending := [];
      }
    }

    method Decode(input: Bytes, isStream: bool) returns (text: seq<Scalar>)
      modifies this`pending
      ensures pending == Kept(old(pending), input, isStream) && |pending| <= 3
      ensures var whole := Decodable(old(pending), input, isStream); text == if whole == [] then [] else native(whole)
    {
      hide *;
      ghost var before := pending;
      var bytes := Merge(input);
      var cut := 0;
      if isStream { cut := Cut(bytes); }
      CutParts(before, input, isStream, cut);
      if bytes == [] { return []; }
      var toDecode := bytes;
      if cut > 0 {
        pending := bytes[|bytes| - cut..];
        toDecode := bytes[..|bytes| - cut];
      }
      if toDecode == [] { return []; }
      text := native(toDecode);
    }
  }

  lemma NothingMore(b: Bytes)
    ensures b + [] == b == [] + b
  {
  }

  lemma CutParts(pending: Bytes, input: Bytes, stream: bool, cut: nat)
    requires cut == if stream then CutFrom(pending + input, 1) else 0
    ensures var bytes := pending + input;
      && cut <= 3 && cut <= |bytes| && |Kept(pending, input, stream)| == cut
      && Kept(pending, input, stream) == bytes[|bytes| - cut..]
      && Decodable(pending, input, stream) == bytes[..|bytes| - cut]
      && (cut == 0 ==> Decodable(pending, input, stream) == bytes)
  {
    hide CutFrom;
  }

  // ----- whole streams -----

  /** The texts of streaming calls with the chunks, and of a last call with `last`. */
  function Texts(native: Bytes -> seq<Scalar>, pending: Bytes, chunks: seq<Bytes>, last: Bytes): seq<Scalar>
    decreases |chunks|
  {
    if chunks == [] then Text(native, Decodable(pending, last, false))
    else
      Text(native, Decodable(pending, chunks[0], true))
      + Texts(native, Kept(pending, chunks[0], true), chunks[1..], last)
  }

  function Text(native: Bytes -> seq<Scalar>, whole: Bytes): seq<Scalar> {
    if whole == [] then [] else native(whole)
  }

  /** Nothing is lost, repeated or moved, whatever the bytes are. */
  lemma NothingLost(pending: Bytes, input: Bytes, stream: bool)
    ensures Decodable(pending, input, stream) + Kept(pending, input, stream) == pending + input
    ensures |Kept(pending, input, stream)| <= 3
    ensures !stream ==> Kept(pending, input, stream) == []
  {
  }

  // ----- where the cut falls -----

  lemma {:induction false} CutScan(head: Bytes, u: Bytes, width: nat, i: nat)
    requires Shaped(u, width) && 1 <= i <= |u| <= 4
    ensures CutFrom(head + u, i) == if |u| < width then |u| else 0
    decreases |u| - i
  {
    hide CutFrom, LeadWidth, IsCont;
    var b := head + u;
    assert b[|b| - i] == u[|u| - i];
    CutStep(b, i);
    if i < |u| { CutScan(head, u, width, i + 1); }
  }

  lemma CutStep(b: Bytes, i: nat)
    requires 1 <= i <= 4 && i <= |b|
    ensures var x := b[|b| - i];
      CutFrom(b, i) == if IsCont(x) then CutFrom(b, i + 1) else if i < LeadWidth(x) then i else 0
  {
    MasksAreRanges(b[|b| - i]);
  }

  lemma PartialShaped(part: Bytes) returns (width: nat)
    requires Partial(part) && part != []
    ensures Shaped(part, width) && |part| < width
  {
    hide Encode, LeadWidth, IsCont;
    var c: Scalar :| |part| < Width(c) && PrefixOf(part, Encode(c));
    EncodeShaped(c);
    width := Width(c);
  }

  /** The cut falls exactly in front of an unfinished code point. */
  lemma CutIsPartial(text: seq<Scalar>, part: Bytes)
    requires Partial(part)
    ensures CutFrom(EncodeAll(text) + part, 1) == |part|
  {
    hide CutFrom, Shaped;
    PartialIsShort(part);
    if part != [] {
      var width := PartialShaped(part);
      assert |part| >= 1;
      CutScan(EncodeAll(text), part, width, 1);
    } else if text == [] {
      assert EncodeAll(text) + part == [];
      CutNothing();
    } else {
      var init, c := text[..|text| - 1], text[|text| - 1];
      assert text == init + [c];
      EncodeAllConcat(init, [c]);
      EncodeOne(c);
      EncodeShaped(c);
      CutScan(EncodeAll(init), Encode(c), Width(c), 1);
      assert EncodeAll(text) + part == EncodeAll(init) + Encode(c);
    }
  }

  lemma CutNothing()
    ensures CutFrom([], 1) == 0
  {
  }

  /** One streaming call on what is left of some text: it decodes the code points that
      are all there and keeps the start of the next. */
  lemma OneCall(pending: Bytes, chunk: Bytes, text: seq<Scalar>) returns (k: nat)
    requires PrefixOf(pending + chunk, EncodeAll(text))
    ensures k <= |text|
    ensures Decodable(pending, chunk, true) == EncodeAll(text[..k])
    ensures Partial(Kept(pending, chunk, true))
    ensures EncodeAll(text[..k]) + Kept(pending, chunk, true) == pending + chunk
  {
    hide EncodeAll, CutFrom, Partial;
    var part;
    k, part := PrefixSplits(pending + chunk, text);
    CutIsPartial(text[..k], part);
  }

  lemma {:induction false} TextsAreText(native: Bytes -> seq<Scalar>, pending: Bytes, chunks: seq<Bytes>,
                                      last: Bytes, text: seq<Scalar>)
    requires Faithful(native) && pending + Concat(chunks) + last == EncodeAll(text)
    ensures Texts(native, pending, chunks, last) == text
    decreases |chunks|
  {
    hide EncodeAll, Decodable, Kept, Faithful, Text;
    if chunks == [] {
      assert pending + Concat(chunks) + last == pending + last;
      LastCall(pending, last);
      TextOfEncoded(native, text);
    } else {
      var k := FirstCall(pending, chunks, last, text);
      TextsAreText(native, Kept(pending, chunks[0], true), chunks[1..], last, text[k..]);
      TextOfEncoded(native, text[..k]);
      assert text == text[..k] + text[k..];
    }
  }

  lemma FirstCall(pending: Bytes, chunks: seq<Bytes>, last: Bytes, text: seq<Scalar>) returns (k: nat)
    requires chunks != [] && pending + Concat(chunks) + last == EncodeAll(text)
    ensures k <= |text| && Decodable(pending, chunks[0], true) == EncodeAll(text[..k])
    ensures Kept(pending, chunks[0], true) + Concat(chunks[1..]) + last == EncodeAll(text[k..])
  {
    hide EncodeAll, Decodable, Kept, PrefixOf;
    var now, later := pending + chunks[0], Concat(chunks[1..]) + last;
    Regroup(pending, chunks[0], Concat(chunks[1..]), last);
    assert EncodeAll(text) == now + later;
    hide Concat;
    FrontIsPrefix(now, later);
    k := OneCall(pending, chunks[0], text);
    var head, kept := EncodeAll(text[..k]), Kept(pending, chunks[0], true);
    SplitText(text, k);
    Regroup(head, kept, Concat(chunks[1..]), last);
    SameBehind(head, kept + later, EncodeAll(text[k..]));
    Regroup([], kept, Concat(chunks[1..]), last);
  }

  lemma Regroup(a: Bytes, b: Bytes, c: Bytes, d: Bytes)
    ensures a + (b + c) + d == a + b + (c + d) == a + (b + (c + d))
    ensures b + c + d == b + (c + d)
  {
  }

  lemma FrontIsPrefix(a: Bytes, b: Bytes)
    ensures PrefixOf(a, a + b)
  {
  }

  lemma SplitText(text: seq<Scalar>, k: nat)
    requires k <= |text|
    ensures EncodeAll(text) == EncodeAll(text[..k]) + EncodeAll(text[k..])
  {
    assert text == text[..k] + text[k..];
    EncodeAllConcat(text[..k], text[k..]);
  }

  lemma SameBehind(head: Bytes, a: Bytes, b: Bytes)
    requires head + a == head + b
    ensures a == b
  {
    assert a == (head + a)[|head|..] && b == (head + b)[|head|..];
  }

  lemma LastCall(pending: Bytes, last: Bytes)
    ensures Decodable(pending, last, false) == pending + last
  {
  }

  lemma TextOfEncoded(native: Bytes -> seq<Scalar>, text: seq<Scalar>)
    requires Faithful(native)
    ensures Text(native, EncodeAll(text)) == text
  {
    assert native(EncodeAll(text)) == text;
    if text == [] { assert EncodeAll(text) == []; }
  }

  /** However well-formed UTF-8 is cut, the streaming calls and the last one together
      give what one call gives for all of it. */
  lemma StreamingIsOneCall(native: Bytes -> seq<Scalar>, chunks: seq<Bytes>, last: Bytes, text: seq<Scalar>)
    requires Faithful(native) && Concat(chunks) + last == EncodeAll(text)
    ensures Texts(native, [], chunks, last) == Texts(native, [], [], EncodeAll(text)) == text
  {
    hide EncodeAll, Texts;
    assert [] + Concat(chunks) + last == Concat(chunks) + last;
    TextsAreText(native, [], chunks, last, text);
    assert [] + Concat([]) + EncodeAll(text) == EncodeAll(text);
    TextsAreText(native, [], [], EncodeAll(text), text);
  }

  /** So it does over a decoder there is: Utf8.Decode. */
  lemma StreamingDecode(chunks: seq<Bytes>, last: Bytes, text: seq<Scalar>)
    requires Concat(chunks) + last == EncodeAll(text)
    ensures Texts(Decode, [], chunks, last) == text
  {
    hide EncodeAll, Texts, Decode;
    DecodeIsFaithful();
    StreamingIsOneCall(Decode, chunks, last, text);
  }
}
