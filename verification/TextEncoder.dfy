/** TextEncoder.encodeInto: UTF-16 text into a byte buffer of a fixed size. */
module TextEncoder {
  import opened Common
  import opened Utf8

  /** A UTF-16 code unit. */
  type Unit = u: int | 0 <= u < 0x10000

  predicate High(u: Unit) { 0xD800 <= u <= 0xDBFF }

  predicate Low(u: Unit) { 0xDC00 <= u <= 0xDFFF }

  /** Whether the text starts with a surrogate pair. */
  predicate Pair(str: seq<Unit>) { |str| >= 2 && High(str[0]) && Low(str[1]) }

  function NextUnits(str: seq<Unit>): nat { if Pair(str) then 2 else 1 }

  function Joined(c1: int, c2: int): Scalar
    requires 0xD800 <= c1 <= 0xDBFF && 0xDC00 <= c2 <= 0xDFFF
  {
    (c1 - 0xD800) * 1024 + (c2 - 0xDC00) + 0x10000
  }

  /** The code point the text starts with; a lone surrogate is U+FFFD. */
  function NextScalar(str: seq<Unit>): Scalar
    requires str != []
  {
    if Pair(str) then Joined(str[0], str[1])
    else if High(str[0]) || Low(str[0]) then 0xFFFD
    else str[0]
  }

  function Scalars(str: seq<Unit>): seq<Scalar>
    decreases |str|
  {
    if str == [] then [] else [NextScalar(str)] + Scalars(str[NextUnits(str)..])
  }

  datatype Fitted = Fitted(read: nat, bytes: Bytes)

  /** As many code points as there is room for, from the front. */
  function Fit(str: seq<Unit>, room: nat): (f: Fitted)
    ensures f.read <= |str| && |f.bytes| <= room
    decreases |str|
  {
    if str == [] || Width(NextScalar(str)) > room then Fitted(0, [])
    else
      var u := Encode(NextScalar(str));
      var f := Fit(str[NextUnits(str)..], room - |u|);
      Fitted(NextUnits(str) + f.read, u + f.bytes)
  }

  method Put(dest: array<bv8>, at: nat, b: Bytes)
    requires at + |b| <= dest.Length
    modifies dest
    ensures dest[..at + |b|] == old(dest[..at]) + b
    ensures dest[at + |b|..] == old(dest[at + |b|..])
  {
    for k := 0 to |b|
      invariant forall j :: 0 <= j < dest.Length && !(at <= j < at + k) ==> dest[j] == old(dest[j])
      invariant forall j :: 0 <= j < k ==> dest[at + j] == b[j]
    {
      dest[at + k] := b[k];
    }
  }

  method EncodeInto(str: seq<Unit>, dest: array<bv8>) returns (read: nat, written: nat)
    modifies dest
    ensures written <= dest.Length && dest[written..] == old(dest[written..])
    ensures Fit(str, dest.Length) == Fitted(read, dest[..written])
  {
    hide Fit, Encode;
    read, written := 0, 0;
    ghost var was := dest[..];
    var i := 0;
    while i < |str|
      invariant i == read <= |str| && written <= dest.Length
      invariant dest[written..] == was[written..]
      invariant Fit(str, dest.Length) == Onward(read, dest[..written], Fit(str[i..], dest.Length - written))
      decreases |str| - i
    {
      var c1 := str[i];
      var cp: int, units := c1, 1;
      if 0xD800 <= c1 <= 0xDBFF {
        if i + 1 < |str| {
          var c2 := str[i + 1];
          if 0xDC00 <= c2 <= 0xDFFF {
            cp, units := Joined(c1, c2), 2;
          } else {
            cp := 0xFFFD;
          }
        } else {
          cp := 0xFFFD;
        }
      } else if 0xDC00 <= c1 <= 0xDFFF {
        cp := 0xFFFD;
      }
      assert cp == NextScalar(str[i..]) && units == NextUnits(str[i..]);
      var b := Encode(cp);
      FitStep(str, i, dest.Length - written, read, dest[..written]);
      if written + |b| > dest.Length { break; }
      assert dest[written..][|b|..] == dest[written + |b|..] && was[written..][|b|..] == was[written + |b|..];
      Put(dest, written, b);
      written := written + |b|;
      read := read + units;
      i := i + units;
    }
    FitNothing(str, i, dest.Length - written, read, dest[..written]);
  }

  function Onward(read: nat, bytes: Bytes, f: Fitted): Fitted { Fitted(read + f.read, bytes + f.bytes) }

  lemma FitStep(str: seq<Unit>, i: nat, room: nat, read: nat, bytes: Bytes)
    requires i < |str|
    ensures var s := str[i..];
            var u := Encode(NextScalar(s));
      Onward(read, bytes, Fit(s, room)) ==
      if |u| > room then Fitted(read, bytes)
      else Onward(read + NextUnits(s), bytes + u, Fit(str[i + NextUnits(s)..], room - |u|))
  {
    hide Encode;
    var s := str[i..];
    var u := Encode(NextScalar(s));
    assert s[NextUnits(s)..] == str[i + NextUnits(s)..];
    if |u| <= room {
      assert forall rest: Bytes :: bytes + (u + rest) == bytes + u + rest;
    } else {
      assert bytes + [] == bytes;
    }
  }

  lemma FitNothing(str: seq<Unit>, i: nat, room: nat, read: nat, bytes: Bytes)
    requires i <= |str|
    ensures i == |str| ==> Onward(read, bytes, Fit(str[i..], room)) == Fitted(read, bytes)
  {
    assert bytes + [] == bytes;
  }

  // ----- what the buffer gets -----

  lemma ScalarsOfPrefix(str: seq<Unit>, n: nat)
    requires str != [] && NextUnits(str) <= n <= |str|
    ensures Scalars(str[..n]) == [NextScalar(str)] + Scalars(str[NextUnits(str)..n])
  {
    var p := str[..n];
    assert p[NextUnits(str)..] == str[NextUnits(str)..n];
  }

  /** The buffer gets whole code points: the encoding of what was read, as much as
      fits, with no pair split; so what was not read is all that is missing. */
  lemma {:induction false} FitIsMaximal(str: seq<Unit>, room: nat)
    ensures var f := Fit(str, room);
      && f.bytes == EncodeAll(Scalars(str[..f.read]))
      && Scalars(str) == Scalars(str[..f.read]) + Scalars(str[f.read..])
      && (f.read < |str| ==> |f.bytes| + Width(NextScalar(str[f.read..])) > room)
    decreases |str|
  {
    hide *;
    FitOnce(str, room);
    if str == [] || Width(NextScalar(str)) > room {
      assert str[..0] == [] && str[0..] == str;
      assert [] + Scalars(str) == Scalars(str);
      NothingEncoded();
    } else {
      var n := NextUnits(str);
      UnitsInRange(str);
      var rest := str[n..];
      var f := Fit(rest, room - Width(NextScalar(str)));
      FitIsMaximal(rest, room - Width(NextScalar(str)));
      RestSlices(str, n, f.read);
      ScalarsOfPrefix(str, n + f.read);
      FirstScalar(str, n + f.read);
    }
  }

  lemma NothingEncoded()
    ensures Scalars([]) == [] && EncodeAll([]) == []
  {
  }

  lemma FitOnce(str: seq<Unit>, room: nat)
    ensures Fit(str, room) ==
            if str == [] || Width(NextScalar(str)) > room then Fitted(0, [])
            else
              var f := Fit(str[NextUnits(str)..], room - Width(NextScalar(str)));
              Fitted(NextUnits(str) + f.read, Encode(NextScalar(str)) + f.bytes)
  {
    hide Encode, NextScalar, NextUnits;
  }

  lemma RestSlices(str: seq<Unit>, n: nat, r: nat)
    requires n + r <= |str|
    ensures str[n..][..r] == str[n..n + r] && str[n..][r..] == str[n + r..]
  {
  }

  /** What is behind the first code point follows it, in the text and in a prefix. */
  lemma FirstScalar(str: seq<Unit>, n: nat)
    requires str != [] && NextUnits(str) <= n <= |str|
    ensures var u := NextUnits(str);
      && EncodeAll([NextScalar(str)] + Scalars(str[u..n])) == Encode(NextScalar(str)) + EncodeAll(Scalars(str[u..n]))
      && (Scalars(str[u..]) == Scalars(str[u..n]) + Scalars(str[n..]) ==>
            Scalars(str) == [NextScalar(str)] + Scalars(str[u..n]) + Scalars(str[n..]))
  {
    hide Encode, NextScalar;
  }

  lemma UnitsInRange(str: seq<Unit>)
    requires str != []
    ensures 1 <= NextUnits(str) <= |str|
  {
  }

  /** Decoding the buffer gives back what was read. */
  lemma DecodeOfFit(str: seq<Unit>, room: nat)
    ensures var f := Fit(str, room); Decode(f.bytes) == Scalars(str[..f.read])
  {
    hide Decode, EncodeAll, Scalars, Fit;
    FitIsMaximal(str, room);
    DecodeOfEncodeAll(Scalars(str[..Fit(str, room).read]));
  }

  /** With room for all of it, all of it is written. */
  lemma FitsWhole(str: seq<Unit>, room: nat)
    requires |EncodeAll(Scalars(str))| <= room
    ensures Fit(str, room) == Fitted(|str|, EncodeAll(Scalars(str)))
  {
    hide Encode, Fit;
    FitIsMaximal(str, room);
    var f := Fit(str, room);
    var read, left := Scalars(str[..f.read]), Scalars(str[f.read..]);
    EncodeAllConcat(read, left);
    LeftIsWide(str[f.read..]);
    assert str[..|str|] == str;
  }

  lemma LeftIsWide(str: seq<Unit>)
    ensures str != [] ==> |EncodeAll(Scalars(str))| >= Width(NextScalar(str))
  {
  }

  // ----- well-formed text -----

  function Units(c: Scalar): seq<Unit> {
    if c < 0x10000 then [c] else [0xD800 + (c - 0x10000) / 1024, 0xDC00 + (c - 0x10000) % 1024]
  }

  function Utf16(text: seq<Scalar>): seq<Unit> {
    if text == [] then [] else Units(text[0]) + Utf16(text[1..])
  }

  lemma {:induction false} ScalarsOfUtf16(text: seq<Scalar>)
    ensures Scalars(Utf16(text)) == text
  {
    hide Units, NextScalar, NextUnits;
    if text != [] {
      var u, rest := Units(text[0]), Utf16(text[1..]);
      ScalarOfUnits(text[0], rest);
      assert (u + rest)[|u|..] == rest;
      ScalarsOfUtf16(text[1..]);
    }
  }

  lemma ScalarOfUnits(c: Scalar, rest: seq<Unit>)
    ensures var str := Units(c) + rest;
      str != [] && NextScalar(str) == c && NextUnits(str) == |Units(c)|
  {
  }

  /** Well-formed text put through a large enough buffer comes back whole. */
  lemma TextSurvives(text: seq<Scalar>, room: nat)
    requires |EncodeAll(text)| <= room
    ensures Fit(Utf16(text), room).read == |Utf16(text)|
    ensures Decode(Fit(Utf16(text), room).bytes) == text
  {
    ScalarsOfUtf16(text);
    FitsWhole(Utf16(text), room);
    DecodeOfEncodeAll(text);
  }
}
