/** The localStorage file: what is written after a change and what a start reads. */
module Storage {

  type Items = map<string, string>

  // ----- writing -----

  function EscapedChar(c: char): string {
    match c
    case '"' => "\\\""
    case '\\' => "\\\\"
    case '\n' => "\\n"
    case '\t' => "\\t"
    case _ => [c]
  }

  function Escape(s: string): string {
    if s == "" then "" else EscapedChar(s[0]) + Escape(s[1..])
  }

  method EscapeJson(s: string) returns (result: string)
    ensures result == Escape(s)
  {
    result := "";
    for i := 0 to |s|
      invariant result + Escape(s[i..]) == Escape(s)
    {
      EscapeStep(result, s[i..]);
      assert s[i..][1..] == s[i + 1..];
      match s[i]
      case '"' => result := result + "\\\"";
      case '\\' => result := result + "\\\\";
      case '\n' => result := result + "\\n";
      case '\t' => result := result + "\\t";
      case _ => result := result + [s[i]];
    }
    assert s[|s|..] == "";
  }

  lemma EscapeStep(before: string, s: string)
    requires s != ""
    ensures before + Escape(s) == before + EscapedChar(s[0]) + Escape(s[1..])
  {
    hide EscapedChar;
    assert before + (EscapedChar(s[0]) + Escape(s[1..])) == before + EscapedChar(s[0]) + Escape(s[1..]);
  }

  function Entry(key: string, val: string): string {
    "  \"" + (Escape(key) + ("\": \"" + (Escape(val) + "\"")))
  }

  /** The entries of `keys`, each with what goes before it, and the end of the file. */
  function Entries(items: Items, keys: seq<string>, first: bool): string
    requires forall k :: k in keys ==> k in items
  {
    if keys == [] then "\n}\n"
    else (if first then "" else ",\n") + (Entry(keys[0], items[keys[0]]) + Entries(items, keys[1..], false))
  }

  /** Every key of items once. */
  ghost predicate Enumerates(keys: seq<string>, items: Items) {
    && (forall k :: k in keys <==> k in items)
    && (forall i, j :: 0 <= i < j < |keys| ==> keys[i] != keys[j])
  }

  ghost predicate IsFileOf(content: string, items: Items) {
    exists keys :: Enumerates(keys, items) && content == "{\n" + Entries(items, keys, true)
  }

  // ----- reading -----

  datatype Parsed = Parsed(text: string, rest: string)

  function Unescaped(c: char): char { if c == 'n' then '\n' else if c == 't' then '\t' else c }

  /** What is left of a quoted string whose opening quote has been read. */
  function ParseBody(s: string): (p: Parsed)
    ensures |p.rest| <= |s|
    decreases |s|
  {
    if s == "" then Parsed("", "")
    else if s[0] == '"' then Parsed("", s[1..])
    else if s[0] == '\\' && |s| > 1 then
      var p := ParseBody(s[2..]);
      Parsed([Unescaped(s[1])] + p.text, p.rest)
    else
      var p := ParseBody(s[1..]);
      Parsed([s[0]] + p.text, p.rest)
  }

  function ParseString(s: string): (p: Parsed)
    ensures |p.rest| <= |s| && (p.rest == s || |p.rest| < |s|)
  {
    if s == "" || s[0] != '"' then Parsed("", s) else ParseBody(s[1..])
  }

  predicate Between(c: char) { c == ' ' || c == '\n' || c == '\r' || c == '\t' || c == ',' }

  predicate Space(c: char) { c == ' ' || c == '\t' }

  function SkipBetween(s: string): (r: string)
    ensures |r| <= |s|
  {
    if s != "" && Between(s[0]) then SkipBetween(s[1..]) else s
  }

  function SkipSpace(s: string): (r: string)
    ensures |r| <= |s|
  {
    if s != "" && Space(s[0]) then SkipSpace(s[1..]) else s
  }

  /** From the first c on. */
  function From(c: char, s: string): (r: string)
    ensures |r| <= |s| && (r != "" ==> r[0] == c)
  {
    if s == "" || s[0] == c then s else From(c, s[1..])
  }

  function Behind(s: string): (r: string)
    ensures |r| <= |s| && (s != "" ==> |r| < |s|)
  {
    if s == "" then "" else s[1..]
  }

  /** The value position behind a key. */
  function ValueAt(s: string): (r: string)
    ensures |r| <= |s|
  {
    SkipSpace(Behind(From(':', ParseString(s).rest)))
  }

  lemma ValueIsFurther(s: string)
    requires s != ""
    ensures |ValueAt(s)| < |s|
  {
    if ParseString(s).rest == s && From(':', s) == s { assert |Behind(s)| < |s|; }
  }

  function LoadLoop(s: string, items: Items): Items
    decreases |s|
  {
    var t := SkipBetween(s);
    if t == "" || t[0] == '}' then items
    else
      ValueIsFurther(t);
      var key, val := ParseString(t).text, ParseString(ValueAt(t));
      LoadLoop(val.rest, if key != "" then items[key := val.text] else items)
  }

  function Load(content: string): Items {
    var s := From('{', content);
    if s == "" then map[] else LoadLoop(Behind(s), map[])
  }

  method ParseStringAt(content: string, p: nat) returns (result: string, q: nat)
    requires p <= |content|
    ensures p <= q <= |content| && Parsed(result, content[q..]) == ParseString(content[p..])
  {
    hide ParseBody;
    if p >= |content| || content[p] != '"' { return "", p; }
    q := p + 1;
    result := "";
    assert content[p..][1..] == content[q..];
    while q < |content| && content[q] != '"'
      invariant p < q <= |content|
      invariant ParseBody(content[p + 1..]) == Onto(result, ParseBody(content[q..]))
    {
      ghost var from := q;
      BodyStep(content[from..]);
      if content[q] == '\\' && q + 1 < |content| {
        q := q + 1;
        result := result + [if content[q] == 'n' then '\n' else if content[q] == 't' then '\t' else content[q]];
        assert content[from..][2..] == content[q + 1..];
      } else {
        result := result + [content[q]];
        assert content[from..][1..] == content[q + 1..];
      }
      q := q + 1;
    }
    BodyEnd(content[q..]);
    assert result + "" == result && (q < |content| ==> content[q..][1..] == content[q + 1..]);
    if q < |content| { q := q + 1; }
  }

  lemma BodyEnd(s: string)
    ensures s == "" || s[0] == '"' ==> ParseBody(s) == Parsed("", Behind(s))
  {
  }

  function Onto(head: string, p: Parsed): Parsed { Parsed(head + p.text, p.rest) }

  lemma BodyStep(s: string)
    requires s != "" && s[0] != '"'
    ensures s[0] == '\\' && |s| > 1 ==> ParseBody(s) == Onto([Unescaped(s[1])], ParseBody(s[2..]))
    ensures !(s[0] == '\\' && |s| > 1) ==> ParseBody(s) == Onto([s[0]], ParseBody(s[1..]))
  {
  }

  method LoadStorage(content: string) returns (items: Items)
    ensures items == Load(content)
  {
    hide LoadLoop, ParseString;
    items := map[];
    var pos := 0;
    while pos < |content| && content[pos] != '{'
      invariant 0 <= pos <= |content| && From('{', content[pos..]) == From('{', content)
    {
      assert content[pos..][1..] == content[pos + 1..];
      pos := pos + 1;
    }
    if pos == |content| { return; }
    assert content[pos..][1..] == content[pos + 1..];
    pos := pos + 1;
    while pos < |content|
      invariant 0 <= pos <= |content| && LoadLoop(content[pos..], items) == Load(content)
    {
      ghost var s := content[pos..];
      while pos < |content| && Between(content[pos])
        invariant 0 <= pos <= |content| && SkipBetween(content[pos..]) == SkipBetween(s)
        invariant |content[pos..]| <= |s|
      {
        assert content[pos..][1..] == content[pos + 1..];
        pos := pos + 1;
      }
      LoopStep(s, items);
      if pos >= |content| || content[pos] == '}' { return; }
      ghost var t := content[pos..];
      assert t == SkipBetween(s);
      ValueIsFurther(t);
      var key, val;
      key, pos := ParseStringAt(content, pos);
      pos := ToValue(content, pos);
      val, pos := ParseStringAt(content, pos);
      if key != "" { items := items[key := val]; }
    }
    NothingLeft(items);
    assert content[pos..] == "";
  }

  method ToValue(content: string, p: nat) returns (q: nat)
    requires p <= |content|
    ensures p <= q <= |content| && content[q..] == SkipSpace(Behind(From(':', content[p..])))
  {
    q := p;
    while q < |content| && content[q] != ':'
      invariant p <= q <= |content| && From(':', content[q..]) == From(':', content[p..])
    {
      assert content[q..][1..] == content[q + 1..];
      q := q + 1;
    }
    if q < |content| {
      assert content[q..][1..] == content[q + 1..];
      q := q + 1;
    }
    ghost var from := content[q..];
    while q < |content| && Space(content[q])
      invariant p <= q <= |content| && SkipSpace(content[q..]) == SkipSpace(from)
    {
      assert content[q..][1..] == content[q + 1..];
      q := q + 1;
    }
  }

  lemma LoopStep(s: string, items: Items)
    ensures var t := SkipBetween(s);
      LoadLoop(s, items) ==
      if t == "" || t[0] == '}' then items
      else
        var key, val := ParseString(t).text, ParseString(ValueAt(t));
        LoadLoop(val.rest, if key != "" then items[key := val.text] else items)
  {
  }

  lemma NothingLeft(items: Items)
    ensures LoadLoop("", items) == items
  {
  }

  // ----- reading what was written -----

  lemma {:induction false} ParseOfEscape(s: string, tail: string)
    ensures ParseBody(Escape(s) + ("\"" + tail)) == Parsed(s, tail)
  {
    hide *;
    EscapeOnce(s);
    if s == "" {
      ParseClosing(tail);
    } else {
      var c, rest := s[0], s[1..];
      assert s == [c] + rest;
      ParseOfEscape(rest, tail);
      Grouped(EscapedChar(c), Escape(rest), "\"" + tail);
      ParseEscapedChar(c, Escape(rest) + ("\"" + tail));
      OntoParsed(c, rest, tail);
    }
  }

  lemma EscapeOnce(s: string)
    ensures Escape(s) == if s == "" then "" else EscapedChar(s[0]) + Escape(s[1..])
  {
    hide EscapedChar;
  }

  lemma ParseClosing(tail: string)
    ensures ParseBody("" + ("\"" + tail)) == Parsed("", tail)
  {
    var s := "" + ("\"" + tail);
    assert s[0] == '"' && s[1..] == tail;
  }

  lemma Grouped(a: string, b: string, c: string)
    ensures a + b + c == a + (b + c)
  {
  }

  lemma OntoParsed(c: char, s: string, tail: string)
    ensures Onto([c], Parsed(s, tail)) == Parsed([c] + s, tail)
  {
  }

  lemma ParseEscapedChar(c: char, more: string)
    ensures ParseBody(EscapedChar(c) + more) == Onto([c], ParseBody(more))
  {
    var s := EscapedChar(c) + more;
    if c == '"' || c == '\\' || c == '\n' || c == '\t' {
      assert s[2..] == more && s[0] == '\\' && Unescaped(s[1]) == c;
    } else {
      assert s[1..] == more && s[0] == c;
    }
  }

  lemma SkipTo(head: string, s: string)
    requires head == ",\n  " || head == "  " || head == "\n  "
    requires s != "" && !Between(s[0])
    ensures SkipBetween(head + s) == s
  {
    var one := " " + s;
    assert one[1..] == s;
    var two := "  " + s;
    assert two[1..] == one;
    var three := "\n  " + s;
    assert three[1..] == two;
    var four := ",\n  " + s;
    assert four[1..] == three;
    assert SkipBetween(s) == s && SkipBetween(one) == s && SkipBetween(two) == s && SkipBetween(three) == s;
    assert head + s == two || head + s == three || head + s == four;
  }

  /** One entry is read as one assignment. */
  lemma LoadEntry(head: string, key: string, val: string, tail: string, items: Items)
    requires head == ",\n" || head == "" || head == "\n"
    ensures LoadLoop(head + (Entry(key, val) + tail), items)
         == LoadLoop(tail, if key != "" then items[key := val] else items)
  {
    hide *;
    var v := "\"" + (Escape(val) + ("\"" + tail));
    var k := "\"" + (Escape(key) + ("\"" + (": " + v)));
    EntryText(head, key, val, tail);
    assert head + "  " == ",\n  " || head + "  " == "  " || head + "  " == "\n  ";
    assert !Between(k[0]) by { QuoteIsNotBetween(); }
    SkipTo(head + "  ", k);
    LoopStep(head + "  " + k, items);
    QuotedText(key, ": " + v);
    QuotedText(val, tail);
    ColonSpace(v);
    ValueBehind(k, v);
  }

  lemma EntryText(head: string, key: string, val: string, tail: string)
    ensures var v := "\"" + (Escape(val) + ("\"" + tail));
            var k := "\"" + (Escape(key) + ("\"" + (": " + v)));
      head + (Entry(key, val) + tail) == head + "  " + k
  {
    hide Escape;
  }

  lemma QuoteIsNotBetween()
    ensures !Between('"')
  {
  }

  /** A quoted string is read as what was quoted. */
  lemma QuotedText(s: string, tail: string)
    ensures ParseString("\"" + (Escape(s) + ("\"" + tail))) == Parsed(s, tail)
  {
    hide Escape, ParseBody;
    var q := "\"" + (Escape(s) + ("\"" + tail));
    assert q[0] == '"' && q[1..] == Escape(s) + ("\"" + tail);
    ParseOfEscape(s, tail);
  }

  lemma ValueBehind(s: string, v: string)
    requires ParseString(s).rest == ": " + v && SkipSpace(Behind(From(':', ": " + v))) == v
    ensures ValueAt(s) == v
  {
  }

  lemma ColonSpace(v: string)
    requires v != "" && v[0] == '"'
    ensures SkipSpace(Behind(From(':', ": " + v))) == v
  {
    var s := " " + v;
    assert (": " + v)[1..] == s && s[1..] == v;
  }

  /** items with the listed keys of `all` put on top, the empty one left out. */
  function With(items: Items, all: Items, keys: seq<string>): Items
    requires forall k :: k in keys ==> k in all
    decreases |keys|
  {
    if keys == [] then items
    else With(if keys[0] != "" then items[keys[0] := all[keys[0]]] else items, all, keys[1..])
  }

  lemma {:induction false} LoadEntries(head: string, items: Items, all: Items, keys: seq<string>, first: bool)
    requires forall k :: k in keys ==> k in all
    requires head == if first then "\n" else ""
    ensures LoadLoop(head + Entries(all, keys, first), items) == With(items, all, keys)
    decreases |keys|
  {
    hide LoadLoop, Entry;
    if keys == [] {
      EndOfFile(head, items);
    } else {
      var comma := if first then "" else ",\n";
      var rest := Entries(all, keys[1..], false);
      assert head + (comma + (Entry(keys[0], all[keys[0]]) + rest))
          == head + comma + (Entry(keys[0], all[keys[0]]) + rest);
      LoadEntry(head + comma, keys[0], all[keys[0]], rest, items);
      var next := if keys[0] != "" then items[keys[0] := all[keys[0]]] else items;
      LoadEntries("", next, all, keys[1..], false);
      assert "" + rest == rest;
    }
  }

  lemma EndOfFile(head: string, items: Items)
    requires head == "" || head == "\n"
    ensures LoadLoop(head + "\n}\n", items) == items
  {
    var end := "}\n";
    var one := "\n" + end;
    assert one[1..] == end && SkipBetween(end) == end;
    assert SkipBetween(one) == end;
    var two := "\n" + one;
    assert two[1..] == one;
    assert SkipBetween(two) == end;
    assert head + "\n}\n" == one || head + "\n}\n" == two;
  }

  lemma {:induction false} WithIs(items: Items, all: Items, keys: seq<string>)
    requires forall k :: k in keys ==> k in all
    ensures forall k :: k in With(items, all, keys) <==> k in items || (k in keys && k != "")
    ensures forall k :: k in With(items, all, keys) ==>
      With(items, all, keys)[k] == if k in keys && k != "" then all[k] else items[k]
    decreases |keys|
  {
    if keys != [] {
      WithIs(if keys[0] != "" then items[keys[0] := all[keys[0]]] else items, all, keys[1..]);
      assert forall k :: k in keys <==> k == keys[0] || k in keys[1..];
    }
  }

  function WithoutEmpty(items: Items): Items { map k | k in items && k != "" :: items[k] }

  /** A file of the items, in whatever order, is read as the items without the empty
      key; so it is read back whole exactly when the empty key is not there. */
  lemma LoadOfSave(content: string, items: Items)
    requires IsFileOf(content, items)
    ensures Load(content) == WithoutEmpty(items)
    ensures Load(content) == items <==> "" !in items
  {
    hide LoadLoop, Entries;
    var keys :| Enumerates(keys, items) && content == "{\n" + Entries(items, keys, true);
    var body := Entries(items, keys, true);
    assert content[0] == '{' && content[1..] == "\n" + body;
    LoadEntries("\n", map[], items, keys, true);
    WithIs(map[], items, keys);
  }

  lemma {:induction false} LoopHasNoEmpty(s: string, items: Items)
    requires "" !in items
    ensures "" !in LoadLoop(s, items)
    decreases |s|
  {
    hide ParseString;
    LoopStep(s, items);
    var t := SkipBetween(s);
    if t != "" && t[0] != '}' {
      ValueIsFurther(t);
      var key, val := ParseString(t).text, ParseString(ValueAt(t));
      LoopHasNoEmpty(val.rest, if key != "" then items[key := val.text] else items);
    }
  }

  lemma LoadHasNoEmpty(content: string)
    ensures "" !in Load(content) && WithoutEmpty(Load(content)) == Load(content)
  {
    LoopHasNoEmpty(Behind(From('{', content)), map[]);
  }

  // ----- the store -----

  /** The entries written so far. */
  function Heads(items: Items, keys: seq<string>): string
    requires forall k :: k in keys ==> k in items
  {
    if keys == [] then ""
    else
      Heads(items, keys[..|keys| - 1]) + (if |keys| > 1 then ",\n" else "")
      + Entry(keys[|keys| - 1], items[keys[|keys| - 1]])
  }

  lemma NoHeads(items: Items)
    ensures "{\n" + Heads(items, []) == "{\n"
  {
  }

  lemma HeadsMore(items: Items, keys: seq<string>, key: string)
    requires key in items && forall k :: k in keys ==> k in items
    ensures "{\n" + Heads(items, keys + [key])
         == "{\n" + Heads(items, keys) + (if keys != [] then ",\n" else "") + Entry(key, items[key])
  {
    hide Entry;
    assert (keys + [key])[..|keys|] == keys;
  }

  lemma EntryIs(key: string, val: string)
    ensures Entry(key, val) == "  \"" + Escape(key) + "\": \"" + Escape(val) + "\""
  {
    hide Escape;
  }

  lemma {:induction false} HeadsEnd(items: Items, keys: seq<string>, i: nat)
    requires (forall k :: k in keys ==> k in items) && i <= |keys|
    ensures Heads(items, keys[..i]) + Entries(items, keys[i..], i == 0) == Heads(items, keys) + "\n}\n"
    decreases |keys| - i
  {
    hide Entry;
    if i == |keys| {
      assert keys[..i] == keys;
    } else {
      HeadsEnd(items, keys, i + 1);
      assert keys[..i + 1][..i] == keys[..i] && keys[i..][1..] == keys[i + 1..];
      var comma, e, rest := if i == 0 then "" else ",\n", Entry(keys[i], items[keys[i]]),
                            Entries(items, keys[i + 1..], false);
      assert Heads(items, keys[..i]) + (comma + (e + rest)) == Heads(items, keys[..i]) + comma + e + rest;
    }
  }

  lemma WholeFile(items: Items, keys: seq<string>, file: string)
    requires Enumerates(keys, items) && file == "{\n" + Heads(items, keys)
    requires Heads(items, keys[..0]) + Entries(items, keys[0..], 0 == 0) == Heads(items, keys) + "\n}\n"
    ensures IsFileOf(file + "\n}\n", items)
  {
    hide Entry, Entries, Heads;
    assert keys[0..] == keys && keys[..0] == [];
    assert Heads(items, []) == "" by { NothingBefore(items); }
    assert file + "\n}\n" == "{\n" + (Heads(items, keys) + "\n}\n");
    assert "" + Entries(items, keys, true) == Entries(items, keys, true);
  }

  lemma EnumeratesNow(keys: seq<string>, items: Items)
    requires forall k :: k in keys <==> k in items
    requires forall i, j :: 0 <= i < j < |keys| ==> keys[i] != keys[j]
    ensures Enumerates(keys, items)
  {
  }

  lemma NothingBefore(items: Items)
    ensures Heads(items, []) == ""
  {
  }

  class StorageState {
    var items: Items
    var file: string

    /** What a start would read is what is there, but for the empty key. */
    ghost predicate Valid()
      reads this
    {
      Load(file) == WithoutEmpty(items)
    }

    constructor (file: string)
      ensures Valid() && this.file == file && items == Load(file)
    {
      new;
      this.file := file;
      items := LoadStorage(file);
      LoadHasNoEmpty(file);
    }

    method SaveStorage()
      modifies this`file
      ensures Valid() && IsFileOf(file, items)
    {
      WriteFile();
      LoadOfSave(file, items);
    }

    method WriteFile()
      modifies this`file
      ensures IsFileOf(file, items)
    {
      hide *;
      var keys: seq<string> := [];
      var left := items.Keys;
      file := "{\n";
      var first := true;
      NoHeads(items);
      while left != {}
        invariant left <= items.Keys && (forall k :: k in keys <==> k in items && k !in left)
        invariant forall i, j :: 0 <= i < j < |keys| ==> keys[i] != keys[j]
        invariant first == (keys == []) && file == "{\n" + Heads(items, keys)
        decreases left
      {
        var key :| key in left;
        if !first { file := file + ",\n"; }
        var k := EscapeJson(key);
        var v := EscapeJson(items[key]);
        HeadsMore(items, keys, key);
        EntryIs(key, items[key]);
        file := file + ("  \"" + k + "\": \"" + v + "\"");
        first := false;
        keys := keys + [key];
        left := left - {key};
      }
      HeadsEnd(items, keys, 0);
      assert Enumerates(keys, items) by { EnumeratesNow(keys, items); }
      WholeFile(items, keys, file);
      file := file + "\n}\n";
    }

    method SetItem(key: string, val: string)
      modifies this
      ensures Valid() && items == old(items)[key := val]
    {
      items := items[key := val];
      SaveStorage();
    }

    method RemoveItem(key: string)
      modifies this
      ensures Valid() && items == old(items) - {key}
    {
      items := items - {key};
      SaveStorage();
    }

    /** The proxy's delete, which writes only if there was something to remove. */
    method Remove(key: string)
      requires Valid()
      modifies this
      ensures Valid() && items == old(items) - {key}
    {
      if key in items {
        items := items - {key};
        SaveStorage();
      } else {
        assert items - {key} == items;
      }
    }

    method Clear()
      modifies this
      ensures Valid() && items == map[]
    {
      items := map[];
      SaveStorage();
    }
  }
}
