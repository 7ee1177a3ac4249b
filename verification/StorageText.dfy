/** What the localStorage reader makes of a file however it is laid out, and what a written
    file looks like.
 */
module StorageText {
  import opened Storage

  /** What may stand between entries. */
  predicate Gap(s: string) {
    forall i :: 0 <= i < |s| ==> s[i] == ' ' || s[i] == '\n' || s[i] == '\r' || s[i] == '\t' || s[i] == ','
  }

  /** q between quotes stands for s: a backslash in front of n and t makes a line feed and a
      tab of them, and in front of any other character nothing. */
  predicate Spells(q: string, s: string)
    decreases |q|
  {
    if q == "" then s == ""
    else if s == "" || q[0] == '"' then false
    else if q[0] != '\\' then s[0] == q[0] && Spells(q[1..], s[1..])
    else
      && |q| > 1 && Spells(q[2..], s[1..])
      && s[0] == if q[1] == 'n' then '\n' else if q[1] == 't' then '\t' else q[1]
  }

  /** An entry as it may be laid out. */
  datatype Field = Field(gap: string, quotedKey: string, key: string, mid: string, pad: string,
                         quotedVal: string, val: string)

  predicate Loose(f: Field) {
    && Gap(f.gap) && Spells(f.quotedKey, f.key) && ':' !in f.mid
    && (forall i :: 0 <= i < |f.pad| ==> f.pad[i] == ' ' || f.pad[i] == '\t') && Spells(f.quotedVal, f.val)
  }

  function TextOf(f: Field): string {
    f.gap + ("\"" + (f.quotedKey + ("\"" + (f.mid + (":" + (f.pad + ("\"" + (f.quotedVal + "\""))))))))
  }

  function Texts(fields: seq<Field>): string {
    if fields == [] then "" else TextOf(fields[0]) + Texts(fields[1..])
  }

  /** The later of two values of a key counts, and the empty key does not. */
  function Assigned(items: Items, fields: seq<Field>): Items
    decreases |fields|
  {
    if fields == [] then items
    else Assigned(if fields[0].key == "" then items else items[fields[0].key := fields[0].val], fields[1..])
  }

  lemma {:induction false} ParseSpelled(q: string, s: string, tail: string)
    requires Spells(q, s)
    ensures ParseBody(q + ("\"" + tail)) == Parsed(s, tail)
    decreases |q|
  {
    var t := q + ("\"" + tail);
    if q == "" {
      assert t == "\"" + tail && t[1..] == tail;
    } else if q[0] != '\\' {
      ParseSpelled(q[1..], s[1..], tail);
      assert t[0] == q[0] && t[1..] == q[1..] + ("\"" + tail) && s == [s[0]] + s[1..];
    } else {
      ParseSpelled(q[2..], s[1..], tail);
      assert t[0] == q[0] && t[1] == q[1] && t[2..] == q[2..] + ("\"" + tail) && s == [s[0]] + s[1..];
    }
  }

  lemma QuotedSpelled(q: string, s: string, tail: string)
    requires Spells(q, s)
    ensures ParseString("\"" + (q + ("\"" + tail))) == Parsed(s, tail)
  {
    hide ParseBody, Spells;
    var t := "\"" + (q + ("\"" + tail));
    assert t[0] == '"' && t[1..] == q + ("\"" + tail);
    ParseSpelled(q, s, tail);
  }

  lemma {:induction false} SkipGap(gap: string, s: string)
    requires Gap(gap) && (s == "" || s[0] == '"' || s[0] == '}')
    ensures SkipBetween(gap + s) == s
  {
    if gap == "" {
      assert gap + s == s;
    } else {
      SkipGap(gap[1..], s);
      assert (gap + s)[0] == gap[0] && (gap + s)[1..] == gap[1..] + s;
    }
  }

  lemma {:induction false} SkipMid(mid: string, s: string)
    requires ':' !in mid
    ensures From(':', mid + (":" + s)) == ":" + s
  {
    if mid == "" {
      assert mid + (":" + s) == ":" + s;
    } else {
      SkipMid(mid[1..], s);
      assert (mid + (":" + s))[0] == mid[0] && (mid + (":" + s))[1..] == mid[1..] + (":" + s);
    }
  }

  lemma {:induction false} SkipPad(pad: string, s: string)
    requires (forall i :: 0 <= i < |pad| ==> pad[i] == ' ' || pad[i] == '\t') && s != "" && s[0] == '"'
    ensures SkipSpace(pad + s) == s
  {
    if pad == "" {
      assert pad + s == s;
    } else {
      SkipPad(pad[1..], s);
      assert (pad + s)[0] == pad[0] && (pad + s)[1..] == pad[1..] + s;
    }
  }

  /** One laid-out entry is read as one assignment. */
  lemma LoadField(f: Field, tail: string, items: Items)
    requires Loose(f)
    ensures LoadLoop(TextOf(f) + tail, items) == LoadLoop(tail, if f.key == "" then items else items[f.key := f.val])
  {
    hide ParseString, SkipBetween, SkipSpace, From, Spells, LoadLoop;
    var v := "\"" + (f.quotedVal + ("\"" + tail));
    var k := "\"" + (f.quotedKey + ("\"" + (f.mid + (":" + (f.pad + v)))));
    FieldText(f, tail);
    SkipGap(f.gap, k);
    LoopStep(f.gap + k, items);
    QuotedSpelled(f.quotedKey, f.key, f.mid + (":" + (f.pad + v)));
    QuotedSpelled(f.quotedVal, f.val, tail);
    SkipMid(f.mid, f.pad + v);
    assert Behind(":" + (f.pad + v)) == f.pad + v;
    SkipPad(f.pad, v);
  }

  lemma FieldText(f: Field, tail: string)
    ensures TextOf(f) + tail ==
            f.gap + ("\"" + (f.quotedKey + ("\"" + (f.mid + (":" + (f.pad + ("\"" + (f.quotedVal + ("\"" + tail)))))))))
  {
  }

  lemma {:induction false} LoadFields(fields: seq<Field>, tail: string, items: Items)
    requires forall i :: 0 <= i < |fields| ==> Loose(fields[i])
    ensures LoadLoop(Texts(fields) + tail, items) == LoadLoop(tail, Assigned(items, fields))
    decreases |fields|
  {
    hide LoadLoop, Loose, TextOf;
    if fields == [] {
      assert Texts(fields) + tail == tail;
    } else {
      var f, rest := fields[0], fields[1..];
      assert Texts(fields) + tail == TextOf(f) + (Texts(rest) + tail);
      LoadField(f, Texts(rest) + tail, items);
      LoadFields(rest, tail, if f.key == "" then items else items[f.key := f.val]);
    }
  }

  lemma {:induction false} FindBrace(before: string, s: string)
    requires '{' !in before
    ensures From('{', before + ("{" + s)) == "{" + s
  {
    if before == "" {
      assert before + ("{" + s) == "{" + s;
    } else {
      FindBrace(before[1..], s);
      assert (before + ("{" + s))[0] == before[0] && (before + ("{" + s))[1..] == before[1..] + ("{" + s);
    }
  }

  /** A file is read as the assignments of its entries in order: whatever comes before the
      first brace, whatever stands for white space and commas between them, whichever way
      their characters are escaped, and whatever follows the last. */
  lemma LoadOfText(before: string, fields: seq<Field>, gap: string, rest: string)
    requires '{' !in before && (forall i :: 0 <= i < |fields| ==> Loose(fields[i]))
    requires Gap(gap) && (rest == "" || rest[0] == '}')
    ensures Load(before + ("{" + (Texts(fields) + (gap + rest)))) == Assigned(map[], fields)
  {
    hide LoadLoop, Loose, Texts, From, SkipBetween;
    FindBrace(before, Texts(fields) + (gap + rest));
    var s := "{" + (Texts(fields) + (gap + rest));
    assert Behind(s) == Texts(fields) + (gap + rest);
    LoadFields(fields, gap + rest, map[]);
    SkipGap(gap, rest);
    LoopStep(gap + rest, Assigned(map[], fields));
  }

  // ----- what is written -----

  function Escaping(c: char): string {
    if c == '"' then "\\\"" else if c == '\\' then "\\\\"
    else if c == '\n' then "\\n" else if c == '\t' then "\\t" else [c]
  }

  /** Escaping puts a backslash in front of quotes and backslashes, writes line feeds and
      tabs as \n and \t, and leaves every other character alone. */
  lemma {:induction false} EscapeOf(a: string, c: char, b: string)
    ensures Escape(a + [c] + b) == Escape(a) + Escaping(c) + Escape(b)
    decreases |a|
  {
    if a == "" {
      assert a + [c] + b == [c] + b && ([c] + b)[1..] == b;
      assert "" + Escaping(c) == Escaping(c);
    } else {
      EscapeOf(a[1..], c, b);
      assert (a + [c] + b)[1..] == a[1..] + [c] + b;
      Associate(EscapedChar(a[0]), Escape(a[1..]), Escaping(c), Escape(b));
    }
  }

  lemma Associate(a: string, b: string, c: string, d: string)
    ensures a + (b + c + d) == a + b + c + d
  {
  }

  /** What is escaped spells what it was. */
  lemma {:induction false} EscapeSpells(s: string)
    ensures Spells(Escape(s), s)
  {
    if s != "" {
      EscapeSpells(s[1..]);
      var e := EscapedChar(s[0]) + Escape(s[1..]);
      assert e[|EscapedChar(s[0])|..] == Escape(s[1..]);
    }
  }

  /** A file of no items, and of one. */
  lemma SmallFiles(content: string, key: string, val: string)
    ensures IsFileOf(content, map[]) ==> content == "{\n\n}\n"
    ensures IsFileOf(content, map[key := val]) ==>
      content == "{\n  \"" + Escape(key) + "\": \"" + Escape(val) + "\"\n}\n"
  {
    hide Escape;
    if IsFileOf(content, map[]) {
      var keys :| Enumerates(keys, map[]) && content == "{\n" + Entries(map[], keys, true);
      NoKeys(keys);
    }
    var items: Items := map[key := val];
    if IsFileOf(content, items) {
      var keys :| Enumerates(keys, items) && content == "{\n" + Entries(items, keys, true);
      assert key in keys;
      OneKey(keys, key);
      EntryIs(key, val);
      OneEntry(items, key);
    }
  }

  lemma NoKeys(keys: seq<string>)
    requires forall k :: k !in keys
    ensures keys == []
  {
    var first := if keys == [] then "" else keys[0];
    assert first !in keys;
  }

  lemma OneKey(keys: seq<string>, key: string)
    requires key in keys && forall k :: k in keys ==> k == key
    requires forall i, j :: 0 <= i < j < |keys| ==> keys[i] != keys[j]
    ensures keys == [key]
  {
    var first, second := keys[0], if |keys| > 1 then keys[1] else key;
    assert first in keys && second in keys;
  }

  lemma OneEntry(items: Items, key: string)
    requires key in items
    ensures "{\n" + Entries(items, [key], true) == "{\n" + Entry(key, items[key]) + "\n}\n"
  {
    hide Entry;
    assert [key][1..] == [];
    var e := Entry(key, items[key]);
    assert Entries(items, [key], true) == "" + (e + "\n}\n");
    assert "" + (e + "\n}\n") == e + "\n}\n";
  }
}
