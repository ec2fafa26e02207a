/**
  The JSON printer (include/jsonvalue.h), compact or pretty, and the law that what it prints is
  parsed back to the same value. The text of a double comes from a parameter.
*/
module JsonPrint {
  import opened Wrappers
  import opened NumberText
  import opened JsonValues
  import opened JsonParse
  import opened JsonGrammar

  /** How to print: line breaks and indentation, the width of an indentation, the text of a double. */
  datatype Style = Style(pretty: bool, width: nat, double: string -> string) {
    function Break(): string {
      if pretty then "\n" else ""
    }

    function Pad(depth: nat): string {
      if pretty then Spaces(depth * width) else ""
    }
  }

  function Spaces(n: nat): string {
    seq(n, i => ' ')
  }

  function Stringified(v: JValue, depth: nat, st: Style): string
    decreases v, 1
  {
    match v
    case Null => "null"
    case Bool(b) => if b then "true" else "false"
    case Text(raw) => "\"" + (raw + "\"")
    case Int64(n) => SignedDigits(n)
    case Uint64(u) => Digits(u)
    case Number(lexeme) => st.double(lexeme)
    case Array(items) =>
      "[" + (st.Break() + (StringifiedItems(items, depth + 1, st) + (st.Break() + (st.Pad(depth) + "]"))))
    case Object(members) =>
      "{" + (st.Break() + (StringifiedMembers(members, depth + 1, st) + (st.Break() + (st.Pad(depth) + "}"))))
  }

  function StringifiedItems(items: seq<JValue>, depth: nat, st: Style): string
    decreases items, 0
  {
    if items == [] then ""
    else
      st.Pad(depth) + (Stringified(items[0], depth, st) +
        if |items| == 1 then "" else "," + (st.Break() + StringifiedItems(items[1..], depth, st)))
  }

  function StringifiedMembers(members: seq<Member>, depth: nat, st: Style): string
    decreases members, 0
  {
    if members == [] then ""
    else
      st.Pad(depth) + ("\"" + (members[0].key + ("\":" + (Stringified(members[0].value, depth, st) +
        if |members| == 1 then "" else "," + (st.Break() + StringifiedMembers(members[1..], depth, st))))))
  }

  // The values that can be printed and parsed back

  /** The string parser accepts the whole of a raw string as it is printed. */
  predicate Acceptable(raw: string) {
    ExtractString(raw + "\"") == Some(Scanned(raw, []))
  }

  /** Values without doubles, with acceptable strings, integers above -2^63 and ordered keys. */
  ghost predicate Printable(v: JValue) {
    match v
    case Null => true
    case Bool(_) => true
    case Text(raw) => Acceptable(raw)
    case Int64(n) => -0x8000_0000_0000_0000 < n < 0
    case Uint64(u) => u < 0x1_0000_0000_0000_0000
    case Number(_) => false
    case Array(items) => forall x <- items :: Printable(x)
    case Object(members) => Sorted(members) && forall m <- members :: Acceptable(m.key) && Printable(m.value)
  }

  /** The derivation tree of a printed value: its text and its value are those of the printer. */
  ghost predicate IsPrinted(t: Tree, v: JValue, text: string, rest: string) {
    Legal(t) && Meaning(t) == v && Write(t, rest) == text + rest
  }

  lemma SpacesAreBlank(n: nat)
    ensures Blanks(Spaces(n))
  {
  }

  lemma LayoutIsBlank(depth: nat, st: Style)
    ensures Blanks(st.Break()) && Blanks(st.Pad(depth)) && Blanks(st.Break() + st.Pad(depth))
    ensures Blanks(st.Break() + (st.Break() + st.Pad(depth)))
  {
    hide Spaces;
    SpacesAreBlank(depth * st.width);
  }

  /** An acceptable string consists of units, in any surroundings. */
  lemma {:induction false} UnitsOfRaw(raw: string, rest: string) returns (units: seq<string>)
    requires Acceptable(raw)
    ensures Units(units) && Raw(units) == raw && WriteUnits(units, rest) == raw + rest
  {
    units := UnitsIn(raw, raw + "\"");
    WritesUnits(units, rest);
  }

  lemma {:induction false} UnitsIn(raw: string, s: string) returns (units: seq<string>)
    requires ExtractString(s) == Some(Scanned(raw, [])) && s == raw + "\""
    ensures Units(units) && Raw(units) == raw
    decreases |s|
  {
    hide UnitLength, IsUnit, StringUnit;
    if s[0] == '"' {
      units := [];
      assert |s| == 1;
    } else {
      var n := UnitLength(s);
      var r := ExtractString(s[n..]).value;
      UnitsAgree(s[..n]);
      assert raw == s[..n] + r.raw;
      assert s[n..] == r.raw + "\"";
      var more := UnitsIn(r.raw, s[n..]);
      units := [s[..n]] + more;
      assert units[1..] == more;
    }
  }

  lemma PrintableInteger(v: JValue)
    requires Printable(v) && (v.Int64? || v.Uint64?)
    ensures WholeNumber(v.Int64?, if v.Int64? then -v.n else v.u) == v
  {
  }

  lemma NumeralText(neg: bool, ds: string, rest: string)
    requires IsWhole(ds)
    ensures var t := Numeral(neg, ds, [], []);
      && Legal(t) && Write(t, rest) == Sign(neg) + (ds + rest) && Meaning(t) == WholeNumber(neg, ValueOf(ds))
  {
    hide IsWhole, ValueOf, WholeNumber;
    assert [] + ([] + rest) == rest;
  }

  lemma PrintedInteger(v: JValue, rest: string) returns (t: Tree)
    requires Printable(v) && (v.Int64? || v.Uint64?)
    ensures IsPrinted(t, v, if v.Int64? then SignedDigits(v.n) else Digits(v.u), rest)
  {
    hide Digits, ValueOf, WholeNumber, IsWhole, Legal, Write, Meaning;
    var m := if v.Int64? then -v.n else v.u;
    var ds := Digits(m);
    ValueOfDigits(m);
    DigitsAreWhole(m);
    NumeralText(v.Int64?, ds, rest);
    t := Numeral(v.Int64?, ds, [], []);
    PrintableInteger(v);
    if v.Int64? {
      assert "-" + (ds + rest) == "-" + ds + rest;
    } else {
      assert "" + (ds + rest) == ds + rest;
    }
  }

  lemma DigitsAreWhole(n: nat)
    ensures IsWhole(Digits(n))
  {
    if n == 0 {
      assert Digits(0) == "0";
    }
  }

  lemma {:induction false} PrintedTree(v: JValue, depth: nat, st: Style, rest: string) returns (t: Tree)
    requires Printable(v)
    ensures IsPrinted(t, v, Stringified(v, depth, st), rest)
    decreases v, 1
  {
    hide SignedDigits, Digits, Acceptable, StringifiedItems, StringifiedMembers;
    match v
    case Null =>
      t := Keyword(v);
    case Bool(_) =>
      t := Keyword(v);
    case Text(raw) =>
      var units := UnitsOfRaw(raw, "\"" + rest);
      t := Quoted(units);
      assert "\"" + (raw + ("\"" + rest)) == "\"" + (raw + "\"") + rest;
    case Int64(_) =>
      t := PrintedInteger(v, rest);
    case Uint64(_) =>
      t := PrintedInteger(v, rest);
    case Array(items) =>
      t := PrintedArray(items, depth, st, rest);
    case Object(members) =>
      t := PrintedObject(members, depth, st, rest);
  }

  lemma {:induction false} PrintedArray(items: seq<JValue>, depth: nat, st: Style, rest: string) returns (t: Tree)
    requires forall x <- items :: Printable(x)
    ensures IsPrinted(t, Array(items), Stringified(Array(items), depth, st), rest)
    decreases items, 1
  {
    hide Printable, Stringified, StringifiedItems;
    LayoutIsBlank(depth, st);
    ArrayText(items, depth, st, rest);
    var close := st.Break() + st.Pad(depth);
    if items == [] {
      t := EmptyArray(st.Break() + close);
      EmptyText(depth, st, "]" + rest);
    } else {
      var es := PrintedItems(items, depth + 1, st, st.Break(), close, "]" + rest);
      t := ArrayOf(es);
    }
  }

  lemma ArrayText(items: seq<JValue>, depth: nat, st: Style, rest: string)
    ensures Stringified(Array(items), depth, st) + rest
         == "[" + (st.Break() + (StringifiedItems(items, depth + 1, st) + ((st.Break() + st.Pad(depth)) + ("]" + rest))))
    ensures items == [] ==> StringifiedItems(items, depth + 1, st) == ""
  {
    hide StringifiedItems, Style.Break, Style.Pad;
    var b, x, p := st.Break(), StringifiedItems(items, depth + 1, st), st.Pad(depth);
    Nested("[", b, x, p, "]", rest);
    EmptyItems(depth + 1, st);
  }

  lemma EmptyItems(depth: nat, st: Style)
    ensures StringifiedItems([], depth, st) == "" && StringifiedMembers([], depth, st) == ""
  {
  }

  lemma ObjectText(members: seq<Member>, depth: nat, st: Style, rest: string)
    ensures Stringified(Object(members), depth, st) + rest
         == "{" + (st.Break() + (StringifiedMembers(members, depth + 1, st) + ((st.Break() + st.Pad(depth)) + ("}" + rest))))
    ensures members == [] ==> StringifiedMembers(members, depth + 1, st) == ""
  {
    hide StringifiedMembers, Style.Break, Style.Pad;
    var b, x, p := st.Break(), StringifiedMembers(members, depth + 1, st), st.Pad(depth);
    Nested("{", b, x, p, "}", rest);
    EmptyItems(depth + 1, st);
  }

  lemma Nested(l: string, b: string, x: string, p: string, r: string, rest: string)
    ensures (l + (b + (x + (b + (p + r))))) + rest == l + (b + (x + ((b + p) + (r + rest))))
  {
    assert (b + (p + r)) + rest == (b + p) + (r + rest);
    assert (x + (b + (p + r))) + rest == x + ((b + (p + r)) + rest);
    assert (b + (x + (b + (p + r)))) + rest == b + ((x + (b + (p + r))) + rest);
  }

  /** Nothing between the brackets but the layout. */
  lemma EmptyText(depth: nat, st: Style, rest: string)
    ensures st.Break() + ("" + ((st.Break() + st.Pad(depth)) + rest)) == (st.Break() + (st.Break() + st.Pad(depth))) + rest
  {
    hide Style.Break, Style.Pad;
    assert "" + ((st.Break() + st.Pad(depth)) + rest) == (st.Break() + st.Pad(depth)) + rest;
  }

  /** The elements of a printed array, each with the layout in front of it. */
  lemma {:induction false} PrintedItems(items: seq<JValue>, depth: nat, st: Style, open': string, close: string, rest: string)
    returns (es: Elements)
    requires items != [] && (forall x <- items :: Printable(x)) && Blanks(open') && Blanks(close)
    ensures LegalElements(es) && Meanings(es) == items
    ensures WriteElements(es, rest) == open' + (StringifiedItems(items, depth, st) + (close + rest))
    decreases items, 0
  {
    hide Printable, Stringified, Meaning, Legal, Write, Style.Break, Style.Pad, Blanks;
    LayoutIsBlank(depth, st);
    assert Blanks(open' + st.Pad(depth)) by { BlanksJoin(open', st.Pad(depth)); }
    var text := Stringified(items[0], depth, st);
    if |items| == 1 {
      var t := PrintedTree(items[0], depth, st, close + rest);
      es := Last(open' + st.Pad(depth), t, close);
      LastItem(open', st.Pad(depth), text, close + rest);
      assert items == [items[0]];
    } else {
      var more := PrintedItems(items[1..], depth, st, st.Break(), close, rest);
      var behind := "," + WriteElements(more, rest);
      var t := PrintedTree(items[0], depth, st, [] + behind);
      es := More(open' + st.Pad(depth), t, [], more);
      assert Blanks([]) by { BlanksJoin([], []); }
      NextItem(open', st.Pad(depth), text, st.Break(), StringifiedItems(items[1..], depth, st), close + rest);
      assert items == [items[0]] + items[1..];
    }
  }

  lemma BlanksJoin(a: string, b: string)
    ensures Blanks([])
    ensures Blanks(a) && Blanks(b) ==> Blanks(a + b)
  {
  }

  lemma LastItem(o: string, p: string, x: string, rest: string)
    ensures (o + p) + (x + rest) == o + ((p + (x + "")) + rest)
  {
    assert x + "" == x;
  }

  lemma NextItem(o: string, p: string, x: string, b: string, more: string, rest: string)
    ensures (o + p) + (x + ([] + ("," + (b + (more + rest))))) == o + ((p + (x + ("," + (b + more)))) + rest)
  {
    var y := "," + (b + more);
    assert [] + ("," + (b + (more + rest))) == y + rest;
    assert (p + (x + y)) + rest == p + (x + (y + rest));
  }

  lemma {:induction false} PrintedObject(members: seq<Member>, depth: nat, st: Style, rest: string) returns (t: Tree)
    requires Sorted(members) && forall m <- members :: Acceptable(m.key) && Printable(m.value)
    ensures IsPrinted(t, Object(members), Stringified(Object(members), depth, st), rest)
    decreases members, 1
  {
    hide Printable, Stringified, StringifiedMembers, Acceptable, Sorted;
    LayoutIsBlank(depth, st);
    ObjectText(members, depth, st, rest);
    var close := st.Break() + st.Pad(depth);
    if members == [] {
      t := EmptyObject(st.Break() + close);
      EmptyText(depth, st, "}" + rest);
    } else {
      assert [] + members == members;
      var ps := PrintedMembers([], members, depth + 1, st, st.Break(), close, "}" + rest);
      t := ObjectOf(ps);
    }
  }

  lemma PrintedKey(open': string, key: string, rest: string) returns (k: Key)
    requires Blanks(open') && Acceptable(key)
    ensures LegalKey(k) && Raw(k.units) == key && WriteKey(k, rest) == open' + ("\"" + (key + ("\":" + rest)))
  {
    hide Acceptable, Raw, Units;
    assert [] + (":" + ([] + rest)) == ":" + rest;
    assert "\"" + (":" + rest) == "\":" + rest;
    var units := UnitsOfRaw(key, "\":" + rest);
    k := Key(open', units, [], []);
  }

  lemma NextPutsLast(got: seq<Member>, members: seq<Member>)
    requires members != [] && Sorted(got + members)
    ensures Put(got, members[0]) == got + [members[0]] && got + [members[0]] + members[1..] == got + members
  {
    var all := got + members;
    forall x <- got ensures Before(x.key, members[0].key) {
      var i :| 0 <= i < |got| && got[i] == x;
      assert all[i] == x && all[|got|] == members[0];
    }
    PutLast(got, members[0]);
  }

  /** The members of a printed object: read in ascending order, each is put behind the ones before it. */
  lemma {:induction false} PrintedMembers(got: seq<Member>, members: seq<Member>, depth: nat, st: Style,
      open': string, close: string, rest: string)
    returns (ps: Pairs)
    requires members != [] && Sorted(got + members) && Blanks(open') && Blanks(close)
    requires forall m <- members :: Acceptable(m.key) && Printable(m.value)
    ensures LegalPairs(ps) && Gathered(ps, got) == got + members
    ensures WritePairs(ps, rest) == open' + (StringifiedMembers(members, depth, st) + (close + rest))
    decreases members, 0
  {
    hide Printable, Stringified, Meaning, Legal, Write, Style.Break, Style.Pad, Blanks, Acceptable, Sorted, Put;
    hide LegalKey, WriteKey, Raw;
    var m := members[0];
    LayoutIsBlank(depth, st);
    assert Blanks(open' + st.Pad(depth)) by { BlanksJoin(open', st.Pad(depth)); }
    NextPutsLast(got, members);
    var text := Stringified(m.value, depth, st);
    if |members| == 1 {
      var t := PrintedTree(m.value, depth, st, close + rest);
      var k := PrintedKey(open' + st.Pad(depth), m.key, Write(t, close + rest));
      ps := LastPair(k, t, close);
      LastPairText(open', st.Pad(depth), m.key, text, close + rest);
      assert members == [m];
    } else {
      var more := PrintedMembers(got + [m], members[1..], depth, st, st.Break(), close, rest);
      var behind := "," + WritePairs(more, rest);
      var t := PrintedTree(m.value, depth, st, [] + behind);
      var k := PrintedKey(open' + st.Pad(depth), m.key, Write(t, [] + behind));
      ps := MorePairs(k, t, [], more);
      assert Blanks([]) by { BlanksJoin([], []); }
      NextPairText(open', st.Pad(depth), m.key, text, st.Break(), StringifiedMembers(members[1..], depth, st), close + rest);
    }
  }

  lemma LastPairText(o: string, p: string, key: string, x: string, rest: string)
    ensures (o + p) + ("\"" + (key + ("\":" + (x + rest)))) == o + ((p + ("\"" + (key + ("\":" + (x + ""))))) + rest)
  {
    assert x + "" == x;
    var q := "\"" + (key + "\":");
    assert "\"" + (key + ("\":" + (x + rest))) == q + (x + rest);
    assert "\"" + (key + ("\":" + x)) == q + x;
  }

  lemma NextPairText(o: string, p: string, key: string, x: string, b: string, more: string, rest: string)
    ensures (o + p) + ("\"" + (key + ("\":" + (x + ([] + ("," + (b + (more + rest)))))))) ==
            o + ((p + ("\"" + (key + ("\":" + (x + ("," + (b + more))))))) + rest)
  {
    var y := x + ("," + (b + more));
    assert x + ([] + ("," + (b + (more + rest)))) == y + rest;
    LastPairText(o, p, key, y, rest);
    assert y + "" == y;
  }

  /** What is printed, compact or pretty and with any indentation, is parsed back to the same value. */
  lemma PrintsAndParses(v: JValue, st: Style)
    requires Printable(v)
    ensures Parse(Stringified(v, 0, st)) == Some(v)
  {
    hide Printable, Stringified, ParseValue, SkipBlanks, Write, Legal, Meaning;
    var t := PrintedTree(v, 0, st, []);
    var s := Stringified(v, 0, st);
    assert s + [] == s;
    StartsAValue(t, []);
    ParsesTree(t, []);
    SkipsBlanks([], s);
    SkipsBlanks([], []);
    assert [] + s == s;
  }

  // The layout

  function Indented(depth: nat, st: Style): (s: string)
    ensures |s| == depth * st.width && forall c <- s :: c == ' '
  {
    Spaces(depth * st.width)
  }

  /** Two parts between brackets. */
  function Arranged(open': string, a: string, b: string, close: string, depth: nat, st: Style): string {
    if st.pretty then
      open' + "\n" + Indented(depth + 1, st) + a + ",\n" + Indented(depth + 1, st) + b + "\n" + Indented(depth, st) + close
    else open' + a + "," + b + close
  }

  lemma Arranges(open': string, a: string, b: string, close: string, depth: nat, st: Style)
    ensures open' + (st.Break() + ((st.Pad(depth + 1) + a + "," + st.Break() + st.Pad(depth + 1) + b)
                     + ((st.Break() + st.Pad(depth)) + (close + []))))
         == Arranged(open', a, b, close, depth, st)
  {
    hide Spaces;
    assert close + [] == close;
    if st.pretty {
      Flattened(open', "\n", Spaces((depth + 1) * st.width), a, b, Spaces(depth * st.width), close);
      assert "," + "\n" == ",\n";
    } else {
      Flattened(open', "", "", a, b, "", close);
      assert open' + "" + "" + a + ("," + "") + "" + b + "" + "" + close == open' + a + "," + b + close;
    }
  }

  lemma Flattened(o: string, n: string, i: string, a: string, b: string, p: string, c: string)
    ensures o + (n + ((i + a + "," + n + i + b) + ((n + p) + c))) == o + n + i + a + ("," + n) + i + b + n + p + c
  {
    var x := i + a + "," + n + i + b;
    assert x + ((n + p) + c) == x + n + p + c;
    assert n + (x + n + p + c) == (n + x) + n + p + c;
    assert o + ((n + x) + n + p + c) == (o + (n + x)) + n + p + c;
    assert i + a + "," + n == i + a + ("," + n);
    assert o + (n + x) == o + n + i + a + ("," + n) + i + b;
  }

  lemma TwoItems(x: JValue, y: JValue, depth: nat, st: Style)
    ensures StringifiedItems([x, y], depth, st)
         == st.Pad(depth) + Stringified(x, depth, st) + "," + st.Break() + st.Pad(depth) + Stringified(y, depth, st)
  {
    hide Stringified, Style.Pad, Style.Break;
    assert [x, y][1..] == [y];
    assert StringifiedItems([y], depth, st) == st.Pad(depth) + (Stringified(y, depth, st) + "");
  }

  lemma TwoMembers(k: string, x: JValue, l: string, y: JValue, depth: nat, st: Style)
    ensures StringifiedMembers([Member(k, x), Member(l, y)], depth, st)
         == st.Pad(depth) + ("\"" + k + "\":" + Stringified(x, depth, st)) + "," + st.Break()
            + st.Pad(depth) + ("\"" + l + "\":" + Stringified(y, depth, st))
  {
    hide Stringified, Style.Pad, Style.Break;
    var members := [Member(k, x), Member(l, y)];
    assert members[1..] == [Member(l, y)];
    assert StringifiedMembers([Member(l, y)], depth, st)
        == st.Pad(depth) + ("\"" + (l + ("\":" + (Stringified(y, depth, st) + ""))));
  }

  /**
    Compact printing puts nothing between the tokens; pretty printing starts a line for every element
    or member and for the closing bracket, indented by the width for each level.
  */
  lemma LaysOutArrays(x: JValue, y: JValue, depth: nat, st: Style)
    ensures Stringified(Array([x, y]), depth, st)
         == Arranged("[", Stringified(x, depth + 1, st), Stringified(y, depth + 1, st), "]", depth, st)
    ensures Stringified(Array([]), depth, st) == if st.pretty then "[\n\n" + Indented(depth, st) + "]" else "[]"
  {
    hide Spaces, Stringified, StringifiedItems;
    var a, b := Stringified(x, depth + 1, st), Stringified(y, depth + 1, st);
    TwoItems(x, y, depth + 1, st);
    ArrayText([x, y], depth, st, []);
    Arranges("[", a, b, "]", depth, st);
    ArrayText([], depth, st, []);
    assert forall t: string :: t + [] == t;
  }

  /** Objects are laid out like arrays; a key is followed by its colon and the value. */
  lemma LaysOutObjects(k: string, x: JValue, l: string, y: JValue, depth: nat, st: Style)
    ensures Stringified(Object([Member(k, x), Member(l, y)]), depth, st)
         == Arranged("{", "\"" + k + "\":" + Stringified(x, depth + 1, st),
                     "\"" + l + "\":" + Stringified(y, depth + 1, st), "}", depth, st)
    ensures Stringified(Object([]), depth, st) == if st.pretty then "{\n\n" + Indented(depth, st) + "}" else "{}"
  {
    hide Spaces, Stringified, StringifiedMembers;
    var a, b := "\"" + k + "\":" + Stringified(x, depth + 1, st), "\"" + l + "\":" + Stringified(y, depth + 1, st);
    TwoMembers(k, x, l, y, depth + 1, st);
    ObjectText([Member(k, x), Member(l, y)], depth, st, []);
    Arranges("{", a, b, "}", depth, st);
    ObjectText([], depth, st, []);
    assert forall t: string :: t + [] == t;
  }
}
