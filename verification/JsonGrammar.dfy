/**
  The language the parser of include/jsonvalue.h accepts, as the derivation trees of the grammar
  in sections 2 to 7 of RFC 8259, read over characters, with a raw tab allowed inside strings.
  The parser accepts exactly the texts that have a tree, and gives the value of the tree.
*/
module JsonGrammar {
  import opened Wrappers
  import opened NumberText
  import opened JsonValues
  import opened JsonParse

  datatype Tree =
    | Keyword(word: JValue)
    | Quoted(units: seq<string>)
    | Numeral(neg: bool, whole: string, fraction: string, exponent: string)
    | EmptyArray(blanks: string)
    | ArrayOf(elements: Elements)
    | EmptyObject(blanks: string)
    | ObjectOf(pairs: Pairs)

  datatype Elements = Last(before: string, value: Tree, after: string)
                    | More(before: string, value: Tree, after: string, rest: Elements)

  datatype Key = Key(before: string, units: seq<string>, beforeColon: string, afterColon: string)

  datatype Pairs = LastPair(key: Key, value: Tree, after: string)
                 | MorePairs(key: Key, value: Tree, after: string, rest: Pairs)

  // The characters of the grammar, by their code points

  predicate Blank(c: char) {
    c as int == 0x20 || c as int == 0x09 || c as int == 0x0A || c as int == 0x0D
  }

  predicate Digit(c: char) {
    0x30 <= c as int <= 0x39
  }

  predicate HexDigit(c: char) {
    Digit(c) || 0x41 <= c as int <= 0x46 || 0x61 <= c as int <= 0x66
  }

  /** The letter of a two-character escape: quotation mark, backslash, slash, b, f, n, r or t. */
  predicate EscapeLetter(c: char) {
    var n := c as int;
    n == 0x22 || n == 0x5C || n == 0x2F || n == 0x62 || n == 0x66 || n == 0x6E || n == 0x72 || n == 0x74
  }

  /** A character that stands for itself in a string; the tab is one here, against section 7. */
  predicate Unescaped(c: char) {
    c as int == 0x09 || (c as int >= 0x20 && c as int != 0x22 && c as int != 0x5C)
  }

  /** One character of a string: one that stands for itself, or an escape sequence. */
  predicate StringUnit(u: string) {
    || (|u| == 1 && Unescaped(u[0]))
    || (|u| == 2 && u[0] as int == 0x5C && EscapeLetter(u[1]))
    || (|u| == 6 && u[0] as int == 0x5C && u[1] as int == 0x75 && forall i :: 2 <= i < 6 ==> HexDigit(u[i]))
  }

  // The grammar

  predicate Blanks(s: string) {
    forall c <- s :: Blank(c)
  }

  predicate Units(units: seq<string>) {
    forall u <- units :: StringUnit(u)
  }

  predicate SomeDigits(s: string) {
    s != [] && forall c <- s :: Digit(c)
  }

  predicate IsWhole(s: string) {
    s == "0" || (SomeDigits(s) && s[0] != '0')
  }

  predicate IsFraction(s: string) {
    s == [] || (s[0] == '.' && SomeDigits(s[1..]))
  }

  predicate IsExponent(s: string) {
    || s == []
    || (|s| >= 2 && (s[0] == 'e' || s[0] == 'E')
        && SomeDigits(if s[1] == '+' || s[1] == '-' then s[2..] else s[1..]))
  }

  predicate Legal(t: Tree) {
    match t
    case Keyword(w) => w.Null? || w.Bool?
    case Quoted(units) => Units(units)
    case Numeral(_, whole, fraction, exponent) => IsWhole(whole) && IsFraction(fraction) && IsExponent(exponent)
    case EmptyArray(b) => Blanks(b)
    case ArrayOf(es) => LegalElements(es)
    case EmptyObject(b) => Blanks(b)
    case ObjectOf(ps) => LegalPairs(ps)
  }

  predicate LegalElements(es: Elements) {
    Blanks(es.before) && Legal(es.value) && Blanks(es.after) && (es.More? ==> LegalElements(es.rest))
  }

  predicate LegalKey(k: Key) {
    Blanks(k.before) && Units(k.units) && Blanks(k.beforeColon) && Blanks(k.afterColon)
  }

  predicate LegalPairs(ps: Pairs) {
    LegalKey(ps.key) && Legal(ps.value) && Blanks(ps.after) && (ps.MorePairs? ==> LegalPairs(ps.rest))
  }

  // The text of a tree, written in front of what follows it

  function WriteUnits(units: seq<string>, rest: string): string {
    if units == [] then rest else units[0] + WriteUnits(units[1..], rest)
  }

  function Raw(units: seq<string>): string {
    WriteUnits(units, [])
  }

  lemma {:induction false} WritesUnits(units: seq<string>, rest: string)
    ensures WriteUnits(units, rest) == Raw(units) + rest
  {
    if units != [] {
      WritesUnits(units[1..], rest);
      assert units[0] + (Raw(units[1..]) + rest) == Raw(units) + rest;
    } else {
      assert [] + rest == rest;
    }
  }

  function Spelled(w: JValue): string
    requires w.Null? || w.Bool?
  {
    if w.Null? then "null" else if w.b then "true" else "false"
  }

  function Sign(neg: bool): string {
    if neg then "-" else ""
  }

  function Write(t: Tree, rest: string): string
    requires Legal(t)
  {
    match t
    case Keyword(w) => Spelled(w) + rest
    case Quoted(units) => "\"" + WriteUnits(units, "\"" + rest)
    case Numeral(neg, whole, fraction, exponent) => Sign(neg) + (whole + (fraction + (exponent + rest)))
    case EmptyArray(b) => "[" + (b + ("]" + rest))
    case ArrayOf(es) => "[" + WriteElements(es, "]" + rest)
    case EmptyObject(b) => "{" + (b + ("}" + rest))
    case ObjectOf(ps) => "{" + WritePairs(ps, "}" + rest)
  }

  function WriteElements(es: Elements, rest: string): string
    requires LegalElements(es)
  {
    es.before + Write(es.value, es.after + if es.Last? then rest else "," + WriteElements(es.rest, rest))
  }

  function WriteKey(k: Key, rest: string): string {
    k.before + ("\"" + WriteUnits(k.units, "\"" + (k.beforeColon + (":" + (k.afterColon + rest)))))
  }

  function WritePairs(ps: Pairs, rest: string): string
    requires LegalPairs(ps)
  {
    WriteKey(ps.key, Write(ps.value, ps.after + if ps.LastPair? then rest else "," + WritePairs(ps.rest, rest)))
  }

  // The value of a tree

  function Lexeme(neg: bool, whole: string, fraction: string, exponent: string): string {
    Sign(neg) + (whole + (fraction + exponent))
  }

  /** A number without fraction and exponent, reduced to 64 bits; with a minus sign, its two's complement. */
  function WholeNumber(neg: bool, n: nat): JValue {
    var m := n % 0x1_0000_0000_0000_0000;
    if !neg || m == 0 then Uint64(m)
    else if m <= 0x8000_0000_0000_0000 then Int64(0 - m)
    else Uint64(0x1_0000_0000_0000_0000 - m)
  }

  function Meaning(t: Tree): JValue
    requires Legal(t)
  {
    match t
    case Keyword(w) => w
    case Quoted(units) => Text(Raw(units))
    case Numeral(neg, whole, fraction, exponent) =>
      if fraction == [] && exponent == [] then WholeNumber(neg, ValueOf(whole))
      else Number(Lexeme(neg, whole, fraction, exponent))
    case EmptyArray(_) => Array([])
    case ArrayOf(es) => Array(Meanings(es))
    case EmptyObject(_) => Object([])
    case ObjectOf(ps) => Object(Gathered(ps, []))
  }

  function Meanings(es: Elements): (vs: seq<JValue>)
    requires LegalElements(es)
  {
    [Meaning(es.value)] + if es.Last? then [] else Meanings(es.rest)
  }

  /** Members are put one after the other, so the last one of a key stays. */
  function Gathered(ps: Pairs, got: seq<Member>): seq<Member>
    requires LegalPairs(ps)
    decreases ps
  {
    var members := Put(got, Member(Raw(ps.key.units), Meaning(ps.value)));
    if ps.LastPair? then members else Gathered(ps.rest, members)
  }

  // Every tree's text is parsed to the tree's value

  /** What may follow a value inside a text. */
  predicate Follows(s: string) {
    s == [] || Blank(s[0]) || s[0] == ',' || s[0] == ']' || s[0] == '}'
  }

  /** The parser's comparisons pick out the characters of the grammar. */
  lemma ClassesAgree(c: char)
    ensures IsBlank(c) <==> Blank(c)
    ensures IsDigit(c) <==> Digit(c)
    ensures IsHex(c) <==> HexDigit(c)
    ensures IsEscape(c) <==> EscapeLetter(c)
    ensures IsPlain(c) <==> Unescaped(c)
  {
  }

  lemma UnitsAgree(u: string)
    ensures IsUnit(u) <==> StringUnit(u)
  {
  }

  lemma IntegersAgree(neg: bool, n: nat)
    ensures Integer(neg, Bits64.Wrap(n)) == WholeNumber(neg, n)
  {
  }

  lemma StartsWhole(s: string)
    requires IsWhole(s)
    ensures AllDigits(s) && s != [] && IsDigit(s[0])
  {
    assert s[0] in s;
  }

  lemma {:induction false} SkipsBlanks(b: string, rest: string)
    requires Blanks(b)
    ensures SkipBlanks(b + rest) == SkipBlanks(rest)
    ensures rest == [] || !Blank(rest[0]) ==> SkipBlanks(b + rest) == rest
  {
    if b == [] {
      assert b + rest == rest;
    } else {
      assert b[0] in b && (b + rest)[1..] == b[1..] + rest;
      SkipsBlanks(b[1..], rest);
    }
  }

  lemma UnitIsFound(u: string, rest: string)
    requires StringUnit(u)
    ensures u[0] != '"' && UnitLength(u + rest) == |u|
  {
    var s := u + rest;
    assert forall i :: 0 <= i < |u| ==> s[i] == u[i];
  }

  lemma {:induction false} ExtractsUnits(units: seq<string>, rest: string)
    requires Units(units)
    ensures ExtractString(WriteUnits(units, "\"" + rest)) == Some(Scanned(Raw(units), rest))
  {
    hide UnitLength;
    if units == [] {
      assert ("\"" + rest)[1..] == rest;
    } else {
      var s := WriteUnits(units[1..], "\"" + rest);
      UnitIsFound(units[0], s);
      ExtractsUnits(units[1..], rest);
      assert (units[0] + s)[|units[0]|..] == s && (units[0] + s)[..|units[0]|] == units[0];
    }
  }

  lemma {:induction false} SkipsDigits(ds: string, rest: string)
    requires AllDigits(ds) && StopsDigits(rest)
    ensures SkipDigits(ds + rest) == rest
  {
    if ds == [] {
      assert ds + rest == rest;
    } else {
      assert (ds + rest)[1..] == ds[1..] + rest;
      SkipsDigits(ds[1..], rest);
    }
  }

  lemma ReadsWhole(whole: string, rest: string)
    requires IsWhole(whole) && StopsDigits(rest)
    ensures AllDigits(whole) && StartsWithDigit(whole + rest)
    ensures ReadWhole(whole + rest) == Parsed(Bits64.Wrap(ValueOf(whole)), rest)
  {
    hide ReadDigits;
    StartsWhole(whole);
    assert (whole + rest)[0] == whole[0];
    if whole == "0" {
      assert (whole + rest)[1..] == rest;
      assert ValueOf("0") == 0 by { assert "0"[..0] == []; }
    } else {
      ReadsDigits([], whole, rest, Bits64);
      assert [] + whole == whole && ValueOf([]) == 0;
    }
  }

  lemma SkipsFraction(f: string, rest: string)
    requires IsFraction(f) && StopsDigits(rest) && !StartsWith(rest, '.')
    ensures SkipFraction(f + rest) == Some(rest)
  {
    if f == [] {
      assert f + rest == rest;
    } else {
      assert (f + rest)[1..] == f[1..] + rest;
      SkipsDigits(f[1..], rest);
    }
  }

  lemma SkipsExponent(e: string, rest: string)
    requires IsExponent(e) && StopsDigits(rest) && !StartsExponent(rest)
    ensures SkipExponent(e + rest) == Some(rest)
  {
    if e == [] {
      assert e + rest == rest;
    } else {
      var ds := SkipSign(e[1..]);
      assert (e + rest)[1..] == e[1..] + rest;
      assert SkipSign(e[1..] + rest) == ds + rest;
      SkipsDigits(ds, rest);
    }
  }

  lemma ParsesNumeral(t: Tree, rest: string)
    requires t.Numeral? && Legal(t) && Follows(rest)
    ensures StartsWith(Write(t, rest), '-') || StartsWithDigit(Write(t, rest))
    ensures ParseNumber(Write(t, rest)) == Some(Step(Meaning(t), rest))
  {
    hide Legal, Write, Meaning, ParseNumber, Follows;
    if t.fraction == [] && t.exponent == [] {
      ParsesInteger(t, rest);
    } else {
      ParsesLexeme(t, rest);
    }
  }

  lemma ParsesInteger(t: Tree, rest: string)
    requires t.Numeral? && Legal(t) && Follows(rest) && t.fraction == [] && t.exponent == []
    ensures StartsWith(Write(t, rest), '-') || StartsWithDigit(Write(t, rest))
    ensures ParseNumber(Write(t, rest)) == Some(Step(Meaning(t), rest))
  {
    hide ReadWhole, SkipFraction, SkipExponent, SkipDigits, Integer, WholeNumber, ValueOf, Word.Wrap;
    hide IsFraction, IsExponent, Sign;
    var s1 := t.whole + rest;
    StartsWhole(t.whole);
    assert t.fraction + (t.exponent + rest) == rest;
    assert s1[0] == t.whole[0];
    OpensSigned(t.neg, s1);
    ReadsWhole(t.whole, rest);
    IntegersAgree(t.neg, ValueOf(t.whole));
  }

  lemma OpensSigned(neg: bool, s1: string)
    requires StartsWithDigit(s1)
    ensures var s := Sign(neg) + s1; (s[0] == '-') == neg && (neg || IsDigit(s[0])) && (if neg then s[1..] else s) == s1
  {
    assert Sign(neg) + s1 == if neg then "-" + s1 else s1;
  }

  lemma ParsesLexeme(t: Tree, rest: string)
    requires t.Numeral? && Legal(t) && Follows(rest) && (t.fraction != [] || t.exponent != [])
    ensures StartsWith(Write(t, rest), '-') || StartsWithDigit(Write(t, rest))
    ensures ParseNumber(Write(t, rest)) == Some(Step(Meaning(t), rest))
  {
    hide ParseNumber, SkipFraction, SkipExponent, IsFraction, IsExponent, SkipDigits, ValueOf, Word.Wrap;
    hide StartsExponent, Follows, StopsDigits, Sign;
    var Numeral(neg, whole, fraction, exponent) := t;
    var s2 := fraction + (exponent + rest);
    SuffixStarts(fraction, exponent, rest);
    SkipsFraction(fraction, exponent + rest);
    ExponentIsLast(rest);
    SkipsExponent(exponent, rest);
    StartsWhole(whole);
    ReadsLexeme(neg, whole, s2, rest);
    LexemeOf(Sign(neg), whole, fraction, exponent, rest);
  }

  lemma ExponentIsLast(rest: string)
    requires Follows(rest)
    ensures StopsDigits(rest) && !StartsExponent(rest)
  {
  }

  lemma ReadsLexeme(neg: bool, whole: string, s2: string, rest: string)
    requires IsWhole(whole) && IsDigit(whole[0]) && StopsDigits(s2) && (StartsWith(s2, '.') || StartsExponent(s2))
    requires SkipFraction(s2).Some? && SkipExponent(SkipFraction(s2).value) == Some(rest)
    ensures var s := Sign(neg) + (whole + s2);
      && (StartsWith(s, '-') || StartsWithDigit(s))
      && |rest| <= |s| && ParseNumber(s) == Some(Step(Number(s[..|s| - |rest|]), rest))
  {
    hide ReadWhole, SkipFraction, SkipExponent, SkipDigits, Integer, ValueOf, Word.Wrap, Sign;
    assert (whole + s2)[0] == whole[0];
    OpensSigned(neg, whole + s2);
    ReadsWhole(whole, s2);
  }

  lemma LexemeOf(a: string, b: string, c: string, d: string, rest: string)
    ensures var s := a + (b + (c + (d + rest))); s[..|s| - |rest|] == a + (b + (c + d))
  {
    var s := a + (b + (c + (d + rest)));
    assert c + (d + rest) == (c + d) + rest;
    assert b + ((c + d) + rest) == (b + (c + d)) + rest;
    assert s == (a + (b + (c + d))) + rest;
  }

  lemma SuffixStarts(fraction: string, exponent: string, rest: string)
    requires IsFraction(fraction) && IsExponent(exponent) && Follows(rest)
    ensures var s := exponent + rest; StopsDigits(s) && !StartsWith(s, '.')
    ensures var s := fraction + (exponent + rest);
      StopsDigits(s) && (StartsWith(s, '.') || StartsExponent(s) <==> fraction != [] || exponent != [])
  {
    var s := exponent + rest;
    assert exponent != [] ==> s[0] == exponent[0];
    assert exponent == [] ==> s == rest;
    assert fraction != [] ==> (fraction + s)[0] == fraction[0];
    assert fraction == [] ==> fraction + s == s;
  }

  /** A value's text begins with no blank and no closing bracket. */
  lemma StartsAValue(t: Tree, rest: string)
    requires Legal(t)
    ensures Write(t, rest) != []
    ensures var c := Write(t, rest)[0]; !Blank(c) && c != ']' && c != '}'
  {
    if t.Numeral? {
      StartsWhole(t.whole);
      assert Write(t, rest)[0] == if t.neg then '-' else t.whole[0];
    }
  }

  lemma {:induction false} ParsesTree(t: Tree, rest: string)
    requires Legal(t) && Follows(rest)
    ensures ParseValue(Write(t, rest)) == Some(Step(Meaning(t), rest))
    decreases t
  {
    hide ExtractString, ParseNumber, ParseElements, ParseMembers, Legal, Meaning, Write;
    match t
    case Keyword(w) =>
      ParsesKeyword(t, rest);
    case Quoted(units) =>
      ParsesQuoted(t, rest);
    case Numeral(_, _, _, _) =>
      ParsesNumeral(t, rest);
      NumbersAreNumbers(Write(t, rest));
    case EmptyArray(b) =>
      ParsesEmpty(t, rest);
    case ArrayOf(es) =>
      ArrayOpens(t, rest);
      ParsesElements(es, [], rest);
      assert [] + Meanings(es) == Meanings(es);
    case EmptyObject(b) =>
      ParsesEmpty(t, rest);
    case ObjectOf(ps) =>
      ObjectOpens(t, rest);
      ParsesPairs(ps, [], rest);
  }

  lemma ParsesKeyword(t: Tree, rest: string)
    requires t.Keyword? && Legal(t)
    ensures ParseValue(Write(t, rest)) == Some(Step(Meaning(t), rest))
  {
    hide ParseNumber, ParseElements, ParseMembers;
    var word := Spelled(t.word);
    var s := word + rest;
    assert s[|word|..] == rest && s[..|word|] == word;
    assert s[0] == word[0];
  }

  lemma ParsesQuoted(t: Tree, rest: string)
    requires t.Quoted? && Legal(t)
    ensures ParseValue(Write(t, rest)) == Some(Step(Meaning(t), rest))
  {
    hide ExtractString, ParseNumber, ParseElements, ParseMembers, WriteUnits;
    ExtractsUnits(t.units, rest);
    assert Write(t, rest)[1..] == WriteUnits(t.units, "\"" + rest);
  }

  lemma NumbersAreNumbers(s: string)
    requires StartsWith(s, '-') || StartsWithDigit(s)
    ensures ParseValue(s) == ParseNumber(s)
  {
    hide ParseNumber;
  }

  lemma ParsesEmpty(t: Tree, rest: string)
    requires (t.EmptyArray? || t.EmptyObject?) && Legal(t)
    ensures ParseValue(Write(t, rest)) == Some(Step(Meaning(t), rest))
  {
    hide SkipBlanks;
    var close := if t.EmptyArray? then "]" else "}";
    var s := close + rest;
    assert Write(t, rest)[1..] == t.blanks + s;
    SkipsBlanks(t.blanks, s);
    assert s[1..] == rest;
  }

  lemma ArrayOpens(t: Tree, rest: string)
    requires t.ArrayOf? && Legal(t)
    ensures LegalElements(t.elements) && Meaning(t) == Array(Meanings(t.elements))
    ensures ParseValue(Write(t, rest)) == ParseElements(WriteElements(t.elements, "]" + rest), [])
  {
    hide ParseElements, WriteElements, LegalElements, Meanings;
    assert Write(t, rest)[1..] == WriteElements(t.elements, "]" + rest);
  }

  lemma ObjectOpens(t: Tree, rest: string)
    requires t.ObjectOf? && Legal(t)
    ensures LegalPairs(t.pairs) && Meaning(t) == Object(Gathered(t.pairs, []))
    ensures ParseValue(Write(t, rest)) == ParseMembers(WritePairs(t.pairs, "}" + rest), [])
  {
    hide ParseMembers, WritePairs, LegalPairs, Gathered;
    assert Write(t, rest)[1..] == WritePairs(t.pairs, "}" + rest);
  }

  lemma {:induction false} ParsesElements(es: Elements, got: seq<JValue>, rest: string)
    requires LegalElements(es)
    ensures ParseElements(WriteElements(es, "]" + rest), got) == Some(Step(Array(got + Meanings(es)), rest))
    decreases es
  {
    hide SkipBlanks, ParseValue, Write, Legal, Meaning;
    var tail := if es.Last? then "]" + rest else "," + WriteElements(es.rest, "]" + rest);
    var s := es.after + tail;
    assert Follows(s);
    StartsAValue(es.value, s);
    SkipsBlanks(es.before, Write(es.value, s));
    ParsesTree(es.value, s);
    SkipsBlanks(es.after, tail);
    if es.More? {
      ParsesElements(es.rest, got + [Meaning(es.value)], rest);
      assert tail[1..] == WriteElements(es.rest, "]" + rest);
      assert got + [Meaning(es.value)] + Meanings(es.rest) == got + Meanings(es);
    } else {
      assert tail[1..] == rest;
      assert got + [Meaning(es.value)] == got + Meanings(es);
    }
  }

  lemma ParsesKey(k: Key, rest: string)
    requires LegalKey(k) && (rest == [] || !Blank(rest[0]))
    ensures SkipBlanks(WriteKey(k, rest)) == WriteKey(k.(before := []), rest)
    ensures StartsWith(WriteKey(k.(before := []), rest), '"')
    ensures ParseKey(WriteKey(k.(before := []), rest)) == Some(Scanned(Raw(k.units), rest))
  {
    hide SkipBlanks, ExtractString, WriteUnits;
    var s1 := k.afterColon + rest;
    var s2 := k.beforeColon + (":" + s1);
    var s3 := "\"" + WriteUnits(k.units, "\"" + s2);
    SkipsBlanks(k.before, s3);
    assert [] + s3 == s3 && s3[1..] == WriteUnits(k.units, "\"" + s2);
    ExtractsUnits(k.units, s2);
    SkipsBlanks(k.beforeColon, ":" + s1);
    assert (":" + s1)[1..] == s1;
    SkipsBlanks(k.afterColon, rest);
  }

  lemma {:induction false} ParsesPairs(ps: Pairs, got: seq<Member>, rest: string)
    requires LegalPairs(ps)
    ensures ParseMembers(WritePairs(ps, "}" + rest), got) == Some(Step(Object(Gathered(ps, got)), rest))
    decreases ps
  {
    hide SkipBlanks, ParseValue, ParseKey, WriteKey, Write, Legal, LegalKey, Meaning, Raw, Put;
    var tail := if ps.LastPair? then "}" + rest else "," + WritePairs(ps.rest, "}" + rest);
    var s := ps.after + tail;
    assert Follows(s);
    StartsAValue(ps.value, s);
    ParsesKey(ps.key, Write(ps.value, s));
    ParsesTree(ps.value, s);
    SkipsBlanks(ps.after, tail);
    if ps.MorePairs? {
      ParsesPairs(ps.rest, Put(got, Member(Raw(ps.key.units), Meaning(ps.value))), rest);
      assert tail[1..] == WritePairs(ps.rest, "}" + rest);
    } else {
      assert tail[1..] == rest;
    }
  }
}
