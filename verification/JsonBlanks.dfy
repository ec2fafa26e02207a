/**
  Blanks around a text change nothing: what the parser of include/jsonvalue.h makes of a text does
  not depend on the blanks in front of it and behind it.
*/
module JsonBlanks {
  import opened Wrappers
  import opened JsonParse
  import opened JsonGrammar
  import opened JsonLanguage

  // A tree's text does not depend on what follows it

  lemma {:induction false} TextAppends(t: Tree, rest: string)
    requires Legal(t)
    ensures Write(t, rest) == Write(t, []) + rest
    decreases t
  {
    hide Blanks, Units, IsWhole, IsFraction, IsExponent, Raw;
    match t
    case Keyword(w) =>
      assert Spelled(w) + [] == Spelled(w);
    case Quoted(units) =>
      hide WriteUnits;
      WritesUnits(units, "\"" + rest);
      WritesUnits(units, "\"" + []);
    case Numeral(neg, whole, fraction, exponent) =>
      NumeralAppends(Sign(neg), whole, fraction, exponent, rest);
    case EmptyArray(b) =>
    case ArrayOf(es) =>
      hide WriteElements;
      ElementsAppend(es, "]" + rest);
      ElementsAppend(es, "]" + []);
    case EmptyObject(b) =>
    case ObjectOf(ps) =>
      hide WritePairs;
      PairsAppend(ps, "}" + rest);
      PairsAppend(ps, "}" + []);
  }

  lemma NumeralAppends(a: string, b: string, c: string, d: string, rest: string)
    ensures a + (b + (c + (d + rest))) == a + (b + (c + (d + []))) + rest
  {
    assert d + rest == (d + []) + rest;
    Assoc(c, d + [], rest);
    Assoc(b, c + (d + []), rest);
    Assoc(a, b + (c + (d + [])), rest);
  }

  lemma {:induction false} ElementsAppend(es: Elements, rest: string)
    requires LegalElements(es)
    ensures WriteElements(es, rest) == WriteElements(es, []) + rest
    decreases es
  {
    hide Write, Legal;
    var tail := if es.Last? then rest else "," + WriteElements(es.rest, rest);
    var end := if es.Last? then [] else "," + WriteElements(es.rest, []);
    if es.More? {
      ElementsAppend(es.rest, rest);
    }
    assert tail == end + rest;
    TextAppends(es.value, es.after + tail);
    TextAppends(es.value, es.after + end);
    Rejoin(es.before, Write(es.value, []), es.after, end, rest);
  }

  lemma Rejoin(a: string, b: string, c: string, d: string, rest: string)
    ensures a + (b + (c + (d + rest))) == a + (b + (c + d)) + rest
  {
    Assoc(c, d, rest);
    Assoc(b, c + d, rest);
    Assoc(a, b + (c + d), rest);
  }

  lemma KeyAppends(k: Key, rest: string)
    ensures WriteKey(k, rest) == WriteKey(k, []) + rest
  {
    hide WriteUnits, Raw;
    var colon := k.beforeColon + (":" + (k.afterColon + []));
    assert k.beforeColon + (":" + (k.afterColon + rest)) == colon + rest;
    WritesUnits(k.units, "\"" + (colon + rest));
    WritesUnits(k.units, "\"" + colon);
    Rejoin("\"", Raw(k.units), "\"", colon, rest);
    Assoc(k.before, "\"" + (Raw(k.units) + ("\"" + colon)), rest);
  }

  lemma {:induction false} PairsAppend(ps: Pairs, rest: string)
    requires LegalPairs(ps)
    ensures WritePairs(ps, rest) == WritePairs(ps, []) + rest
    decreases ps
  {
    hide Write, WriteKey, Legal, LegalKey;
    var tail := if ps.LastPair? then rest else "," + WritePairs(ps.rest, rest);
    var end := if ps.LastPair? then [] else "," + WritePairs(ps.rest, []);
    if ps.MorePairs? {
      PairsAppend(ps.rest, rest);
    }
    assert tail == end + rest;
    TextAppends(ps.value, ps.after + tail);
    TextAppends(ps.value, ps.after + end);
    KeyAppends(ps.key, Write(ps.value, ps.after + tail));
    KeyAppends(ps.key, Write(ps.value, ps.after + end));
    Rejoin(WriteKey(ps.key, []), Write(ps.value, []), ps.after, end, rest);
  }

  ghost predicate EndsInText(w: string) {
    w != [] && !Blank(w[|w| - 1])
  }

  lemma EndsWith(a: string, b: string, c: string)
    requires EndsInText(c)
    ensures EndsInText(a + (b + c))
  {
  }

  lemma NumeralEnds(whole: string, fraction: string, exponent: string)
    requires IsWhole(whole) && IsFraction(fraction) && IsExponent(exponent)
    ensures EndsInText(whole + (fraction + (exponent + [])))
  {
    var w := whole + (fraction + (exponent + []));
    var part := if exponent != [] then exponent else if fraction != [] then fraction else whole;
    assert w[|w| - 1] == part[|part| - 1];
    if exponent != [] {
      var ds := if exponent[1] == '+' || exponent[1] == '-' then exponent[2..] else exponent[1..];
      assert ds[|ds| - 1] in ds && ds[|ds| - 1] == exponent[|exponent| - 1];
    } else if fraction != [] {
      var ds := fraction[1..];
      assert ds[|ds| - 1] in ds && ds[|ds| - 1] == fraction[|fraction| - 1];
    } else {
      assert whole[|whole| - 1] in whole;
    }
  }

  lemma ArrayEnds(es: Elements)
    requires LegalElements(es)
    ensures EndsInText("[" + WriteElements(es, "]" + []))
  {
    hide WriteElements, LegalElements;
    ElementsAppend(es, "]" + []);
    EndsWith("[", WriteElements(es, []), "]" + []);
  }

  lemma ObjectEnds(ps: Pairs)
    requires LegalPairs(ps)
    ensures EndsInText("{" + WritePairs(ps, "}" + []))
  {
    hide WritePairs, LegalPairs;
    PairsAppend(ps, "}" + []);
    EndsWith("{", WritePairs(ps, []), "}" + []);
  }

  lemma StringEnds(units: seq<string>)
    ensures EndsInText("\"" + WriteUnits(units, "\"" + []))
  {
    hide WriteUnits, Raw;
    WritesUnits(units, "\"" + []);
    EndsWith("\"", Raw(units), "\"" + []);
  }

  /** A value's text ends with no blank. */
  lemma EndsAValue(t: Tree)
    requires Legal(t)
    ensures EndsInText(Write(t, []))
  {
    hide WriteElements, WritePairs, LegalElements, LegalPairs, WriteUnits, Units, Blanks, IsWhole, IsFraction, IsExponent;
    match t
    case Keyword(w) =>
      assert Spelled(w) + [] == Spelled(w);
    case Quoted(units) =>
      StringEnds(units);
    case Numeral(neg, whole, fraction, exponent) =>
      NumeralEnds(whole, fraction, exponent);
      EndsWith(Sign(neg), [], whole + (fraction + (exponent + [])));
      assert [] + (whole + (fraction + (exponent + []))) == whole + (fraction + (exponent + []));
    case EmptyArray(b) =>
      EndsWith("[", b, "]" + []);
    case ArrayOf(es) =>
      ArrayEnds(es);
    case EmptyObject(b) =>
      EndsWith("{", b, "}" + []);
    case ObjectOf(ps) =>
      ObjectEnds(ps);
  }

  // Blanks around a text

  lemma BlanksAdded(a: string, s: string, b: string, t: Tree, before: string, after: string)
    requires Blanks(a) && Blanks(b) && IsText(s, t, before, after)
    ensures IsText(a + s + b, t, a + before, after + b)
  {
    hide Write, Legal;
    TextAppends(t, after);
    TextAppends(t, after + b);
  }

  lemma BlankInside(a: string, b: string, c: string)
    requires Blanks(b)
    ensures forall i :: |a| <= i < |a + b| ==> Blank((a + b + c)[i])
  {
    forall i | |a| <= i < |a + b|
      ensures Blank((a + b + c)[i])
    {
      assert b[i - |a|] in b;
    }
  }

  lemma FrontTrimmed(a: string, s: string, before: string, t: string)
    requires Blanks(a) && a + s == before + t && t != [] && !Blank(t[0])
    ensures |a| <= |before| && s == before[|a|..] + t
  {
    BlankInside([], a, s);
    assert [] + a + s == a + s && (before + t)[|before|] == t[0];
    assert s == (before + t)[|a|..];
  }

  lemma BackTrimmed(s: string, b: string, t: string, after: string)
    requires Blanks(b) && s + b == t + after && EndsInText(t)
    ensures |b| <= |after| && s == t + after[..|after| - |b|]
  {
    BlankInside(s, b, []);
    assert s + b + [] == s + b && (t + after)[|t| - 1] == t[|t| - 1];
    assert s == (t + after)[..|s|];
  }

  lemma BlanksRemoved(a: string, s: string, b: string, t: Tree, before: string, after: string)
    requires Blanks(a) && Blanks(b) && IsText(a + s + b, t, before, after)
    ensures |a| <= |before| && |b| <= |after|
    ensures IsText(s, t, before[|a|..], after[..|after| - |b|])
  {
    hide Write, Legal, EndsInText, Blank;
    var w := Write(t, []);
    TextAppends(t, after);
    StartsAValue(t, []);
    EndsAValue(t);
    assert (w + after)[0] == w[0] && a + s + b == a + (s + b);
    FrontTrimmed(a, s + b, before, w + after);
    var front := before[|a|..];
    Assoc(front, w, after);
    EndsInTextBehind(front, w);
    BackTrimmed(s, b, front + w, after);
    TextAppends(t, after[..|after| - |b|]);
    Assoc(front, w, after[..|after| - |b|]);
  }

  lemma EndsInTextBehind(front: string, w: string)
    requires EndsInText(w)
    ensures EndsInText(front + w)
  {
  }

  /** Blanks in front of a text and behind it change nothing: neither its value nor that it has none. */
  lemma BlanksChangeNothing(a: string, s: string, b: string)
    requires forall c <- a + b :: c as int == 0x20 || c as int == 0x09 || c as int == 0x0A || c as int == 0x0D
    ensures Parse(a + s + b) == Parse(s)
  {
    hide Parse, IsText;
    assert forall c <- a :: c in a + b;
    assert forall c <- b :: c in a + b;
    AcceptsExactly(s);
    AcceptsExactly(a + s + b);
    if t, before, after :| IsText(s, t, before, after) {
      BlanksAdded(a, s, b, t, before, after);
    } else if t, before, after :| IsText(a + s + b, t, before, after) {
      BlanksRemoved(a, s, b, t, before, after);
    }
  }
}
