/**
  Printing what was parsed (include/jsonvalue.h): every value the parser can give, doubles and
  the smallest integer aside, prints to a text that is parsed to the same value again, so
  printing normalises any accepted text without changing what it means.
*/
module JsonNormalForm {
  import opened NumberText
  import opened JsonValues
  import opened JsonParse
  import opened JsonGrammar
  import opened JsonLanguage
  import opened JsonPrint

  /** No double, and no smallest integer, whose negation the integer printer cannot take. */
  ghost predicate Plain(v: JValue) {
    match v
    case Int64(n) => n != -0x8000_0000_0000_0000
    case Number(_) => false
    case Array(items) => forall x <- items :: Plain(x)
    case Object(members) => forall m <- members :: Plain(m.value)
    case _ => true
  }

  ghost predicate PrintableIfPlain(v: JValue) {
    Plain(v) ==> Printable(v)
  }

  ghost predicate GoodMembers(members: seq<Member>) {
    Sorted(members) && forall m <- members :: Acceptable(m.key) && PrintableIfPlain(m.value)
  }

  lemma UnitsAreAcceptable(units: seq<string>)
    requires Units(units)
    ensures Acceptable(Raw(units))
  {
    WritesUnits(units, "\"");
    ExtractsUnits(units, []);
    assert "\"" + [] == "\"";
  }

  lemma {:induction false} PutMembers(members: seq<Member>, m: Member)
    ensures forall x <- Put(members, m) :: x == m || x in members
  {
    if members != [] && !Before(m.key, members[0].key) && m.key != members[0].key {
      PutMembers(members[1..], m);
    }
  }

  lemma {:induction false} MeaningIsPrintable(t: Tree)
    requires Legal(t)
    ensures PrintableIfPlain(Meaning(t))
    decreases t
  {
    match t
    case Quoted(units) =>
      UnitsAreAcceptable(units);
    case Numeral(neg, whole, fraction, exponent) =>
      hide ValueOf, IsWhole, IsFraction, IsExponent;
    case ArrayOf(es) =>
      MeaningsArePrintable(es);
    case ObjectOf(ps) =>
      GatheredArePrintable(ps, []);
    case _ =>
  }

  lemma {:induction false} MeaningsArePrintable(es: Elements)
    requires LegalElements(es)
    ensures forall x <- Meanings(es) :: PrintableIfPlain(x)
    decreases es
  {
    hide Legal, Meaning, PrintableIfPlain;
    MeaningIsPrintable(es.value);
    if es.More? {
      MeaningsArePrintable(es.rest);
    }
  }

  lemma {:induction false} GatheredArePrintable(ps: Pairs, got: seq<Member>)
    requires LegalPairs(ps) && GoodMembers(got)
    ensures GoodMembers(Gathered(ps, got))
    decreases ps
  {
    hide Legal, Meaning, PrintableIfPlain, Put, Raw, Acceptable, Sorted;
    var m := Member(Raw(ps.key.units), Meaning(ps.value));
    UnitsAreAcceptable(ps.key.units);
    MeaningIsPrintable(ps.value);
    PutKeepsSorted(got, m);
    PutMembers(got, m);
    if ps.MorePairs? {
      GatheredArePrintable(ps.rest, Put(got, m));
    }
  }

  /** Printing normalises: the printed value of an accepted text means what the text means. */
  lemma Normalises(s: string, st: Style)
    requires Parse(s).Some? && Plain(Parse(s).value)
    ensures Parse(Stringified(Parse(s).value, 0, st)) == Parse(s)
  {
    hide SkipBlanks, ParseValue, Stringified, Legal, Meaning;
    var t := TreeOf(SkipBlanks(s));
    MeaningIsPrintable(t);
    PrintsAndParses(Parse(s).value, st);
  }
}
