/**
  The JSON printer as the original runs it: a string that grows and an indentation that is
  counted up and down, with integers printed through a buffer of 22 characters.
*/
module JsonPrinter {
  import opened NumberText
  import opened JsonValues
  import opened JsonPrint

  /** The integers a JValue can hold, short of the smallest, whose negation overflows. */
  ghost predicate Held(v: JValue) {
    match v
    case Int64(n) => Bits64.FitsSigned(n) && Bits64.FitsSigned(-n)
    case Uint64(u) => u < Bits64.Modulus()
    case Array(items) => forall x <- items :: Held(x)
    case Object(members) => forall m <- members :: Held(m.value)
    case _ => true
  }

  class Printer {
    const style: Style
    var ret: string
    var indent: nat

    constructor (style: Style)
      ensures this.style == style && ret == [] && indent == 0
    {
      this.style := style;
      ret, indent := [], 0;
    }

    method Append(s: string)
      modifies `ret
      ensures ret == old(ret) + s
    {
      ret := ret + s;
    }

    method AppendUnsigned(u: nat)
      requires u < Bits64.Modulus()
      modifies `ret
      ensures ret == old(ret) + Digits(u)
    {
      hide Digits;
      var temp := new char[22];
      var start, chars := UnsignedToString(u, temp, 19);
      Append(temp[start..start + chars]);
    }

    method AppendSigned(n: int)
      requires Bits64.FitsSigned(n) && Bits64.FitsSigned(-n)
      modifies `ret
      ensures ret == old(ret) + SignedDigits(n)
    {
      hide SignedDigits;
      var temp := new char[22];
      var start, chars := SignedToString(n, temp, 19);
      Append(temp[start..start + chars]);
    }

    method Break()
      modifies `ret
      ensures ret == old(ret) + style.Break()
    {
      assert ret == ret + "";
      if style.pretty {
        Append("\n");
      }
    }

    method Pad()
      modifies `ret
      ensures ret == old(ret) + style.Pad(indent)
    {
      hide Spaces;
      assert ret == ret + "";
      if style.pretty {
        Append(Spaces(indent * style.width));
      }
    }

    method Stringify(v: JValue)
      requires Held(v)
      modifies `ret, `indent
      ensures ret == old(ret) + Stringified(v, old(indent), style) && indent == old(indent)
      decreases v, 1
    {
      hide Digits, SignedDigits, StringifiedItems, StringifiedMembers;
      match v
      case Int64(n) =>
        AppendSigned(n);
      case Uint64(u) =>
        AppendUnsigned(u);
      case Text(raw) =>
        Append("\"");
        Append(raw);
        Append("\"");
        assert ret == old(ret) + ("\"" + (raw + "\""));
      case Bool(b) =>
        Append(if b then "true" else "false");
      case Number(lexeme) =>
        Append(style.double(lexeme));
      case Array(items) =>
        StringifyArray(items);
      case Object(members) =>
        StringifyObject(members);
      case Null =>
        Append("null");
    }

    method StringifyArray(items: seq<JValue>)
      requires forall x <- items :: Held(x)
      modifies `ret, `indent
      ensures ret == old(ret) + Stringified(Array(items), old(indent), style) && indent == old(indent)
      decreases items, 1
    {
      hide Stringified, StringifiedItems, Held, Style.Break, Style.Pad;
      Append("[");
      Break();
      indent := indent + 1;
      ghost var start := ret;
      var i := 0;
      assert items[0..] == items;
      while i < |items|
        invariant 0 <= i <= |items| && indent == old(indent) + 1
        invariant ret + StringifiedItems(items[i..], indent, style) == start + StringifiedItems(items, indent, style)
      {
        ghost var was := ret;
        ItemsStep(items, i, indent, style);
        Pad();
        Stringify(items[i]);
        i := i + 1;
        if i < |items| {
          Append(",");
          Break();
        }
        JoinItem(was, style.Pad(indent), Stringified(items[i - 1], indent, style), style.Break(),
                 StringifiedItems(items[i..], indent, style));
        NoItems(ret, indent, style);
        assert i == |items| ==> items[i..] == [];
      }
      assert items[i..] == [];
      NoItems(ret, indent, style);
      indent := indent - 1;
      Break();
      Pad();
      Append("]");
      ArrayLayout(old(ret), items, indent, style);
    }

    method StringifyObject(members: seq<Member>)
      requires forall m <- members :: Held(m.value)
      modifies `ret, `indent
      ensures ret == old(ret) + Stringified(Object(members), old(indent), style) && indent == old(indent)
      decreases members, 1
    {
      hide Stringified, StringifiedMembers, Held, Style.Break, Style.Pad;
      Append("{");
      Break();
      indent := indent + 1;
      ghost var start := ret;
      var i := 0;
      assert members[0..] == members;
      while i < |members|
        invariant 0 <= i <= |members| && indent == old(indent) + 1
        invariant ret + StringifiedMembers(members[i..], indent, style)
               == start + StringifiedMembers(members, indent, style)
      {
        ghost var was := ret;
        MembersStep(members, i, indent, style);
        Pad();
        Append("\"");
        Append(members[i].key);
        Append("\":");
        Stringify(members[i].value);
        i := i + 1;
        if i < |members| {
          Append(",");
          Break();
        }
        JoinMember(was, style.Pad(indent), members[i - 1].key, Stringified(members[i - 1].value, indent, style),
                   style.Break(), StringifiedMembers(members[i..], indent, style));
        NoItems(ret, indent, style);
        assert i == |members| ==> members[i..] == [];
      }
      assert members[i..] == [];
      NoItems(ret, indent, style);
      indent := indent - 1;
      Break();
      Pad();
      Append("}");
      ObjectLayout(old(ret), members, indent, style);
    }
  }

  lemma ItemsStep(items: seq<JValue>, i: nat, depth: nat, st: Style)
    requires i < |items|
    ensures StringifiedItems(items[i..], depth, st) ==
      st.Pad(depth) + (Stringified(items[i], depth, st) +
        if i + 1 == |items| then "" else "," + (st.Break() + StringifiedItems(items[i + 1..], depth, st)))
  {
    hide Stringified, Style.Break, Style.Pad;
    assert items[i..][1..] == items[i + 1..];
  }

  lemma MembersStep(members: seq<Member>, i: nat, depth: nat, st: Style)
    requires i < |members|
    ensures StringifiedMembers(members[i..], depth, st) ==
      st.Pad(depth) + ("\"" + (members[i].key + ("\":" + (Stringified(members[i].value, depth, st) +
        if i + 1 == |members| then "" else "," + (st.Break() + StringifiedMembers(members[i + 1..], depth, st))))))
  {
    hide Stringified, Style.Break, Style.Pad;
    assert members[i..][1..] == members[i + 1..];
  }

  lemma NoItems(s: string, depth: nat, st: Style)
    ensures s + StringifiedItems([], depth, st) == s && s + StringifiedMembers([], depth, st) == s
  {
    EmptyItems(depth, st);
    assert s + "" == s;
  }

  lemma JoinItem(was: string, p: string, x: string, b: string, more: string)
    ensures was + p + x + "," + b + more == was + (p + (x + ("," + (b + more))))
    ensures was + p + x == was + (p + (x + ""))
  {
    assert x + "" == x;
  }

  lemma JoinMember(was: string, p: string, key: string, x: string, b: string, more: string)
    ensures was + p + "\"" + key + "\":" + x + "," + b + more
         == was + (p + ("\"" + (key + ("\":" + (x + ("," + (b + more)))))))
    ensures was + p + "\"" + key + "\":" + x == was + (p + ("\"" + (key + ("\":" + (x + "")))))
  {
    assert x + "" == x;
    assert was + p + "\"" + key + "\":" + x == was + (p + ("\"" + (key + ("\":" + x))));
  }

  lemma ArrayLayout(was: string, items: seq<JValue>, depth: nat, st: Style)
    ensures was + "[" + st.Break() + StringifiedItems(items, depth + 1, st) + st.Break() + st.Pad(depth) + "]"
         == was + Stringified(Array(items), depth, st)
  {
    hide StringifiedItems, Style.Break, Style.Pad;
    Layout(was, "[", st.Break(), StringifiedItems(items, depth + 1, st), st.Pad(depth), "]");
  }

  lemma ObjectLayout(was: string, members: seq<Member>, depth: nat, st: Style)
    ensures was + "{" + st.Break() + StringifiedMembers(members, depth + 1, st) + st.Break() + st.Pad(depth) + "}"
         == was + Stringified(Object(members), depth, st)
  {
    hide StringifiedMembers, Style.Break, Style.Pad;
    Layout(was, "{", st.Break(), StringifiedMembers(members, depth + 1, st), st.Pad(depth), "}");
  }

  lemma Layout(was: string, l: string, b: string, x: string, p: string, r: string)
    ensures was + l + b + x + b + p + r == was + (l + (b + (x + (b + (p + r)))))
  {
    assert x + b + p + r == x + (b + (p + r));
    assert was + l + b + (x + (b + (p + r))) == was + (l + (b + (x + (b + (p + r)))));
  }

  /** Prints a whole value. */
  method Stringify(v: JValue, style: Style) returns (s: string)
    requires Held(v)
    ensures s == Stringified(v, 0, style)
  {
    hide Stringified, Held;
    var printer := new Printer(style);
    printer.Stringify(v);
    s := printer.ret;
  }
}
