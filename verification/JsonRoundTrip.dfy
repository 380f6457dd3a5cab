/** What cJSON prints is an RFC 8259 text of the printed tree, so parsing it gives
    the tree back. */
module JsonRoundTrip {
  import opened JsonValue
  import opened JsonGrammar
  import opened JsonParse
  import opened JsonComplete
  import opened JsonSafe

  // ----- the syntax tree of the printed text -----

  function Spell(c: char): Unit {
    if c == BACKSLASH || c == QUOTE then Short(c)
    else if c == 8 as char then Short('b')
    else if c == 12 as char then Short('f')
    else if c == '\n' then Short('n')
    else if c == '\r' then Short('r')
    else if c == '\t' then Short('t')
    else if c < ' ' then Hex("00" + [HexChar(c as int / 16), HexChar(c as int % 16)])
    else Raw(c)
  }

  function SpellAll(s: string): seq<Unit> {
    if s == "" then [] else [Spell(s[0])] + SpellAll(s[1..])
  }

  function NumeralOf(n: int): Numeral {
    Numeral(n < 0, Decimal(if n < 0 then -n else n), "", NoExponent)
  }

  function Layout(v: Json, depth: nat, fmt: bool): Syntax
    decreases v, 0
  {
    match v
    case Null => SNull
    case False => SFalse
    case True => STrue
    case Number(m, _) => SNumber(NumeralOf(m))
    case Str(s) => SString(SpellAll(s))
    case Arr(items) => SArray("", LayoutItems(items, depth + 1, fmt, true))
    case Obj(members) =>
      SObject(if members == [] then When(fmt, "\n" + Tabs(depth - 1)) else "", LayoutMembers(members, depth + 1, fmt))
  }

  function LayoutItems(items: seq<Json>, depth: nat, fmt: bool, first: bool): (r: seq<SItem>)
    ensures |r| == |items|
    decreases items, 0
  {
    if items == [] then []
    else
      [SItem(When(fmt && !first, " "), Layout(items[0], depth, fmt), "")]
      + LayoutItems(items[1..], depth, fmt, false)
  }

  function LayoutMembers(members: seq<Member>, depth: nat, fmt: bool): (r: seq<SMember>)
    ensures |r| == |members|
    decreases members, 0
  {
    if members == [] then []
    else
      [LayoutMember(members[0], depth, fmt, |members| == 1)] + LayoutMembers(members[1..], depth, fmt)
  }

  function LayoutMember(m: Member, depth: nat, fmt: bool, last: bool): SMember
    decreases m, 1
  {
    SMember(When(fmt, "\n" + Tabs(depth)), SpellAll(m.name), "", When(fmt, "\t"),
            Layout(m.value, depth, fmt), When(fmt && last, "\n" + Tabs(depth - 1)))
  }

  // ----- leaves -----

  lemma SpellCorrect(c: char)
    ensures UnitText(Spell(c)) == EscapeChar(c)
    ensures c != NUL ==> WfUnit(Spell(c)) && UnitMeaning(Spell(c)) == [c] && !Dropped(Spell(c))
    ensures Spell(c).Hex? ==> !IsHigh(Spell(c).h)
  {
    if Spell(c).Hex? {
      var hi, lo := HexChar(c as int / 16), HexChar(c as int % 16);
      assert HexValue(hi) == c as int / 16 && HexValue(lo) == c as int % 16;
      assert "\\u" + ("00" + [hi, lo]) == "\\u00" + [hi, lo];
    }
  }

  lemma {:induction false} SpellAllCorrect(s: string)
    ensures UnitsText(SpellAll(s)) == Escape(s)
    ensures NulFree(s) ==> WfUnits(SpellAll(s)) && UnitsMeaning(SpellAll(s)) == s && NoneDropped(SpellAll(s))
  {
    if s != "" {
      hide Spell, UnitText, UnitMeaning, WfUnit, EscapeChar, IsHigh, IsLow, Dropped;
      SpellCorrect(s[0]);
      SpellAllCorrect(s[1..]);
      var us := SpellAll(s);
      assert us[1..] == SpellAll(s[1..]);
      assert NulFree(s) ==> s[0] != NUL && NulFree(s[1..]);
      assert s == [s[0]] + s[1..];
    }
  }

  lemma {:induction false} DecimalCorrect(n: nat)
    ensures var s := Decimal(n);
            s != "" && AllDigits(s) && NatValue(s) == n && (s[0] == '0' ==> n == 0 && s == "0")
  {
    var s := Decimal(n);
    if n >= 10 {
      DecimalCorrect(n / 10);
      assert s[..|s| - 1] == Decimal(n / 10);
    } else {
      assert s[..0] == "";
    }
  }

  lemma NumeralOfCorrect(n: int)
    ensures NumeralText(NumeralOf(n)) == NumberText(n)
    ensures WfNumeral(NumeralOf(n)) && NumeralMeaning(NumeralOf(n)) == Number(n, 0)
  {
    var s := Decimal(if n < 0 then -n else n);
    DecimalCorrect(if n < 0 then -n else n);
    hide Decimal, NatValue;
    assert s + "" == s;
    assert (if n < 0 then "-" else "") + s + "" + "" == NumberText(n);
  }

  lemma {:induction false} TabsAreWs(n: int)
    ensures IsWs(Tabs(n))
    decreases if n < 0 then 0 else n
  {
    if n > 0 {
      TabsAreWs(n - 1);
    }
  }

  // ----- trees -----

  /** print_value writes the laid-out syntax tree. */
  lemma {:induction false} PrintIsText(v: Json, depth: nat, fmt: bool)
    ensures Text(Layout(v, depth, fmt)) == Print(v, depth, fmt)
    decreases v, 1
  {
    match v
    case Number(m, _) => NumeralOfCorrect(m);
    case Str(s) => SpellAllCorrect(s);
    case Arr(items) =>
      PrintItemsIsText(items, depth + 1, fmt, true);
      assert "[" + "" == "[";
      assert "" + PrintItems(items, depth + 1, fmt) == PrintItems(items, depth + 1, fmt);
    case Obj(members) =>
      PrintObjectIsText(members, depth, fmt);
    case _ =>
  }

  lemma {:induction false} PrintItemsIsText(items: seq<Json>, depth: nat, fmt: bool, first: bool)
    ensures ItemsText(LayoutItems(items, depth, fmt, first))
            == When(fmt && !first && items != [], " ") + PrintItems(items, depth, fmt)
    decreases items, 0
  {
    if items != [] {
      hide Text, Layout, Print;
      var l := LayoutItems(items, depth, fmt, first);
      assert l[1..] == LayoutItems(items[1..], depth, fmt, false);
      PrintIsText(items[0], depth, fmt);
      PrintItemsIsText(items[1..], depth, fmt, false);
      var w, b := Print(items[0], depth, fmt), l[0].before;
      assert ItemText(l[0]) == b + w;
      var rest := PrintItems(items[1..], depth, fmt);
      if |items| > 1 {
        Regroup(b, w, ",", When(fmt, " "), rest);
      } else {
        assert items[1..] == [];
        assert b + w + "" + ("" + rest) == b + (w + "" + rest);
      }
    }
  }

  lemma Regroup(b: string, w: string, comma: string, blank: string, rest: string)
    ensures (b + w) + comma + (blank + rest) == b + (w + (comma + blank) + rest)
  {
  }

  lemma {:induction false} PrintObjectIsText(members: seq<Member>, depth: nat, fmt: bool)
    ensures Text(Layout(Obj(members), depth, fmt)) == Print(Obj(members), depth, fmt)
    decreases members, 1
  {
    if members == [] {
      assert LayoutMembers(members, depth + 1, fmt) == [];
      var gap := When(fmt, "\n" + Tabs(depth - 1));
      assert "{" + gap + "" + "}" == "{" + gap + "}";
    } else {
      PrintMembersIsText(members, depth + 1, fmt);
      hide LayoutMembers, MembersText, PrintMembers, When;
      RegroupBraces(When(fmt, "\n"), PrintMembers(members, depth + 1, fmt), When(fmt, Tabs(depth)));
    }
  }

  lemma RegroupBraces(nl: string, w: string, tabs: string)
    ensures "{" + "" + (nl + w + tabs) + "}" == "{" + nl + w + tabs + "}"
  {
  }

  /** Both sides, one member at a time. */
  lemma MembersUnfold(members: seq<Member>, depth: nat, fmt: bool)
    requires members != []
    ensures var m, rest := members[0], members[1..];
            && MembersText(LayoutMembers(members, depth, fmt))
               == MemberText(LayoutMember(m, depth, fmt, |members| == 1)) + Comma(|members| > 1)
                  + MembersText(LayoutMembers(rest, depth, fmt))
            && PrintMembers(members, depth, fmt)
               == PrintedMember(m, depth, fmt) + MemberSeparator(|members| > 1, fmt) + PrintMembers(rest, depth, fmt)
  {
    hide Text, Layout, Print, LayoutMember, MemberText, MemberSeparator, Comma, When, Quoted, Tabs;
    var l := LayoutMembers(members, depth, fmt);
    assert l[1..] == LayoutMembers(members[1..], depth, fmt);
  }

  lemma NoMembers(depth: nat, fmt: bool)
    ensures MembersText(LayoutMembers([], depth, fmt)) == "" && PrintMembers([], depth, fmt) == ""
  {
  }

  lemma {:induction false} PrintMembersIsText(members: seq<Member>, depth: nat, fmt: bool)
    requires members != []
    ensures MembersText(LayoutMembers(members, depth, fmt))
            == When(fmt, "\n") + PrintMembers(members, depth, fmt) + When(fmt, Tabs(depth - 1))
    decreases members, 0
  {
    hide Text, Layout, Print, LayoutMember, MemberText, LayoutMembers, MembersText, PrintMembers, PrintedMember, When, Tabs;
    var m := members[0];
    MembersUnfold(members, depth, fmt);
    PrintMemberIsText(m, depth, fmt, |members| == 1);
    var nl, tabs := When(fmt, "\n"), When(fmt, Tabs(depth - 1));
    var w := PrintedMember(m, depth, fmt);
    if |members| > 1 {
      PrintMembersIsText(members[1..], depth, fmt);
      Regroup3(nl, w, ",", PrintMembers(members[1..], depth, fmt), tabs);
    } else {
      assert members[1..] == [];
      NoMembers(depth, fmt);
      Regroup4(nl, w, tabs);
    }
  }

  lemma Regroup3(nl: string, w: string, comma: string, rest: string, tabs: string)
    ensures (nl + w) + comma + (nl + rest + tabs) == nl + (w + (comma + nl) + rest) + tabs
  {
  }

  lemma Regroup4(nl: string, w: string, tabs: string)
    ensures ((nl + w) + (nl + tabs)) + "" + "" == nl + (w + ("" + nl) + "") + tabs
  {
  }

  function PrintedMember(m: Member, depth: nat, fmt: bool): string {
    When(fmt, Tabs(depth)) + Quoted(m.name) + ":" + When(fmt, "\t") + Print(m.value, depth, fmt)
  }

  lemma {:induction false} PrintMemberIsText(m: Member, depth: nat, fmt: bool, last: bool)
    ensures MemberText(LayoutMember(m, depth, fmt, last))
            == (When(fmt, "\n") + PrintedMember(m, depth, fmt))
               + (if last then When(fmt, "\n") + When(fmt, Tabs(depth - 1)) else "")
    decreases m, 2
  {
    hide Text, Layout, Print, SpellAll, UnitsText, Escape;
    PrintIsText(m.value, depth, fmt);
    SpellAllCorrect(m.name);
    var lit := LiteralText(SpellAll(m.name));
    assert lit == Quoted(m.name);
    hide LiteralText, Quoted;
    var nl, tabs, tab, v := When(fmt, "\n"), When(fmt, Tabs(depth)), When(fmt, "\t"), Print(m.value, depth, fmt);
    var after := if last then When(fmt, "\n") + When(fmt, Tabs(depth - 1)) else "";
    assert When(fmt, "\n" + Tabs(depth)) == nl + tabs;
    assert When(fmt && last, "\n" + Tabs(depth - 1)) == after;
    Regroup5(nl, tabs, lit, tab, v, after);
  }

  lemma Regroup5(nl: string, tabs: string, lit: string, tab: string, v: string, after: string)
    ensures (nl + tabs) + lit + "" + ":" + tab + v + after == (nl + (tabs + lit + ":" + tab + v)) + after
  {
  }

  /** The laid-out tree is well formed and denotes the printed one, with nothing that the parser drops. */
  lemma {:induction false} LayoutCorrect(v: Json, depth: nat, fmt: bool)
    requires Printable(v)
    ensures Wf(Layout(v, depth, fmt)) && Meaning(Layout(v, depth, fmt)) == v && NothingDropped(Layout(v, depth, fmt))
    decreases v, 0
  {
    match v
    case Number(m, _) => NumeralOfCorrect(m);
    case Str(s) => SpellAllCorrect(s);
    case Arr(items) => LayoutItemsCorrect(items, depth + 1, fmt, true);
    case Obj(members) =>
      LayoutMembersCorrect(members, depth + 1, fmt);
      TabsAreWs(depth - 1);
    case _ =>
  }

  lemma {:induction false} LayoutItemsCorrect(items: seq<Json>, depth: nat, fmt: bool, first: bool)
    requires AllPrintable(items)
    ensures var l := LayoutItems(items, depth, fmt, first); WfItems(l) && ItemsMeaning(l) == items && NoItemDropped(l)
    decreases items, 0
  {
    if items != [] {
      hide Layout, Wf, Meaning, NothingDropped;
      var l := LayoutItems(items, depth, fmt, first);
      assert l[1..] == LayoutItems(items[1..], depth, fmt, false);
      LayoutCorrect(items[0], depth, fmt);
      LayoutItemsCorrect(items[1..], depth, fmt, false);
      assert WfItem(l[0]);
      assert items == [items[0]] + items[1..];
    }
  }

  lemma {:induction false} LayoutMemberCorrect(m: Member, depth: nat, fmt: bool, last: bool)
    requires NulFree(m.name) && Printable(m.value)
    ensures var l := LayoutMember(m, depth, fmt, last);
            && WfMember(l) && UnitsMeaning(l.name) == m.name && Meaning(l.v) == m.value
            && NoneDropped(l.name) && NothingDropped(l.v)
    decreases m, 1
  {
    hide Layout, Wf, Meaning, WfUnits, UnitsMeaning, NoneDropped, NothingDropped;
    LayoutCorrect(m.value, depth, fmt);
    SpellAllCorrect(m.name);
    TabsAreWs(depth);
    TabsAreWs(depth - 1);
    hide Tabs, SpellAll;
  }

  lemma {:induction false} LayoutMembersCorrect(members: seq<Member>, depth: nat, fmt: bool)
    requires AllMembersPrintable(members)
    ensures var l := LayoutMembers(members, depth, fmt); WfMembers(l) && MembersMeaning(l) == members && NoMemberDropped(l)
    decreases members, 0
  {
    hide Layout, Wf, Meaning, WfUnits, UnitsMeaning, LayoutMember, WfMember, NoneDropped, NothingDropped;
    if members != [] {
      var l := LayoutMembers(members, depth, fmt);
      assert l[1..] == LayoutMembers(members[1..], depth, fmt);
      LayoutMemberCorrect(members[0], depth, fmt, |members| == 1);
      LayoutMembersCorrect(members[1..], depth, fmt);
      assert members == [members[0]] + members[1..];
    }
  }

  /** Parsing the printed text of any printable tree, formatted or not, gives the tree
      back, consumes the whole text and stays inside it. */
  lemma RoundTrip(v: Json, fmt: bool)
    requires Printable(v)
    ensures Parse(Print(v, 0, fmt), true) == Ok(v, |Print(v, 0, fmt)|) && TextSafe(Print(v, 0, fmt))
  {
    hide *;
    var x := Layout(v, 0, fmt);
    PrintIsText(v, 0, fmt);
    LayoutCorrect(v, 0, fmt);
    WsEmpty();
    ParseComplete(x, "", "");
    ParseRight(x, "", "");
    assert "" + Text(x) + "" == Text(x);
  }

  lemma WsEmpty()
    ensures IsWs("")
  {
  }

  /** Distinct printable trees never print alike, whatever the two formats. */
  lemma PrintInjective(v: Json, w: Json, fmtV: bool, fmtW: bool)
    requires Printable(v) && Printable(w) && Print(v, 0, fmtV) == Print(w, 0, fmtW)
    ensures v == w
  {
    RoundTrip(v, fmtV);
    RoundTrip(w, fmtW);
  }
}
