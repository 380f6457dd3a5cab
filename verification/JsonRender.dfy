/** The leaves cJSON prints: print_number and print_string_ptr, with the sizes they ask
    for, and two facts about printed text that the printers rely on. */
module JsonRender {
  import opened JsonValue

  // ----- print_number -----

  function TenTo(k: nat): nat {
    if k == 0 then 1 else 10 * TenTo(k - 1)
  }

  lemma {:induction false} DecimalShort(n: nat, k: nat)
    requires k >= 1 && n < TenTo(k)
    ensures |Decimal(n)| <= k
    decreases k
  {
    if n >= 10 {
      DecimalShort(n / 10, k - 1);
    }
  }

  /** A 32-bit integer and its terminator fit the 21 characters asked for. */
  lemma NumberFits(n: int)
    requires IsInt32(n)
    ensures |NumberText(n)| + 1 <= 21
  {
    assert TenTo(10) == 10000 * TenTo(6) && TenTo(6) == 1000 * TenTo(3);
    hide TenTo;
    assert TenTo(10) == 10_000_000_000 by {
      TenToSix();
    }
    DecimalShort(if n < 0 then -n else n, 10);
  }

  lemma TenToSix()
    ensures TenTo(6) == 1_000_000
  {
    assert TenTo(6) == 1000 * TenTo(3);
  }

  /** The text of an integer item and the size print_number asks for. */
  method RenderNumber(n: int) returns (size: nat, text: string)
    requires IsInt32(n)
    ensures text == NumberText(n) && |text| + 1 <= size <= 21
  {
    if n == 0 {
      size, text := 2, "0";
    } else {
      NumberFits(n);
      size, text := 21, NumberText(n);
    }
  }

  // ----- print_string_ptr -----

  predicate Special(c: char) {
    (NUL < c < ' ') || c == QUOTE || c == BACKSLASH
  }

  lemma {:induction false} EscapeAppend(s: string, c: char)
    ensures Escape(s + [c]) == Escape(s) + EscapeChar(c)
  {
    hide EscapeChar;
    if s == "" {
      assert [c][1..] == "" && s + [c] == [c];
    } else {
      EscapeAppend(s[1..], c);
      assert (s + [c])[1..] == s[1..] + [c];
    }
  }

  lemma {:induction false} NothingSpecial(s: string)
    requires NulFree(s) && forall i :: 0 <= i < |s| ==> !Special(s[i])
    ensures Escape(s) == s
  {
    if s != "" {
      NothingSpecial(s[1..]);
      assert s == [s[0]] + s[1..];
    }
  }

  /** The quoted string, and the size that is asked for before it is written: the length
      is counted in one pass and the text produced in another. */
  method RenderString(str: string) returns (size: nat, text: string)
    requires NulFree(str)
    ensures text == Quoted(str) && size == |text| + 1
  {
    var flag := false;
    for i := 0 to |str|
      invariant flag <==> exists j :: 0 <= j < i && Special(str[j])
    {
      flag := flag || Special(str[i]);
    }
    if !flag {
      NothingSpecial(str);
      return |str| + 3, [QUOTE] + str + [QUOTE];
    }
    var len := EscapedLength(str);
    var body := EscapedText(str);
    text := [QUOTE] + body + [QUOTE];
    size := len + 3;
  }

  /** The writing pass. */
  method EscapedText(str: string) returns (text: string)
    requires NulFree(str)
    ensures text == Escape(str)
  {
    text := "";
    for i := 0 to |str|
      invariant text == Escape(str[..i])
    {
      var c := str[i];
      EscapeAppend(str[..i], c);
      assert str[..i] + [c] == str[..i + 1];
      if c > 31 as char && c != QUOTE && c != BACKSLASH {
        text := text + [c];
      } else {
        var e := EscapeSequence(c);
        text := text + e;
      }
    }
    assert str[..|str|] == str;
  }

  /** The counting pass. */
  method EscapedLength(str: string) returns (len: nat)
    requires NulFree(str)
    ensures len == |Escape(str)|
  {
    len := 0;
    for i := 0 to |str|
      invariant len == |Escape(str[..i])|
    {
      EscapeAppend(str[..i], str[i]);
      assert str[..i] + [str[i]] == str[..i + 1];
      len := len + 1;
      if str[i] in [QUOTE, BACKSLASH, 8 as char, 12 as char, '\n', '\r', '\t'] {
        len := len + 1;
      } else if str[i] < ' ' {
        len := len + 5;
      }
    }
    assert str[..|str|] == str;
  }

  method EscapeSequence(c: char) returns (e: string)
    requires Special(c)
    ensures e == EscapeChar(c)
  {
    e := [BACKSLASH];
    if c == BACKSLASH {
      e := e + [BACKSLASH];
    } else if c == QUOTE {
      e := e + [QUOTE];
    } else if c == 8 as char {
      e := e + "b";
    } else if c == 12 as char {
      e := e + "f";
    } else if c == '\n' {
      e := e + "n";
    } else if c == '\r' {
      e := e + "r";
    } else if c == '\t' {
      e := e + "t";
    } else {
      e := e + "u00" + [HexChar(c as int / 16), HexChar(c as int % 16)];
      assert e == "\\u00" + [HexChar(c as int / 16), HexChar(c as int % 16)];
    }
  }

  // ----- printed text has no terminator inside -----

  lemma NulFreeConcat(a: string, b: string)
    ensures NulFree(a + b) <==> NulFree(a) && NulFree(b)
  {
    assert forall i :: 0 <= i < |b| ==> b[i] == (a + b)[|a| + i];
    assert forall i :: 0 <= i < |a| ==> a[i] == (a + b)[i];
  }

  lemma {:induction false} DecimalNulFree(n: nat)
    ensures NulFree(Decimal(n))
  {
    if n >= 10 {
      DecimalNulFree(n / 10);
    }
  }

  lemma {:induction false} EscapeNulFree(s: string)
    requires NulFree(s)
    ensures NulFree(Escape(s))
  {
    if s != "" {
      EscapeNulFree(s[1..]);
      assert NulFree(EscapeChar(s[0]));
      NulFreeConcat(EscapeChar(s[0]), Escape(s[1..]));
    }
  }

  lemma QuotedNulFree(s: string)
    requires NulFree(s)
    ensures NulFree(Quoted(s))
  {
    EscapeNulFree(s);
  }

  lemma {:induction false} TabsNulFree(n: int)
    ensures NulFree(Tabs(n)) && |Tabs(n)| == if n < 0 then 0 else n
    decreases if n < 0 then 0 else n
  {
    if n > 0 {
      TabsNulFree(n - 1);
    }
  }

  lemma {:induction false} PrintNulFree(v: Json, depth: nat, fmt: bool)
    requires Printable(v)
    ensures NulFree(Print(v, depth, fmt))
    decreases v, 1
  {
    match v
    case Number(m, _) => DecimalNulFree(if m < 0 then -m else m);
    case Str(s) => QuotedNulFree(s);
    case Arr(items) => ItemsNulFree(items, depth + 1, fmt);
    case Obj(members) =>
      MembersNulFree(members, depth + 1, fmt);
      ObjectNulFree(members, depth, fmt);
    case _ =>
  }

  lemma ObjectNulFree(members: seq<Member>, depth: nat, fmt: bool)
    requires NulFree(PrintMembers(members, depth + 1, fmt))
    ensures NulFree(Print(Obj(members), depth, fmt))
  {
    hide PrintMembers;
    TabsNulFree(depth - 1);
    TabsNulFree(depth);
    hide Tabs;
    if members == [] {
      assert NulFree("{") && NulFree(When(fmt, "\n" + Tabs(depth - 1)));
    } else {
      var nl, w, tabs := When(fmt, "\n"), PrintMembers(members, depth + 1, fmt), When(fmt, Tabs(depth));
      assert NulFree("{" + nl);
      NulFreeConcat("{" + nl, w);
      NulFreeConcat("{" + nl + w, tabs);
      NulFreeConcat("{" + nl + w + tabs, "}");
      assert NulFree("}");
    }
  }

  lemma {:induction false} ItemsNulFree(items: seq<Json>, depth: nat, fmt: bool)
    requires AllPrintable(items)
    ensures NulFree(PrintItems(items, depth, fmt))
    decreases items, 0
  {
    if items != [] {
      hide Print;
      PrintNulFree(items[0], depth, fmt);
      ItemsNulFree(items[1..], depth, fmt);
      var w, sep := Print(items[0], depth, fmt), ItemSeparator(|items| > 1, fmt);
      NulFreeConcat(w, sep);
      NulFreeConcat(w + sep, PrintItems(items[1..], depth, fmt));
    }
  }

  lemma {:induction false} MembersNulFree(members: seq<Member>, depth: nat, fmt: bool)
    requires AllMembersPrintable(members)
    ensures NulFree(PrintMembers(members, depth, fmt))
    decreases members, 0
  {
    if members != [] {
      hide Print, Quoted;
      var m := members[0];
      PrintNulFree(m.value, depth, fmt);
      QuotedNulFree(m.name);
      TabsNulFree(depth);
      MembersNulFree(members[1..], depth, fmt);
      hide NulFree;
      var tabs, sep := When(fmt, Tabs(depth)), MemberSeparator(|members| > 1, fmt);
      var a := tabs + Quoted(m.name);
      NulFreeConcat(tabs, Quoted(m.name));
      NulFreeConcat(a, ":");
      NulFreeConcat(a + ":", When(fmt, "\t"));
      var b := a + ":" + When(fmt, "\t");
      NulFreeConcat(b, Print(m.value, depth, fmt));
      var c := b + Print(m.value, depth, fmt);
      NulFreeConcat(c, sep);
      NulFreeConcat(c + sep, PrintMembers(members[1..], depth, fmt));
      SeparatorsNulFree(fmt, |members| > 1);
    }
  }

  lemma SeparatorsNulFree(fmt: bool, more: bool)
    ensures NulFree(":") && NulFree(When(fmt, "\t")) && NulFree(MemberSeparator(more, fmt))
  {
  }
}
