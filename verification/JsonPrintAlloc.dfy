/** cJSON_Print and cJSON_PrintUnformatted: the printer that allocates a string per node.
    A malloc is an array of exactly the requested size, so every write is proved to stay
    inside the size the source computed for it. */
module JsonPrintAlloc {
  import opened JsonValue
  import opened JsonHeap
  import opened JsonRender
  import opened JsonWalk

  /** The array holds the C string `s`. */
  ghost predicate Stores(a: array<char>, s: string)
    reads a
  {
    |s| < a.Length && a[..|s|] == s && a[|s|] == NUL && NulFree(s)
  }

  /** malloc of `size`, then strcpy. */
  method Duplicate(size: nat, s: string) returns (out: array<char>)
    requires |s| < size && NulFree(s)
    ensures fresh(out) && Stores(out, s)
  {
    out := new char[size];
    Write(out, 0, s);
    out[|s|] := NUL;
    assert "" + s == s;
  }

  method StrLen(a: array<char>, ghost s: string) returns (n: nat)
    requires Stores(a, s)
    ensures n == |s|
  {
    n := 0;
    while a[n] != NUL
      invariant n <= |s|
      decreases |s| - n
    {
      n := n + 1;
    }
  }

  /** Characters stored through an advancing pointer. */
  method Write(out: array<char>, ptr: nat, s: string)
    requires ptr + |s| <= out.Length
    modifies out
    ensures out[..ptr + |s|] == old(out[..ptr]) + s
  {
    for j := 0 to |s|
      invariant out[..ptr + j] == old(out[..ptr]) + s[..j]
    {
      out[ptr + j] := s[j];
    }
    assert s[..|s|] == s;
  }

  /** memcpy of a string without its terminator. */
  method Copy(out: array<char>, ptr: nat, e: array<char>, ghost s: string) returns (q: nat)
    requires Stores(e, s) && out != e && ptr + |s| <= out.Length
    modifies out
    ensures q == ptr + |s| && out[..q] == old(out[..ptr]) + s
  {
    var tmplen := StrLen(e, s);
    Write(out, ptr, e[..tmplen]);
    q := ptr + tmplen;
  }

  method PrintValue(item: Node, depth: nat, fmt: bool, ghost v: Json) returns (out: array<char>)
    requires item.Denotes(v) && Printable(v)
    ensures fresh(out) && Stores(out, Print(v, depth, fmt))
    decreases v, 1
  {
    PrintNulFree(v, depth, fmt);
    match item.kind {
      case KNull => out := Duplicate(5, "null");
      case KFalse => out := Duplicate(6, "false");
      case KTrue => out := Duplicate(5, "true");
      case KNumber =>
        var size, text := RenderNumber(item.mantissa);
        out := Duplicate(size, text);
      case KString => out := PrintString(item.valuestring);
      case KArray => out := PrintArray(item, depth, fmt, v.items);
      case KObject => out := PrintObject(item, depth, fmt, v.members);
    }
  }

  method PrintString(str: string) returns (out: array<char>)
    requires NulFree(str)
    ensures fresh(out) && Stores(out, Quoted(str))
  {
    QuotedNulFree(str);
    var size, text := RenderString(str);
    out := Duplicate(size, text);
  }

  // ----- arrays -----

  /** The first `|entries|` children, each printed into a string of its own. */
  ghost predicate Printed(entries: seq<array<char>>, items: seq<Json>, depth: nat, fmt: bool)
    reads entries
  {
    |entries| <= |items| && forall i :: 0 <= i < |entries| ==> Stores(entries[i], Print(items[i], depth, fmt))
  }

  /** Prints every child, adding up the size of the string to come. */
  method PrintEntries(item: Node, depth: nat, fmt: bool, ghost items: seq<Json>)
    returns (entries: seq<array<char>>, len: nat)
    requires item.Holds(items) && AllPrintable(items)
    ensures |entries| == |items| && Printed(entries, items, depth, fmt)
    ensures forall e :: e in entries ==> fresh(e)
    ensures len >= 5 + |PrintItems(items, depth, fmt)|
    decreases items, 3
  {
    hide Print, PrintItems, Node.Holds, Stores;
    entries, len := [], 5;
    ChildAt(item, items, 0);
    assert items[0..] == items;
    ghost var ks := item.kids;
    var child := item.child;
    while child != null
      invariant item.kids == ks && |ks| == |items| && |entries| <= |items| && child == Elem(ks, |entries|)
      invariant Printed(entries, items, depth, fmt) && forall e :: e in entries ==> fresh(e)
      invariant len + |PrintItems(items[|entries|..], depth, fmt)| >= 5 + |PrintItems(items, depth, fmt)|
      decreases |items| - |entries|
    {
      ghost var k := |entries|;
      ItemsStep(items, k, depth, fmt);
      PrintableAt(items, k);
      ChildAt(item, items, k);
      var ret := PrintValue(child, depth, fmt, items[k]);
      entries := entries + [ret];
      var n := StrLen(ret, Print(items[k], depth, fmt));
      len := len + n + 2 + (if fmt then 1 else 0);
      child := child.next;
    }
    assert items[|entries|..] == [];
    NoItems(depth, fmt);
  }

  /** What has been written up to `ptr` and what is still to come make up `all`. */
  ghost predicate Ahead(out: array<char>, ptr: nat, rest: string, all: string)
    reads out
  {
    ptr <= out.Length && out[..ptr] + rest == all
  }

  /** Copies the k-th entry and its separator. */
  method ComposeItem(out: array<char>, ptr: nat, entries: seq<array<char>>, k: nat, depth: nat, fmt: bool,
                     ghost items: seq<Json>, ghost all: string)
    returns (q: nat)
    requires k < |entries| == |items| && Printed(entries, items, depth, fmt) && out !in entries
    requires Ahead(out, ptr, PrintItems(items[k..], depth, fmt), all) && |all| <= out.Length
    modifies out
    ensures Ahead(out, q, PrintItems(items[k + 1..], depth, fmt), all)
  {
    hide Print, PrintItems, Stores, ItemSeparator;
    ItemsStep(items, k, depth, fmt);
    ghost var w, rest := Print(items[k], depth, fmt), PrintItems(items[k + 1..], depth, fmt);
    var sep := ItemSeparator(k + 1 < |entries|, fmt);
    Assoc(out[..ptr], w + sep, rest);
    Assoc(out[..ptr], w, sep);
    q := Copy(out, ptr, entries[k], w);
    Write(out, q, sep);
    q := q + |sep|;
  }

  /** Allocates the string and composes it from the entries. */
  method ComposeArray(entries: seq<array<char>>, len: nat, depth: nat, fmt: bool, ghost items: seq<Json>)
    returns (out: array<char>)
    requires |entries| == |items| && Printed(entries, items, depth, fmt)
    requires len >= |PrintItems(items, depth, fmt)| + 3 && NulFree("[" + PrintItems(items, depth, fmt) + "]")
    ensures fresh(out) && Stores(out, "[" + PrintItems(items, depth, fmt) + "]")
  {
    hide PrintItems, Printed, NulFree;
    out := new char[len];
    out[0] := '[';
    var ptr: nat := 1;
    ghost var all := "[" + PrintItems(items, depth, fmt);
    assert items[0..] == items && out[..1] == "[";
    var i := 0;
    while i < |entries|
      invariant i <= |entries| && Printed(entries, items, depth, fmt)
      invariant Ahead(out, ptr, PrintItems(items[i..], depth, fmt), all)
    {
      ptr := ComposeItem(out, ptr, entries, i, depth, fmt, items, all);
      i := i + 1;
    }
    assert items[i..] == [];
    NoItems(depth, fmt);
    assert out[..ptr] + "" == out[..ptr];
    Write(out, ptr, "]");
    out[ptr + 1] := NUL;
  }

  method PrintArray(item: Node, depth: nat, fmt: bool, ghost items: seq<Json>) returns (out: array<char>)
    requires item.Denotes(Arr(items)) && AllPrintable(items)
    ensures fresh(out) && Stores(out, Print(Arr(items), depth, fmt))
    decreases items, 4
  {
    PrintNulFree(Arr(items), depth, fmt);
    assert item.Holds(items);
    hide Node.Denotes, Node.Separate, PrintItems, NulFree;
    var numentries := item.GetArraySize();
    if numentries == 0 {
      NoItems(depth + 1, fmt);
      assert Print(Arr(items), depth, fmt) == "[]";
      out := Duplicate(3, "[]");
      return;
    }
    var entries, len := PrintEntries(item, depth + 1, fmt, items);
    out := ComposeArray(entries, len, depth + 1, fmt, items);
  }

  // ----- objects -----

  /** Names and values of the first members, each printed into a string of its own. */
  ghost predicate PrintedMembers(names: seq<array<char>>, entries: seq<array<char>>, members: seq<Member>,
                                 depth: nat, fmt: bool)
    reads names, entries
  {
    && |names| == |entries| <= |members|
    && (forall i :: 0 <= i < |names| ==> Stores(names[i], Quoted(members[i].name)))
    && (forall i :: 0 <= i < |names| ==> Stores(entries[i], Print(members[i].value, depth, fmt)))
  }

  /** Name and value of one member, and what it adds to the size of the object. */
  method PrintMemberEntry(child: Node, depth: nat, fmt: bool, ghost m: Member, ghost more: bool)
    returns (str: array<char>, ret: array<char>, len: nat)
    requires child.Denotes(m.value) && child.name == Some(m.name) && NulFree(m.name) && Printable(m.value)
    ensures fresh(str) && Stores(str, Quoted(m.name))
    ensures fresh(ret) && Stores(ret, Print(m.value, depth, fmt))
    ensures len >= |MemberText(m, more, depth, fmt)|
    decreases m, 2
  {
    hide Print, Quoted, Stores, MemberText;
    MemberLength(m, more, depth, fmt);
    str := PrintString(child.name.value);
    ret := PrintValue(child, depth, fmt, m.value);
    var n := StrLen(ret, Print(m.value, depth, fmt));
    var k := StrLen(str, Quoted(m.name));
    len := n + k + 2 + (if fmt then 2 + depth else 0);
  }

  /** Prints every name and value, adding up the size of the string to come. */
  method PrintMemberEntries(item: Node, depth: nat, fmt: bool, ghost members: seq<Member>)
    returns (names: seq<array<char>>, entries: seq<array<char>>, len: nat)
    requires HoldsMembers(item, members) && AllMembersPrintable(members)
    ensures |entries| == |members| && PrintedMembers(names, entries, members, depth, fmt)
    ensures forall e :: e in names || e in entries ==> fresh(e)
    ensures len >= 7 + (if fmt then depth else 0) + |PrintMembers(members, depth, fmt)|
    decreases members, 3
  {
    hide HoldsMembers, Print, PrintMembers, Quoted, Stores, AllMembersPrintable, MemberText;
    names, entries, len := [], [], 7;
    if fmt {
      len := len + depth;
    }
    MemberAt(item, members, 0);
    assert members[0..] == members;
    assert PrintedMembers(names, entries, members, depth, fmt);
    hide PrintedMembers;
    ghost var ks, base := item.kids, len;
    var child := item.child;
    while child != null
      invariant item.kids == ks && |ks| == |members| && |entries| <= |members| && child == Elem(ks, |entries|)
      invariant PrintedMembers(names, entries, members, depth, fmt)
      invariant forall e :: e in names || e in entries ==> fresh(e)
      invariant len + |PrintMembers(members[|entries|..], depth, fmt)| >= base + |PrintMembers(members, depth, fmt)|
      decreases |members| - |entries|
    {
      ghost var k := |entries|;
      MembersStep(members, k, depth, fmt);
      MemberPrintableAt(members, k);
      MemberAt(item, members, k);
      var str, ret, more := PrintMemberEntry(child, depth, fmt, members[k], k + 1 < |members|);
      PrintedOneMore(names, entries, members, depth, fmt, str, ret);
      names, entries := names + [str], entries + [ret];
      len := len + more;
      child := child.next;
    }
    assert members[|entries|..] == [];
    NoMembers(depth, fmt);
  }

  lemma PrintedOneMore(names: seq<array<char>>, entries: seq<array<char>>, members: seq<Member>, depth: nat, fmt: bool,
                       str: array<char>, ret: array<char>)
    requires PrintedMembers(names, entries, members, depth, fmt) && |entries| < |members|
    requires Stores(str, Quoted(members[|entries|].name)) && Stores(ret, Print(members[|entries|].value, depth, fmt))
    ensures PrintedMembers(names + [str], entries + [ret], members, depth, fmt)
  {
  }

  lemma MemberLength(m: Member, more: bool, depth: nat, fmt: bool)
    ensures |MemberText(m, more, depth, fmt)|
            <= |Quoted(m.name)| + |Print(m.value, depth, fmt)| + 2 + (if fmt then 2 + depth else 0)
  {
    hide Print, Quoted;
    TabsNulFree(depth);
  }

  /** Copies the k-th name and value with everything around them. */
  method ComposeMember(out: array<char>, ptr: nat, names: seq<array<char>>, entries: seq<array<char>>, k: nat,
                       depth: nat, fmt: bool, ghost members: seq<Member>, ghost all: string)
    returns (q: nat)
    requires k < |entries| == |members| && PrintedMembers(names, entries, members, depth, fmt)
    requires out !in names && out !in entries
    requires Ahead(out, ptr, PrintMembers(members[k..], depth, fmt), all) && |all| <= out.Length
    modifies out
    ensures Ahead(out, q, PrintMembers(members[k + 1..], depth, fmt), all)
  {
    hide Print, PrintMembers, Quoted, Stores, MemberSeparator, Tabs, When;
    MembersStep(members, k, depth, fmt);
    ghost var m, before := members[k], out[..ptr];
    var tabs, sep := When(fmt, Tabs(depth)), MemberSeparator(k + 1 < |entries|, fmt);
    var colon := ":" + When(fmt, "\t");
    ghost var name, value := Quoted(m.name), Print(m.value, depth, fmt);
    AssocMember(before, tabs, name, ":", When(fmt, "\t"), value, sep);
    Assoc(before, MemberText(m, k + 1 < |entries|, depth, fmt), PrintMembers(members[k + 1..], depth, fmt));
    Write(out, ptr, tabs);
    q := Copy(out, ptr + |tabs|, names[k], name);
    Write(out, q, colon);
    q := Copy(out, q + |colon|, entries[k], value);
    Write(out, q, sep);
    q := q + |sep|;
  }

  /** Allocates the string and composes it from names and entries. */
  method ComposeObject(names: seq<array<char>>, entries: seq<array<char>>, len: nat, depth: nat, fmt: bool,
                       ghost members: seq<Member>)
    returns (out: array<char>)
    requires |entries| == |members| && members != [] && PrintedMembers(names, entries, members, depth + 1, fmt)
    requires len >= 7 + (if fmt then depth + 1 else 0) + |PrintMembers(members, depth + 1, fmt)|
    requires NulFree(Print(Obj(members), depth, fmt))
    ensures fresh(out) && Stores(out, Print(Obj(members), depth, fmt))
  {
    TabsNulFree(depth);
    hide PrintMembers, PrintedMembers, NulFree, Tabs;
    out := new char[len];
    var start := "{" + When(fmt, "\n");
    ghost var body := PrintMembers(members, depth + 1, fmt);
    ghost var all := start + body;
    Write(out, 0, start);
    var ptr: nat := |start|;
    assert members[0..] == members && out[..0] + start == start;
    var i := 0;
    while i < |entries|
      invariant i <= |entries| && PrintedMembers(names, entries, members, depth + 1, fmt)
      invariant Ahead(out, ptr, PrintMembers(members[i..], depth + 1, fmt), all)
    {
      ptr := ComposeMember(out, ptr, names, entries, i, depth + 1, fmt, members, all);
      i := i + 1;
    }
    assert members[i..] == [];
    NoMembers(depth + 1, fmt);
    assert out[..ptr] + "" == out[..ptr];
    var end := When(fmt, Tabs(depth)) + "}";
    Write(out, ptr, end);
    out[ptr + |end|] := NUL;
    assert all + end == Print(Obj(members), depth, fmt);
  }

  method PrintObject(item: Node, depth: nat, fmt: bool, ghost members: seq<Member>) returns (out: array<char>)
    requires item.Denotes(Obj(members)) && AllMembersPrintable(members)
    ensures fresh(out) && Stores(out, Print(Obj(members), depth, fmt))
    decreases members, 4
  {
    hide *;
    ObjectNode(item, depth, fmt, members);
    var numentries := item.GetArraySize();
    if numentries == 0 {
      assert members == [];
      out := PrintEmptyObject(depth, fmt);
      return;
    }
    var names, entries, len := PrintMemberEntries(item, depth + 1, fmt, members);
    out := ComposeObject(names, entries, len, depth, fmt, members);
  }

  lemma ObjectNode(item: Node, depth: nat, fmt: bool, members: seq<Member>)
    requires item.Denotes(Obj(members)) && AllMembersPrintable(members)
    ensures HoldsMembers(item, members) && item.Linked() && |item.kids| == |members|
    ensures NulFree(Print(Obj(members), depth, fmt))
  {
    PrintNulFree(Obj(members), depth, fmt);
    item.HoldsDenotes(Values(members), members);
    hide NulFree, Print;
  }

  method PrintEmptyObject(depth: nat, fmt: bool) returns (out: array<char>)
    ensures fresh(out) && Stores(out, Print(Obj([]), depth, fmt))
  {
    PrintNulFree(Obj([]), depth, fmt);
    hide NulFree, Stores;
    TabsNulFree(depth - 1);
    out := Duplicate(if fmt then depth + 4 else 3, "{" + When(fmt, "\n" + Tabs(depth - 1)) + "}");
  }
}
