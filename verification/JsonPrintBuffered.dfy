/** cJSON_PrintBuffered: the printer that writes into one growing buffer. */
module JsonPrintBuffered {
  import opened JsonValue
  import opened JsonHeap
  import opened JsonRender
  import opened JsonBuffer
  import opened JsonWalk

  const SLACK: nat := 32

  /** `int` offsets suffice for the text still to come. */
  ghost predicate Room(p: PrintBuffer, text: string)
    reads p
  {
    p.Valid() && p.offset + |text| + SLACK <= INT_LIMIT
  }

  /** The finished text and what is still to come make up `all`. */
  ghost predicate Ahead(p: PrintBuffer, rest: string, all: string)
    reads p, p.buffer
  {
    p.Valid() && p.Text() + rest == all && |all| + SLACK <= INT_LIMIT
  }

  lemma NothingAhead(p: PrintBuffer, all: string)
    requires Ahead(p, "", all)
    ensures p.Valid() && p.Text() == all
  {
    assert p.Text() + "" == p.Text();
  }

  /** print_value with a buffer. The text stands behind the old offset, terminated, with
      the new offset somewhere inside it. The returned pointer is an index into the
      buffer; print_object overwrites it with its depth when it formats. */
  method PrintValue(item: Node, depth: nat, fmt: bool, p: PrintBuffer, ghost v: Json) returns (out: nat)
    requires item.Denotes(v) && Printable(v) && Room(p, Print(v, depth, fmt))
    modifies p, p.buffer
    ensures p.Shows(old(p.Text()) + Print(v, depth, fmt)) && old(p.offset) <= p.offset
    ensures p.buffer == old(p.buffer) || fresh(p.buffer)
    ensures out == if v.Obj? && v.members != [] && fmt then depth else old(p.offset)
    decreases v, 1
  {
    out := p.offset;
    match item.kind {
      case KNull => p.Emit(5, "null", true);
      case KFalse => p.Emit(6, "false", true);
      case KTrue => p.Emit(5, "true", true);
      case KNumber =>
        var size, text := RenderNumber(item.mantissa);
        p.Emit(size, text, true);
      case KString => PrintString(item.valuestring, p);
      case KArray => PrintArray(item, depth, fmt, p, v.items);
      case KObject => out := PrintObject(item, depth, fmt, p, v.members);
    }
  }

  method PrintString(str: string, p: PrintBuffer)
    requires NulFree(str) && Room(p, Quoted(str))
    modifies p`buffer, p`length, p.buffer
    ensures p.Shows(old(p.Text()) + Quoted(str))
    ensures p.buffer == old(p.buffer) || fresh(p.buffer)
  {
    var size, text := RenderString(str);
    p.Emit(size, text, true);
  }

  /** Emits unterminated or terminated text and moves the offset behind it. */
  method Put(p: PrintBuffer, needed: nat, s: string, terminated: bool)
    requires p.Valid() && p.offset + needed <= INT_LIMIT && |s| + (if terminated then 1 else 0) <= needed
    modifies p, p.buffer
    ensures p.Valid() && p.Text() == old(p.Text()) + s
    ensures p.buffer == old(p.buffer) || fresh(p.buffer)
  {
    p.Emit(needed, s, terminated);
    p.offset := p.offset + |s|;
  }

  /** A child of an array, and the separator when another one follows. */
  method PrintItem(child: Node, more: bool, depth: nat, fmt: bool, p: PrintBuffer, ghost v: Json)
    requires child.Denotes(v) && Printable(v) && Room(p, Print(v, depth, fmt) + ItemSeparator(more, fmt))
    modifies p, p.buffer
    ensures p.Valid() && p.Text() == old(p.Text()) + Print(v, depth, fmt) + ItemSeparator(more, fmt)
    ensures p.buffer == old(p.buffer) || fresh(p.buffer)
    decreases v, 3
  {
    hide Print, PrintBuffer.Text;
    PutValue(child, depth, fmt, p, v);
    if more {
      var len := if fmt then 2 else 1;
      Put(p, len + 1, ItemSeparator(more, fmt), true);
    } else {
      assert p.Text() + "" == p.Text();
    }
  }

  method PrintChildren(item: Node, depth: nat, fmt: bool, p: PrintBuffer, ghost items: seq<Json>)
    requires item.Holds(items) && AllPrintable(items) && Room(p, PrintItems(items, depth, fmt))
    modifies p, p.buffer
    ensures p.Valid() && p.Text() == old(p.Text()) + PrintItems(items, depth, fmt)
    ensures p.buffer == old(p.buffer) || fresh(p.buffer)
    decreases items, 4
  {
    ghost var all := p.Text() + PrintItems(items, depth, fmt);
    ghost var k := 0;
    ChildAt(item, items, 0);
    assert items[0..] == items;
    var child := item.child;
    assert Ahead(p, PrintItems(items[0..], depth, fmt), all);
    hide PrintItems, Node.Holds, Ahead, AllPrintable;
    ghost var ks := item.kids;
    while child != null
      invariant item.Holds(items) && item.kids == ks
      invariant k <= |items| == |ks| && child == Elem(ks, k)
      invariant Ahead(p, PrintItems(items[k..], depth, fmt), all)
      invariant p.buffer == old(p.buffer) || fresh(p.buffer)
      decreases |items| - k
    {
      PrintNextItem(item, child, depth, fmt, p, items, k, all);
      ChildAt(item, items, k);
      child := child.next;
      k := k + 1;
    }
    assert items[k..] == [];
    NoItems(depth, fmt);
    NothingAhead(p, all);
  }

  method PrintArray(item: Node, depth: nat, fmt: bool, p: PrintBuffer, ghost items: seq<Json>)
    requires item.Denotes(Arr(items)) && AllPrintable(items) && Room(p, Print(Arr(items), depth, fmt))
    modifies p, p.buffer
    ensures p.Shows(old(p.Text()) + Print(Arr(items), depth, fmt)) && old(p.offset) <= p.offset
    ensures p.buffer == old(p.buffer) || fresh(p.buffer)
    decreases items, 5
  {
    assert item.Holds(items);
    hide Node.Denotes, Node.Separate, PrintItems, PrintBuffer.Text;
    var numentries := item.GetArraySize();
    if numentries == 0 {
      NoItems(depth + 1, fmt);
      p.Emit(3, "[]", true);
      assert Print(Arr(items), depth, fmt) == "[]";
      return;
    }
    Put(p, 1, "[", false);
    PrintChildren(item, depth + 1, fmt, p, items);
    p.Emit(2, "]", true);
    AssocWrap(old(p.Text()), "[", PrintItems(items, depth + 1, fmt), "]");
  }

  /** Printing the k-th item moves its text from what is still to come to what is there. */
  method PrintNextItem(item: Node, child: Node, depth: nat, fmt: bool, p: PrintBuffer,
                       ghost items: seq<Json>, ghost k: nat, ghost all: string)
    requires item.Holds(items) && AllPrintable(items) && k < |items| == |item.kids| && child == item.kids[k]
    requires Ahead(p, PrintItems(items[k..], depth, fmt), all)
    modifies p, p.buffer
    ensures Ahead(p, PrintItems(items[k + 1..], depth, fmt), all)
    ensures item.Holds(items)
    ensures p.buffer == old(p.buffer) || fresh(p.buffer)
    decreases items, 3
  {
    hide Print, PrintItems, ItemSeparator, Node.Holds, PrintBuffer.Text, AllPrintable, Printable;
    ItemsStep(items, k, depth, fmt);
    PrintableAt(items, k);
    ChildAt(item, items, k);
    AssocRest(p.Text(), Print(items[k], depth, fmt), ItemSeparator(k + 1 < |items|, fmt),
              PrintItems(items[k + 1..], depth, fmt));
    PrintItem(child, child.next != null, depth, fmt, p, items[k]);
  }

  lemma AssocWrap(a: string, b: string, c: string, d: string)
    ensures a + b + c + d == a + (b + c + d)
  {
  }

  lemma AssocRest(a: string, b: string, c: string, d: string)
    ensures a + (b + c + d) == (a + b + c) + d
  {
  }

  /** print_value followed by update. */
  method PutValue(child: Node, depth: nat, fmt: bool, p: PrintBuffer, ghost v: Json)
    requires child.Denotes(v) && Printable(v) && Room(p, Print(v, depth, fmt))
    modifies p, p.buffer
    ensures p.Valid() && p.Text() == old(p.Text()) + Print(v, depth, fmt)
    ensures p.buffer == old(p.buffer) || fresh(p.buffer)
    decreases v, 2
  {
    hide Print;
    ghost var full := p.Text() + Print(v, depth, fmt);
    var _ := PrintValue(child, depth, fmt, p, v);
    PrintNulFree(v, depth, fmt);
    assert full[p.offset..] == Print(v, depth, fmt)[p.offset - old(p.offset)..];
    p.offset := p.Update(full);
  }

  /** print_string_ptr followed by update. */
  method PutString(str: string, p: PrintBuffer)
    requires NulFree(str) && Room(p, Quoted(str))
    modifies p, p.buffer
    ensures p.Valid() && p.Text() == old(p.Text()) + Quoted(str)
    ensures p.buffer == old(p.buffer) || fresh(p.buffer)
  {
    hide Quoted;
    ghost var full := p.Text() + Quoted(str);
    PrintString(str, p);
    QuotedNulFree(str);
    assert full[p.offset..] == Quoted(str);
    p.offset := p.Update(full);
  }

  /** One turn of print_object's loop. */
  method PrintMember(child: Node, more: bool, depth: nat, fmt: bool, p: PrintBuffer, ghost m: Member)
    requires child.Denotes(m.value) && child.name == Some(m.name) && NulFree(m.name) && Printable(m.value)
    requires Room(p, MemberText(m, more, depth, fmt))
    modifies p, p.buffer
    ensures p.Valid() && p.Text() == old(p.Text()) + MemberText(m, more, depth, fmt)
    ensures p.buffer == old(p.buffer) || fresh(p.buffer)
    decreases m, 3
  {
    hide Print, Quoted, PrintBuffer.Text;
    ghost var before, tabs, name := p.Text(), When(fmt, Tabs(depth)), Quoted(m.name);
    ghost var value, sep := Print(m.value, depth, fmt), MemberSeparator(more, fmt);
    TabsNulFree(depth);
    if fmt {
      Put(p, depth, Tabs(depth), false);
    } else {
      assert before + "" == before;
    }
    PutString(child.name.value, p);
    Put(p, if fmt then 2 else 1, ":" + When(fmt, "\t"), false);
    PutValue(child, depth, fmt, p, m.value);
    Put(p, |MemberSeparator(more, fmt)| + 1, MemberSeparator(more, fmt), true);
    AssocMember(before, tabs, name, ":", When(fmt, "\t"), value, sep);
  }

  /** Printing the k-th member moves its text from what is still to come to what is there. */
  method PrintNextMember(item: Node, child: Node, depth: nat, fmt: bool, p: PrintBuffer,
                         ghost members: seq<Member>, ghost k: nat, ghost all: string)
    requires HoldsMembers(item, members) && AllMembersPrintable(members)
    requires k < |members| == |item.kids| && child == item.kids[k]
    requires Ahead(p, PrintMembers(members[k..], depth, fmt), all)
    modifies p, p.buffer
    ensures Ahead(p, PrintMembers(members[k + 1..], depth, fmt), all)
    ensures HoldsMembers(item, members)
    ensures p.buffer == old(p.buffer) || fresh(p.buffer)
    decreases members, 3
  {
    hide HoldsMembers, MemberText, PrintMembers, PrintBuffer.Text, AllMembersPrintable, Printable, NulFree;
    MembersStep(members, k, depth, fmt);
    MemberPrintableAt(members, k);
    MemberAt(item, members, k);
    ghost var w, rest := MemberText(members[k], k + 1 < |members|, depth, fmt), PrintMembers(members[k + 1..], depth, fmt);
    Assoc(p.Text(), w, rest);
    PrintMember(child, child.next != null, depth, fmt, p, members[k]);
  }

  method PrintMembersLoop(item: Node, depth: nat, fmt: bool, p: PrintBuffer, ghost members: seq<Member>)
    requires HoldsMembers(item, members) && AllMembersPrintable(members) && Room(p, PrintMembers(members, depth, fmt))
    modifies p, p.buffer
    ensures p.Valid() && p.Text() == old(p.Text()) + PrintMembers(members, depth, fmt)
    ensures p.buffer == old(p.buffer) || fresh(p.buffer)
    decreases members, 4
  {
    hide HoldsMembers, PrintMembers, AllMembersPrintable;
    ghost var all := p.Text() + PrintMembers(members, depth, fmt);
    ghost var k := 0;
    MemberAt(item, members, 0);
    assert members[0..] == members;
    assert Ahead(p, PrintMembers(members[0..], depth, fmt), all);
    hide Ahead;
    var child := item.child;
    ghost var ks := item.kids;
    while child != null
      invariant HoldsMembers(item, members) && item.kids == ks
      invariant k <= |members| == |ks| && child == Elem(ks, k)
      invariant Ahead(p, PrintMembers(members[k..], depth, fmt), all)
      invariant p.buffer == old(p.buffer) || fresh(p.buffer)
      decreases |members| - k
    {
      PrintNextMember(item, child, depth, fmt, p, members, k, all);
      MemberAt(item, members, k);
      child := child.next;
      k := k + 1;
    }
    assert members[k..] == [];
    NoMembers(depth, fmt);
    NothingAhead(p, all);
  }

  method PrintObject(item: Node, depth: nat, fmt: bool, p: PrintBuffer, ghost members: seq<Member>) returns (out: nat)
    requires item.Denotes(Obj(members)) && AllMembersPrintable(members) && Room(p, Print(Obj(members), depth, fmt))
    modifies p, p.buffer
    ensures p.Shows(old(p.Text()) + Print(Obj(members), depth, fmt)) && old(p.offset) <= p.offset
    ensures p.buffer == old(p.buffer) || fresh(p.buffer)
    ensures out == if members != [] && fmt then depth else old(p.offset)
    decreases members, 6
  {
    item.HoldsDenotes(Values(members), members);
    assert HoldsMembers(item, members) && item.Linked() && |item.kids| == |members|;
    hide Node.Denotes, Node.Linked, HoldsMembers, PrintMembers, PrintBuffer.Text, AllMembersPrintable;
    out := p.offset;
    var numentries := item.GetArraySize();
    if numentries == 0 {
      TabsNulFree(depth - 1);
      p.Emit(if fmt then depth + 4 else 3, "{" + When(fmt, "\n" + Tabs(depth - 1)) + "}", true);
      return;
    }
    PrintFullObject(item, depth, fmt, p, members);
    if fmt {
      out := depth;
    }
  }

  method PrintFullObject(item: Node, depth: nat, fmt: bool, p: PrintBuffer, ghost members: seq<Member>)
    requires HoldsMembers(item, members) && members != [] && AllMembersPrintable(members)
    requires Room(p, Print(Obj(members), depth, fmt))
    modifies p, p.buffer
    ensures p.Shows(old(p.Text()) + Print(Obj(members), depth, fmt)) && old(p.offset) <= p.offset
    ensures p.buffer == old(p.buffer) || fresh(p.buffer)
    decreases members, 5
  {
    hide HoldsMembers, PrintMembers, PrintBuffer.Text, AllMembersPrintable;
    ghost var before := p.Text();
    TabsNulFree(depth);
    hide Tabs;
    var len := if fmt then 2 else 1;
    Put(p, len + 1, "{" + When(fmt, "\n"), true);
    PrintMembersLoop(item, depth + 1, fmt, p, members);
    p.Emit(if fmt then depth + 2 else 2, When(fmt, Tabs(depth)) + "}", true);
    AssocObject(before, "{", When(fmt, "\n"), PrintMembers(members, depth + 1, fmt), When(fmt, Tabs(depth)), "}");
  }

  lemma AssocObject(t: string, a: string, b: string, c: string, d: string, e: string)
    ensures t + (a + b) + c + (d + e) == t + (a + b + c + d + e)
  {
  }

  // ----- the whole -----

  /** cJSON_PrintBuffered: whatever the initial size, the returned pointer is the start of
      the buffer and the buffer holds exactly the text of print_value. */
  method PrintBuffered(item: Node, prebuffer: nat, fmt: bool, ghost v: Json) returns (buffer: array<char>, out: nat)
    requires item.Denotes(v) && Printable(v) && |Print(v, 0, fmt)| + SLACK <= INT_LIMIT
    ensures out == 0 && |Print(v, 0, fmt)| < buffer.Length
    ensures buffer[..|Print(v, 0, fmt)|] == Print(v, 0, fmt) && buffer[|Print(v, 0, fmt)|] == NUL
  {
    hide Print;
    var p := new PrintBuffer(prebuffer);
    out := PrintValue(item, 0, fmt, p, v);
    buffer := p.buffer;
    assert "" + Print(v, 0, fmt) == Print(v, 0, fmt);
  }
}
