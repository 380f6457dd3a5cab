/** Walking the children of an item while their text is produced: what the two printers
    share. */
module JsonWalk {
  import opened JsonValue
  import opened JsonHeap

  lemma ItemsStep(items: seq<Json>, k: nat, depth: nat, fmt: bool)
    requires k < |items|
    ensures PrintItems(items[k..], depth, fmt)
            == Print(items[k], depth, fmt) + ItemSeparator(k + 1 < |items|, fmt) + PrintItems(items[k + 1..], depth, fmt)
  {
    assert items[k..][1..] == items[k + 1..];
  }

  lemma {:induction false} PrintableAt(items: seq<Json>, k: nat)
    requires AllPrintable(items) && k < |items|
    ensures Printable(items[k])
    decreases k
  {
    if k > 0 {
      PrintableAt(items[1..], k - 1);
    }
  }

  lemma ChildAt(item: Node, vs: seq<Json>, k: nat)
    requires item.Holds(vs)
    ensures |item.kids| == |vs| && item.child == Elem(item.kids, 0)
    ensures k < |vs| ==> item.kids[k].Denotes(vs[k]) && item.kids[k].next == Elem(item.kids, k + 1)
  {
  }

  lemma NoItems(depth: nat, fmt: bool)
    ensures PrintItems([], depth, fmt) == ""
  {
  }

  function Values(members: seq<Member>): (vs: seq<Json>)
    ensures |vs| == |members| && forall i :: 0 <= i < |vs| ==> vs[i] == members[i].value
  {
    seq(|members|, i requires 0 <= i < |members| => members[i].value)
  }

  lemma {:induction false} MemberPrintableAt(members: seq<Member>, k: nat)
    requires AllMembersPrintable(members) && k < |members|
    ensures NulFree(members[k].name) && Printable(members[k].value)
    decreases k
  {
    if k > 0 {
      MemberPrintableAt(members[1..], k - 1);
    }
  }

  /** The text of one member, separator included. */
  function MemberText(m: Member, more: bool, depth: nat, fmt: bool): string {
    When(fmt, Tabs(depth)) + Quoted(m.name) + ":" + When(fmt, "\t") + Print(m.value, depth, fmt) + MemberSeparator(more, fmt)
  }

  lemma MembersStep(members: seq<Member>, k: nat, depth: nat, fmt: bool)
    requires k < |members|
    ensures PrintMembers(members[k..], depth, fmt)
            == MemberText(members[k], k + 1 < |members|, depth, fmt) + PrintMembers(members[k + 1..], depth, fmt)
  {
    hide Print, Quoted, MemberSeparator;
    assert members[k..][1..] == members[k + 1..];
  }

  /** The children of an object and their names. */
  ghost predicate HoldsMembers(item: Node, members: seq<Member>)
    reads item, item.desc
  {
    item.Holds(Values(members)) && forall i :: 0 <= i < |item.kids| ==> item.kids[i].name == Some(members[i].name)
  }

  lemma MemberAt(item: Node, members: seq<Member>, k: nat)
    requires HoldsMembers(item, members)
    ensures |item.kids| == |members| && item.child == Elem(item.kids, 0)
    ensures k < |members| ==>
              && item.kids[k].Denotes(members[k].value) && item.kids[k].name == Some(members[k].name)
              && item.kids[k].next == Elem(item.kids, k + 1)
  {
    ChildAt(item, Values(members), k);
  }

  lemma NoMembers(depth: nat, fmt: bool)
    ensures PrintMembers([], depth, fmt) == ""
  {
  }

  lemma Assoc(a: string, b: string, c: string)
    ensures a + (b + c) == (a + b) + c
  {
  }

  lemma AssocMember(t: string, a: string, b: string, c: string, d: string, e: string, f: string)
    ensures t + a + b + (c + d) + e + f == t + (a + b + c + d + e + f)
  {
  }
}
