/** cJSON items on the heap: doubly linked sibling lists under a parent item, the JSON
    value an item denotes, and the list operations (cJSON/cJSON.c). */
module JsonHeap {
  import opened JsonValue

  datatype Kind = KFalse | KTrue | KNull | KNumber | KString | KArray | KObject

  datatype Option<T> = None | Some(value: T)

  /** The item at an index of a child list, null when there is none. */
  ghost function Elem(ks: seq<Node>, i: int): Node? {
    if 0 <= i < |ks| then ks[i] else null
  }

  ghost predicate NoDup(ks: seq<Node>) {
    forall i, j :: 0 <= i < j < |ks| ==> ks[i] != ks[j]
  }

  lemma InsertedAt<T>(s: seq<T>, n: nat, x: T, i: nat)
    requires n <= |s| && i <= |s|
    ensures (s[..n] + [x] + s[n..])[i] == if i < n then s[i] else if i == n then x else s[i - 1]
  {
  }

  lemma NoDupInsert(ks: seq<Node>, n: nat, k: Node)
    requires NoDup(ks) && n <= |ks| && k !in ks
    ensures NoDup(ks[..n] + [k] + ks[n..])
    ensures forall j :: j in ks[..n] + [k] + ks[n..] <==> j in ks || j == k
  {
    assert ks == ks[..n] + ks[n..];
  }

  lemma NoDupRemove(ks: seq<Node>, n: nat)
    requires NoDup(ks) && n < |ks|
    ensures NoDup(ks[..n] + ks[n + 1..])
    ensures forall j :: j in ks[..n] + ks[n + 1..] <==> j in ks && j != ks[n]
  {
    assert ks == ks[..n] + [ks[n]] + ks[n + 1..];
  }

  lemma NoDupReplace(ks: seq<Node>, n: nat, k: Node)
    requires NoDup(ks) && n < |ks| && k !in ks
    ensures NoDup(ks[n := k])
    ensures forall j :: j in ks[n := k] <==> (j in ks && j != ks[n]) || j == k
  {
    assert ks == ks[..n] + [ks[n]] + ks[n + 1..];
    assert ks[n := k] == ks[..n] + [k] + ks[n + 1..];
  }

  /** Every other position holds another item. */
  lemma NoDupAt(ks: seq<Node>, n: int)
    requires NoDup(ks)
    ensures 0 <= n < |ks| ==> forall i :: 0 <= i < |ks| && i != n ==> ks[i] != ks[n]
  {
  }

  class Node {
    var next: Node?
    var prev: Node?
    var child: Node?
    var kind: Kind
    var valuestring: string
    var mantissa: int
    var exponent: int
    var name: Option<string>

    /** The child list, and every item below this one. */
    ghost var kids: seq<Node>
    ghost var desc: set<Node>

    /** cJSON_New_Item: an all-zero item. */
    constructor ()
      ensures next == null && prev == null && child == null
      ensures kind == KFalse && valuestring == "" && mantissa == 0 && exponent == 0 && name == None
      ensures kids == [] && desc == {}
    {
      next, prev, child := null, null, null;
      kind, valuestring, mantissa, exponent, name := KFalse, "", 0, 0, None;
      kids, desc := [], {};
    }

    /** `child` heads a well-formed doubly linked list of the children. */
    ghost predicate Linked()
      reads `child, `kids, kids`next, kids`prev
    {
      && child == Elem(kids, 0)
      && (forall i {:trigger kids[i].next} :: 0 <= i < |kids| ==> kids[i].next == Elem(kids, i + 1))
      && (forall i {:trigger kids[i].prev} :: 0 <= i < |kids| ==> kids[i].prev == Elem(kids, i - 1))
      && NoDup(kids)
    }

    /** The item and everything below it. */
    ghost function Span(): set<Node>
      reads `desc
    {
      {this} + desc
    }

    /** The children and what is below them are pairwise separate, and recorded in `desc`. */
    ghost predicate Separate()
      reads `kids, `desc, kids`desc
    {
      && this !in desc
      && (forall i :: 0 <= i < |kids| ==> kids[i].Span() <= desc)
      && (forall j, k :: j in kids && k in kids && j != k ==> j.Span() !! k.Span())
    }

    ghost predicate Owned()
      reads `child, `kids, `desc, desc
    {
      (forall i :: 0 <= i < |kids| ==> kids[i] in desc) && Linked() && Separate()
    }

    /** The item, with everything below it, represents `v`. */
    ghost predicate Denotes(v: Json)
      reads `child, `kids, `desc, `kind, `valuestring, `mantissa, `exponent, desc
      decreases v
    {
      && Owned()
      && match v
         case Null => kind == KNull && kids == []
         case False => kind == KFalse && kids == []
         case True => kind == KTrue && kids == []
         case Number(m, e) => kind == KNumber && mantissa == m && exponent == e && kids == []
         case Str(s) => kind == KString && valuestring == s && kids == []
         case Arr(items) =>
           kind == KArray && |kids| == |items| && forall i :: 0 <= i < |kids| ==> kids[i].Denotes(items[i])
         case Obj(members) =>
           && kind == KObject && |kids| == |members|
           && (forall i :: 0 <= i < |kids| ==> kids[i].name == Some(members[i].name))
           && forall i :: 0 <= i < |kids| ==> kids[i].Denotes(members[i].value)
    }

    /** An item denotes one value only. */
    lemma {:induction false} DenotesUnique(v: Json, w: Json)
      requires Denotes(v) && Denotes(w)
      ensures v == w
      decreases v
    {
      match v
      case Arr(items) =>
        forall i | 0 <= i < |kids|
          ensures items[i] == w.items[i]
        {
          kids[i].DenotesUnique(items[i], w.items[i]);
        }
        assert items == w.items;
      case Obj(members) =>
        forall i | 0 <= i < |kids|
          ensures members[i] == w.members[i]
        {
          kids[i].DenotesUnique(members[i].value, w.members[i].value);
        }
        assert members == w.members;
      case _ =>
    }

    /** cJSON_GetArraySize */
    method GetArraySize() returns (n: nat)
      requires Linked()
      ensures n == |kids|
    {
      var c := child;
      n := 0;
      while c != null
        invariant n <= |kids| && c == Elem(kids, n)
        decreases |kids| - n
      {
        n, c := n + 1, c.next;
      }
    }

    static function Index(which: int): nat {
      if which < 0 then 0 else which
    }

    /** cJSON_GetArrayItem: a negative index means the first item. */
    method GetArrayItem(item: int) returns (c: Node?)
      requires Linked()
      ensures c == Elem(kids, Index(item))
    {
      c := child;
      var left := item;
      ghost var n := 0;
      while c != null && left > 0
        invariant n <= |kids| && c == Elem(kids, n)
        invariant if item > 0 then left == item - n && left >= 0 else left == item && n == 0
        decreases |kids| - n
      {
        left, c := left - 1, c.next;
        n := n + 1;
      }
    }

    method LastItem() returns (c: Node)
      requires Linked() && kids != []
      ensures c == kids[|kids| - 1]
    {
      c := child;
      ghost var n := 0;
      while c.next != null
        invariant 0 <= n < |kids| && c == kids[n]
        decreases |kids| - n
      {
        c := c.next;
        n := n + 1;
      }
    }

    // ----- relinking, on the sibling list alone -----

    /** suffix_object behind the last child, or the first child of all. */
    method LinkLast(item: Node)
      requires Linked() && item !in kids && item.next == null && item.prev == null
      modifies `child, `kids, kids`next, item`prev
      ensures Linked() && kids == old(kids) + [item]
    {
      var c := child;
      if c == null {
        assert kids == [];
        child := item;
        kids := [item];
      } else {
        c := LastItem();
        LinkAfter(c, item);
      }
    }

    /** The parser's appending: the last child is at hand. */
    method LinkAfter(c: Node, item: Node)
      requires Linked() && kids != [] && c == kids[|kids| - 1]
      requires item !in kids && item.next == null
      modifies `kids, c`next, item`prev
      ensures Linked() && kids == old(kids) + [item]
    {
      c.next := item;
      item.prev := c;
      NoDupAt(kids, |kids| - 1);
      NoDupInsert(kids, |kids|, item);
      assert kids[..|kids|] + [item] + kids[|kids|..] == kids + [item];
      hide NoDup;
      kids := kids + [item];
    }

    method LinkBefore(c: Node, newitem: Node, ghost n: nat)
      requires Linked() && n < |kids| && c == kids[n] && newitem !in kids
      modifies `child, `kids, kids`next, kids`prev, newitem`next, newitem`prev
      ensures Linked() && kids == old(kids[..n] + [newitem] + kids[n..])
    {
      NoDupAt(kids, n);
      NoDupAt(kids, n - 1);
      NoDupInsert(kids, n, newitem);
      hide NoDup;
      newitem.next := c;
      newitem.prev := c.prev;
      c.prev := newitem;
      if c == child {
        child := newitem;
      } else {
        newitem.prev.next := newitem;
      }
      ghost var ks := kids;
      kids := kids[..n] + [newitem] + kids[n..];
      LinkedWith(ks, n, newitem);
    }

    /** The links around the new item are those of the list with it. */
    lemma LinkedWith(ks: seq<Node>, n: nat, item: Node)
      requires n < |ks| && kids == ks[..n] + [item] + ks[n..] && NoDup(kids) && child == (if n == 0 then item else Elem(ks, 0))
      requires item.next == ks[n] && item.prev == Elem(ks, n - 1)
      requires forall j {:trigger ks[j].next} :: 0 <= j < |ks| ==> ks[j].next == if j + 1 == n then item else Elem(ks, j + 1)
      requires forall j {:trigger ks[j].prev} :: 0 <= j < |ks| ==> ks[j].prev == if j == n then item else Elem(ks, j - 1)
      ensures Linked()
    {
      hide NoDup;
      forall i {:trigger kids[i].next} | 0 <= i < |kids|
        ensures kids[i].next == Elem(kids, i + 1)
      {
        assert i != n ==> kids[i] == ks[if i < n then i else i - 1];
      }
      forall i {:trigger kids[i].prev} | 0 <= i < |kids|
        ensures kids[i].prev == Elem(kids, i - 1)
      {
        assert i != n ==> kids[i] == ks[if i < n then i else i - 1];
      }
    }

    method Unlink(c: Node, ghost n: nat)
      requires Linked() && n < |kids| && c == kids[n]
      modifies `child, `kids, kids`next, kids`prev
      ensures Linked() && kids == old(kids[..n] + kids[n + 1..])
      ensures c.next == null && c.prev == null
    {
      NoDupAt(kids, n - 1);
      NoDupAt(kids, n);
      NoDupAt(kids, n + 1);
      NoDupRemove(kids, n);
      hide NoDup;
      if c.prev != null {
        c.prev.next := c.next;
      }
      if c.next != null {
        c.next.prev := c.prev;
      }
      if c == child {
        child := c.next;
      }
      c.prev := null;
      c.next := null;
      ghost var ks := kids;
      kids := kids[..n] + kids[n + 1..];
      LinkedWithout(ks, n);
    }

    /** The links that pass over the n-th of `ks` are those of the list without it. */
    lemma LinkedWithout(ks: seq<Node>, n: nat)
      requires n < |ks| && kids == ks[..n] + ks[n + 1..] && NoDup(kids) && child == Elem(ks, if n == 0 then 1 else 0)
      requires forall j {:trigger ks[j].next} :: 0 <= j < |ks| && j != n ==> ks[j].next == Elem(ks, if j + 1 == n then n + 1 else j + 1)
      requires forall j {:trigger ks[j].prev} :: 0 <= j < |ks| && j != n ==> ks[j].prev == Elem(ks, if j - 1 == n then n - 1 else j - 1)
      ensures Linked()
    {
      hide NoDup;
      forall i {:trigger kids[i].next} | 0 <= i < |kids|
        ensures kids[i].next == Elem(kids, i + 1)
      {
        assert kids[i] == ks[if i < n then i else i + 1];
      }
      forall i {:trigger kids[i].prev} | 0 <= i < |kids|
        ensures kids[i].prev == Elem(kids, i - 1)
      {
        assert kids[i] == ks[if i < n then i else i + 1];
      }
    }

    method Relink(c: Node, newitem: Node, ghost n: nat)
      requires Linked() && n < |kids| && c == kids[n] && newitem !in kids
      modifies `child, `kids, kids`next, kids`prev, newitem`next, newitem`prev
      ensures Linked() && kids == old(kids[n := newitem])
      ensures c.next == null && c.prev == null
    {
      NoDupAt(kids, n - 1);
      NoDupAt(kids, n);
      NoDupAt(kids, n + 1);
      NoDupReplace(kids, n, newitem);
      hide NoDup;
      newitem.next := c.next;
      newitem.prev := c.prev;
      if newitem.next != null {
        newitem.next.prev := newitem;
      }
      if c == child {
        child := newitem;
      } else {
        newitem.prev.next := newitem;
      }
      c.next := null;
      c.prev := null;
      ghost var ks := kids;
      kids := kids[n := newitem];
      LinkedInstead(ks, n, newitem);
    }

    lemma LinkedInstead(ks: seq<Node>, n: nat, item: Node)
      requires n < |ks| && kids == ks[n := item] && NoDup(kids) && child == (if n == 0 then item else Elem(ks, 0))
      requires item.next == Elem(ks, n + 1) && item.prev == Elem(ks, n - 1)
      requires forall j {:trigger ks[j].next} :: 0 <= j < |ks| && j != n ==> ks[j].next == if j + 1 == n then item else Elem(ks, j + 1)
      requires forall j {:trigger ks[j].prev} :: 0 <= j < |ks| && j != n ==> ks[j].prev == if j - 1 == n then item else Elem(ks, j - 1)
      ensures Linked()
    {
      hide NoDup;
      forall i {:trigger kids[i].next} | 0 <= i < |kids|
        ensures kids[i].next == Elem(kids, i + 1)
      {
        assert i != n ==> kids[i] == ks[i];
      }
      forall i {:trigger kids[i].prev} | 0 <= i < |kids|
        ensures kids[i].prev == Elem(kids, i - 1)
      {
        assert i != n ==> kids[i] == ks[i];
      }
    }

    // ----- the list operations -----

    /** An item with a tree of its own that shares nothing with this one. */
    ghost predicate Fits(item: Node)
      reads `desc, item`desc
    {
      item.Span() !! Span()
    }

    /** The children, in order, denote `vs`. */
    ghost predicate Holds(vs: seq<Json>)
      reads `child, `kids, `desc, desc
    {
      Owned() && |vs| == |kids| && forall i :: 0 <= i < |kids| ==> kids[i].Denotes(vs[i])
    }

    /** An array denotes the sequence of its children's values, an object also their names. */
    lemma HoldsDenotes(vs: seq<Json>, ms: seq<Member>)
      requires |ms| == |vs| && forall i :: 0 <= i < |vs| ==> ms[i].value == vs[i]
      ensures Denotes(Arr(vs)) <==> kind == KArray && Holds(vs)
      ensures Denotes(Obj(ms)) <==>
              kind == KObject && Holds(vs) && forall i :: 0 <= i < |kids| ==> kids[i].name == Some(ms[i].name)
    {
      if kind == KObject && Holds(vs) && forall i :: 0 <= i < |kids| ==> kids[i].name == Some(ms[i].name) {
        assert forall i :: 0 <= i < |kids| ==> kids[i].Denotes(ms[i].value);
      }
    }

    /** No child's subtree holds this item or one of the children. */
    ghost predicate Apart()
      reads `kids, kids`desc
    {
      forall k, j {:trigger k in kids, j in kids} :: k in kids && j in kids ==> this !in k.desc && j !in k.desc
    }

    lemma HoldsApart(vs: seq<Json>)
      requires Holds(vs)
      ensures Apart() && |vs| == |kids| && forall i :: 0 <= i < |kids| ==> kids[i].Denotes(vs[i])
    {
      forall k, j | k in kids && j in kids
        ensures this !in k.desc && j !in k.desc
      {
        var a :| 0 <= a < |kids| && kids[a] == k;
        assert k.Denotes(vs[a]) && k.Span() <= desc;
        if j != k {
          assert j.Span() !! k.Span();
        }
      }
    }

    /** Only the item's links may have changed, and nothing below it. */
    twostate predicate Untouched()
      reads this, desc
    {
      && unchanged(`child) && unchanged(`kids) && unchanged(`desc) && unchanged(`kind) && unchanged(`name)
      && unchanged(`valuestring) && unchanged(`mantissa) && unchanged(`exponent)
      && forall o :: o in desc ==> unchanged(o)
    }

    /** What an item denotes does not depend on its own links, nor on items outside it. */
    twostate lemma Survives(new v: Json)
      requires old(Denotes(v)) && Untouched()
      ensures Denotes(v)
    {
    }

    /** Of the items below this one, only the links of the children have changed. */
    twostate predicate OnlyLinks()
      reads `desc, `kids, desc
    {
      && (forall o :: o in desc ==> old(allocated(o)))
      && (forall o :: o in desc && o !in kids ==> unchanged(o))
      && (forall o :: o in desc ==>
            && unchanged(o`child) && unchanged(o`kids) && unchanged(o`desc) && unchanged(o`kind) && unchanged(o`name)
            && unchanged(o`valuestring) && unchanged(o`mantissa) && unchanged(o`exponent))
    }

    /** After relinking, the children denote what they denoted before. */
    twostate lemma HoldsAgain(new vs: seq<Json>)
      requires Owned() && |vs| == |kids| && OnlyLinks() && Apart()
      requires forall i :: 0 <= i < |kids| ==> var k := kids[i]; old(allocated(k)) && old(k.Denotes(vs[i]))
      ensures Holds(vs)
    {
      forall i | 0 <= i < |kids|
        ensures kids[i].Denotes(vs[i])
      {
        var k := kids[i];
        assert k in desc && k.Span() <= desc;
        assert forall o :: o in k.desc ==> o in desc;
        k.Survives(vs[i]);
      }
    }

    /** The deep effect of inserting a child: the others keep their values, and the
        subtrees stay separate. */
    twostate lemma InsertedHolds(n: nat, new vs: seq<Json>, new w: Json)
      requires old(Holds(vs)) && n <= |old(kids)| && |kids| == |old(kids)| + 1
      requires var k := kids[n]; old(allocated(k)) && old(k.Denotes(w) && Fits(k)) && desc == old(desc) + k.Span()
      requires kids == old(kids)[..n] + [kids[n]] + old(kids)[n..] && Linked() && OnlyLinks()
      ensures Holds(vs[..n] + [w] + vs[n..])
    {
      hide *;
      OldChildren(vs);
      InsertedOwned(n, vs, w);
      var us := vs[..n] + [w] + vs[n..];
      forall i | 0 <= i < |kids|
        ensures var k := kids[i]; old(allocated(k)) && old(k.Denotes(us[i]))
      {
        InsertedAt(old(kids), n, kids[n], i);
        InsertedAt(vs, n, w, i);
      }
      HoldsAgain(us);
    }

    twostate lemma OldChildren(new vs: seq<Json>)
      requires old(Holds(vs))
      ensures |vs| == |old(kids)| && forall i :: 0 <= i < |vs| ==> var k := old(kids[i]); old(allocated(k)) && old(k.Denotes(vs[i]))
    {
      hide Denotes, Owned;
    }

    twostate lemma InsertedOwned(n: nat, new vs: seq<Json>, new w: Json)
      requires old(Holds(vs)) && n <= |old(kids)| && |kids| == |old(kids)| + 1
      requires var k := kids[n]; old(allocated(k)) && old(k.Denotes(w) && Fits(k)) && desc == old(desc) + k.Span()
      requires kids == old(kids)[..n] + [kids[n]] + old(kids)[n..] && Linked() && OnlyLinks()
      ensures Owned() && Apart()
    {
      NoDupInsert(old(kids), n, kids[n]);
      OldSeparate(vs);
      var c := kids[n];
      assert old(c !in c.desc);
      hide Linked, NoDup, Denotes, Holds, Owned;
      forall k | k in kids
        ensures k in desc && k.desc == old(k.desc) && k.Span() <= desc
      {
        assert k in old(kids) || k == c;
      }
      OwnedFrom();
    }

    twostate lemma RemovedHolds(n: nat, new vs: seq<Json>)
      requires old(Holds(vs)) && n < |old(kids)| && kids == old(kids)[..n] + old(kids)[n + 1..]
      requires var c := old(kids[n]); desc == old(desc - c.Span()) && Linked() && OnlyLinks()
      ensures Holds(vs[..n] + vs[n + 1..])
    {
      var us := vs[..n] + vs[n + 1..];
      RemovedOwned(n, vs);
      hide Linked, Denotes, Separate, Apart, OnlyLinks;
      forall i | 0 <= i < |kids|
        ensures var k := kids[i]; old(allocated(k)) && old(k.Denotes(us[i]))
      {
        var ks := old(kids);
        assert i < n ==> kids[i] == ks[i] && us[i] == vs[i];
        assert i >= n ==> kids[i] == ks[i + 1] && us[i] == vs[i + 1];
      }
      HoldsAgain(us);
    }

    twostate lemma RemovedOwned(n: nat, new vs: seq<Json>)
      requires old(Holds(vs)) && n < |old(kids)| && kids == old(kids)[..n] + old(kids)[n + 1..]
      requires var c := old(kids[n]); desc == old(desc - c.Span()) && Linked() && OnlyLinks()
      ensures Owned() && Apart()
    {
      NoDupRemove(old(kids), n);
      OldSeparate(vs);
      hide Linked, NoDup, Denotes, Holds, Owned;
      var c := old(kids[n]);
      forall k | k in kids
        ensures k in desc && k.desc == old(k.desc) && k.Span() <= desc
      {
        assert k in old(kids) && old(k.Span() !! c.Span());
      }
      OwnedFrom();
    }

    /** What the old children have to do with each other. */
    twostate lemma OldSeparate(new vs: seq<Json>)
      requires old(Holds(vs))
      ensures old(Separate()) && forall k :: k in old(kids) ==> old(k in desc && k !in k.desc && k.Span() <= desc)
    {
      forall k | k in old(kids)
        ensures old(k !in k.desc && k in desc && k.Span() <= desc)
      {
        var i :| 0 <= i < |old(kids)| && old(kids)[i] == k;
        assert old(k.Denotes(vs[i]));
      }
    }

    lemma OwnedFrom()
      requires Linked() && this !in desc
      requires forall k :: k in kids ==> k in desc && k !in k.desc && k.Span() <= desc
      requires forall j, k :: j in kids && k in kids && j != k ==> j.Span() !! k.Span()
      ensures Owned() && Apart()
    {
      hide Linked;
    }

    twostate lemma ReplacedHolds(n: nat, new vs: seq<Json>, new w: Json)
      requires old(Holds(vs)) && n < |old(kids)| == |kids| && kids == old(kids)[n := kids[n]]
      requires var k := kids[n]; old(allocated(k)) && old(k.Denotes(w) && Fits(k))
      requires var c := old(kids[n]); desc == old(desc - c.Span()) + kids[n].Span() && Linked() && OnlyLinks()
      ensures Holds(vs[n := w])
    {
      ReplacedOwned(n, vs, w);
      hide Linked, Denotes, Separate, Apart, OnlyLinks, Fits;
      HoldsAgain(vs[n := w]);
    }

    twostate lemma ReplacedOwned(n: nat, new vs: seq<Json>, new w: Json)
      requires old(Holds(vs)) && n < |old(kids)| == |kids| && kids == old(kids)[n := kids[n]]
      requires var k := kids[n]; old(allocated(k)) && old(k.Denotes(w) && Fits(k))
      requires var c := old(kids[n]); desc == old(desc - c.Span()) + kids[n].Span() && Linked() && OnlyLinks()
      ensures Owned() && Apart()
    {
      NoDupReplace(old(kids), n, kids[n]);
      OldSeparate(vs);
      var c, d := old(kids[n]), kids[n];
      assert old(d !in d.desc);
      hide Linked, NoDup, Denotes, Holds, Owned;
      forall k | k in kids
        ensures k in desc && k.desc == old(k.desc) && k.Span() <= desc
      {
        assert (k in old(kids) && old(k.Span() !! c.Span())) || k == d;
      }
      OwnedFrom();
    }

    /** The same when the new last child was built in place, from items that did not
        belong to the tree. */
    twostate lemma GrownHolds(new vs: seq<Json>, new v: Json)
      requires old(Holds(vs)) && |kids| == |old(kids)| + 1 && kids == old(kids) + [kids[|old(kids)|]]
      requires var k := kids[|old(kids)|]; k.Denotes(v) && k.Span() !! old(Span()) && desc == old(desc) + k.Span()
      requires forall o :: o in old(desc) && o !in old(kids) ==> unchanged(o)
      requires forall o :: o in old(kids) ==>
                 && unchanged(o`child) && unchanged(o`kids) && unchanged(o`desc) && unchanged(o`kind) && unchanged(o`name)
                 && unchanged(o`valuestring) && unchanged(o`mantissa) && unchanged(o`exponent)
      requires Linked()
      ensures Holds(vs + [v])
    {
      hide Linked;
      var n := |old(kids)|;
      forall i | 0 <= i < n
        ensures kids[i].Denotes(vs[i])
      {
        assert kids[i] == old(kids)[i];
        old(kids)[i].Survives(vs[i]);
      }
    }

    lemma HoldsBasics(vs: seq<Json>)
      requires Holds(vs)
      ensures Linked() && NoDup(kids) && |vs| == |kids| && this !in desc && (forall k :: k in kids ==> k in desc)
    {
    }

    /** cJSON_AddItemToArray: appends, also to objects; a null item is ignored. */
    method AddItemToArray(item: Node?, ghost vs: seq<Json>, ghost w: Json)
      requires Holds(vs)
      requires item != null ==> item.next == null && item.prev == null && Fits(item) && item.Denotes(w)
      modifies `child, `kids, `desc, kids`next, (if item == null then {} else {item})`prev
      ensures item == null ==> kids == old(kids) && desc == old(desc) && Holds(vs)
      ensures item != null ==> kids == old(kids) + [item] && desc == old(desc) + item.Span() && Holds(vs + [w])
    {
      if item != null {
        Append(item, vs, w);
      }
    }

    method Append(item: Node, ghost vs: seq<Json>, ghost w: Json)
      requires Holds(vs) && item.next == null && item.prev == null && Fits(item) && item.Denotes(w)
      modifies `child, `kids, `desc, kids`next, item`prev
      ensures kids == old(kids) + [item] && desc == old(desc) + item.Span() && Holds(vs + [w])
    {
      hide Linked, Denotes, NoDup, Holds;
      HoldsBasics(vs);
      ghost var n := |kids|;
      NoDupInsert(kids, n, item);
      LinkLast(item);
      desc := desc + item.Span();
      assert kids == old(kids)[..n] + [item] + old(kids)[n..];
      InsertedHolds(n, vs, w);
      assert vs[..n] + [w] + vs[n..] == vs + [w];
    }

    /** cJSON_InsertItemInArray: in front of the item at the index, or behind them all. */
    method InsertItemInArray(which: int, newitem: Node, ghost vs: seq<Json>, ghost w: Json)
      requires Holds(vs) && Fits(newitem) && newitem.Denotes(w)
      requires Index(which) >= |kids| ==> newitem.next == null && newitem.prev == null
      modifies `child, `kids, `desc, kids`next, kids`prev, newitem`next, newitem`prev
      ensures var n := if Index(which) < |old(kids)| then Index(which) else |old(kids)|;
              kids == old(kids)[..n] + [newitem] + old(kids)[n..] && Holds(vs[..n] + [w] + vs[n..])
      ensures desc == old(desc) + newitem.Span()
    {
      hide Linked, Denotes, NoDup, Holds;
      HoldsBasics(vs);
      var c := GetArrayItem(which);
      if c == null {
        AddItemToArray(newitem, vs, w);
        assert vs[..|vs|] + [w] + vs[|vs|..] == vs + [w];
      } else {
        ghost var n := Index(which);
        NoDupInsert(kids, n, newitem);
        LinkBefore(c, newitem, n);
        desc := desc + newitem.Span();
        InsertedHolds(n, vs, w);
      }
    }

    /** cJSON_DetachItemFromArray: null when there is no such item; a detached item is
        fully unlinked and keeps its value. */
    method DetachItemFromArray(which: int, ghost vs: seq<Json>) returns (c: Node?)
      requires Holds(vs)
      modifies `child, `kids, `desc, kids`next, kids`prev
      ensures c == Elem(old(kids), Index(which))
      ensures c == null ==> kids == old(kids) && desc == old(desc) && Holds(vs)
      ensures c != null ==> var n := Index(which);
              && kids == old(kids)[..n] + old(kids)[n + 1..] && Holds(vs[..n] + vs[n + 1..])
              && c.next == null && c.prev == null && c.Denotes(vs[n]) && Fits(c) && desc == old(desc) - c.Span()
    {
      hide Linked, Denotes, NoDup, Holds;
      HoldsBasics(vs);
      c := GetArrayItem(which);
      if c == null {
        return;
      }
      HoldsApart(vs);
      ghost var n := Index(which);
      NoDupRemove(kids, n);
      assert c in kids && this !in c.desc && forall j :: j in kids ==> j !in c.desc;
      Unlink(c, n);
      desc := desc - c.Span();
      c.Survives(vs[n]);
      RemovedHolds(n, vs);
    }

    /** cJSON_ReplaceItemInArray: without effect when there is no such item. The source
        then deletes the old item, which is unlinked here. */
    method ReplaceItemInArray(which: int, newitem: Node, ghost vs: seq<Json>, ghost w: Json)
      requires Holds(vs) && Fits(newitem) && newitem.Denotes(w)
      modifies `child, `kids, `desc, kids`next, kids`prev, newitem`next, newitem`prev
      ensures Index(which) >= |old(kids)| ==> kids == old(kids) && desc == old(desc) && Holds(vs)
      ensures Index(which) < |old(kids)| ==> var n := Index(which);
              var c := old(kids)[n];
              && kids == old(kids)[n := newitem] && Holds(vs[n := w])
              && c.next == null && c.prev == null && desc == old(desc - kids[n].Span()) + newitem.Span()
    {
      hide Linked, Denotes, NoDup, Holds;
      HoldsBasics(vs);
      var c := GetArrayItem(which);
      if c == null {
        return;
      }
      ghost var n := Index(which);
      NoDupReplace(kids, n, newitem);
      ghost var rest, ks := desc - c.Span(), kids;
      Relink(c, newitem, n);
      desc := rest + newitem.Span();
      assert forall o :: o in desc && o !in kids ==> o !in ks;
      ReplacedHolds(n, vs, w);
    }
  }
}
