/** isTopicMatched of the MQTT client: two cursors over a topic filter and a topic name, and the
    level-by-level matching they amount to, against that of section 4.7.1 of MQTT 3.1.1. */
module TopicMatch {
  const SEPARATOR := '/'

  // ----- levels -----

  /** The levels of a topic or filter. */
  function Levels(s: string): (ls: seq<string>)
    ensures ls != []
  {
    if s == "" then [""]
    else
      var rest := Levels(s[1..]);
      if s[0] == SEPARATOR then [""] + rest else [[s[0]] + rest[0]] + rest[1..]
  }

  function Join(ls: seq<string>): string
    requires ls != []
  {
    if |ls| == 1 then ls[0] else ls[0] + [SEPARATOR] + Join(ls[1..])
  }

  predicate Plain(l: string) {
    SEPARATOR !in l
  }

  lemma {:induction false} JoinLevels(s: string)
    ensures Join(Levels(s)) == s && forall i | 0 <= i < |Levels(s)| :: Plain(Levels(s)[i])
  {
    if s != "" {
      JoinLevels(s[1..]);
      var rest := Levels(s[1..]);
      if s[0] == SEPARATOR {
        assert ([""] + rest)[1..] == rest;
        assert "" + [SEPARATOR] + Join(rest) == s;
      } else {
        var ls := [[s[0]] + rest[0]] + rest[1..];
        assert ls[1..] == rest[1..];
        if |rest| == 1 {
          assert [s[0]] + rest[0] == s;
        } else {
          assert [s[0]] + rest[0] + [SEPARATOR] + Join(rest[1..]) == [s[0]] + (rest[0] + [SEPARATOR] + Join(rest[1..]));
        }
      }
    }
  }

  /** Wildcards stand alone in their level, and `#` only in the last. */
  predicate WellFormed(fs: seq<string>) {
    forall i | 0 <= i < |fs| ::
      fs[i] == "+" || (fs[i] == "#" && i == |fs| - 1) || ('+' !in fs[i] && '#' !in fs[i])
  }

  /** Section 4.7.1 of MQTT 3.1.1: `+` matches one level, which may be empty, and a final `#` the
      parent and any number of levels below it; anything else matches itself. */
  predicate StandardMatch(fs: seq<string>, ts: seq<string>) {
    if fs == [] then ts == []
    else if fs[0] == "#" then true
    else ts != [] && (fs[0] == "+" || fs[0] == ts[0]) && StandardMatch(fs[1..], ts[1..])
  }

  /** What the code matches: either wildcard must begin on a character, so on a level that exists
      and is not empty. */
  predicate LevelsMatch(fs: seq<string>, ts: seq<string>) {
    if fs == [] then ts == []
    else if fs[0] == "#" then ts != [] && ts[0] != ""
    else ts != [] && (if fs[0] == "+" then ts[0] != "" else fs[0] == ts[0]) && LevelsMatch(fs[1..], ts[1..])
  }

  predicate Wildcard(l: string) {
    l == "+" || l == "#"
  }

  /** Some wildcard of the filter stands where the name has an empty level or none. */
  predicate WildcardOnNothing(fs: seq<string>, ts: seq<string>) {
    exists i :: 0 <= i < |fs| && Wildcard(fs[i]) && (i < |ts| ==> ts[i] == "")
  }

  // ----- the cursors as a function of what is left -----

  /** What is left of a name after its current level, from a first character that belongs to it. */
  function AfterLevel(t: string): string
    requires t != ""
  {
    if |t| == 1 || t[1] == SEPARATOR then t[1..] else AfterLevel(t[1..])
  }

  predicate Matched(f: string, t: string)
    decreases |f|
  {
    if f == "" || t == "" then f == "" && t == ""
    else if t[0] == SEPARATOR && f[0] != SEPARATOR then false
    else if f[0] != '+' && f[0] != '#' && f[0] != t[0] then false
    else if f[0] == '+' then Matched(f[1..], AfterLevel(t))
    else if f[0] == '#' then Matched(f[1..], "")
    else Matched(f[1..], t[1..])
  }

  /** The rest of a filter or name after a level: nothing, or a separator and more. */
  predicate AtBoundary(s: string) {
    s == "" || s[0] == SEPARATOR
  }

  lemma {:induction false} LiteralLevel(a: string, f: string, b: string, t: string)
    requires Plain(a) && '+' !in a && '#' !in a && Plain(b) && AtBoundary(f) && AtBoundary(t)
    ensures Matched(a + f, b + t) <==> a == b && Matched(f, t)
    decreases |a|
  {
    if a == "" || b == "" {
      assert "" + f == f && "" + t == t;
    } else {
      assert (a + f)[1..] == a[1..] + f && (b + t)[1..] == b[1..] + t;
      LiteralLevel(a[1..], f, b[1..], t);
      assert a == [a[0]] + a[1..] && b == [b[0]] + b[1..];
    }
  }

  lemma {:induction false} AfterPlain(b: string, t: string)
    requires b != "" && Plain(b) && AtBoundary(t)
    ensures AfterLevel(b + t) == t
  {
    assert (b + t)[1..] == b[1..] + t;
    if |b| == 1 {
      assert b[1..] + t == t;
    } else {
      AfterPlain(b[1..], t);
    }
  }

  lemma PlusLevel(f: string, b: string, t: string)
    requires b != "" && Plain(b) && AtBoundary(t)
    ensures Matched("+" + f, b + t) <==> Matched(f, t)
  {
    AfterPlain(b, t);
    assert ("+" + f)[1..] == f;
  }

  lemma HashLevel(b: string, t: string)
    requires Plain(b) && AtBoundary(t)
    ensures Matched("#", b + t) <==> b != ""
  {
    assert b == "" ==> b + t == t;
  }

  lemma PlusEmpty(f: string, t: string)
    requires AtBoundary(t)
    ensures !Matched("+" + f, "" + t)
  {
    assert "" + t == t;
  }

  function Tail(ls: seq<string>): string {
    if ls == [] then "" else [SEPARATOR] + Join(ls)
  }

  lemma TailOf(ls: seq<string>)
    requires ls != []
    ensures Join(ls) == ls[0] + Tail(ls[1..])
  {
    if |ls| == 1 {
      assert ls[0] + "" == ls[0];
    } else {
      var rest := Join(ls[1..]);
      assert ls[0] + [SEPARATOR] + rest == ls[0] + ([SEPARATOR] + rest);
    }
  }

  lemma {:induction false} MatchedIsLevels(fs: seq<string>, ts: seq<string>)
    requires fs != [] && ts != [] && WellFormed(fs)
    requires (forall i | 0 <= i < |fs| :: Plain(fs[i])) && forall i | 0 <= i < |ts| :: Plain(ts[i])
    ensures Matched(Join(fs), Join(ts)) <==> LevelsMatch(fs, ts)
    decreases |fs|, 0
  {
    hide Join;
    var f, t := Tail(fs[1..]), Tail(ts[1..]);
    TailOf(fs);
    TailOf(ts);
    if fs[0] == "#" {
      assert fs[1..] == [];
      HashLevel(ts[0], t);
      assert "#" + "" == "#";
    } else {
      if fs[0] == "+" && ts[0] == "" {
        PlusEmpty(f, t);
      } else if fs[0] == "+" {
        PlusLevel(f, ts[0], t);
      } else {
        LiteralLevel(fs[0], f, ts[0], t);
      }
      RestMatched(fs[1..], ts[1..]);
    }
  }

  lemma {:induction false} RestMatched(fs: seq<string>, ts: seq<string>)
    requires WellFormed(fs)
    requires (forall i | 0 <= i < |fs| :: Plain(fs[i])) && forall i | 0 <= i < |ts| :: Plain(ts[i])
    ensures Matched(Tail(fs), Tail(ts)) <==> LevelsMatch(fs, ts)
    decreases |fs|, 1
  {
    hide Join;
    if fs != [] && ts != [] {
      assert Tail(fs)[1..] == Join(fs) && Tail(ts)[1..] == Join(ts);
      MatchedIsLevels(fs, ts);
    }
  }

  /** For every well-formed filter and every name. */
  lemma MatchedIffLevels(filter: string, name: string)
    requires WellFormed(Levels(filter))
    ensures Matched(filter, name) <==> LevelsMatch(Levels(filter), Levels(name))
  {
    hide *;
    JoinLevels(filter);
    JoinLevels(name);
    MatchedIsLevels(Levels(filter), Levels(name));
  }

  // ----- the code against the standard -----

  lemma {:induction false} LevelsAgainstStandard(fs: seq<string>, ts: seq<string>)
    requires WellFormed(fs)
    ensures LevelsMatch(fs, ts) <==> StandardMatch(fs, ts) && !WildcardOnNothing(fs, ts)
  {
    if fs != [] {
      if fs[0] == "#" {
        assert |fs| == 1;
      } else if ts != [] {
        LevelsAgainstStandard(fs[1..], ts[1..]);
        NothingFrom(fs, ts);
      }
    }
  }

  lemma NothingFrom(fs: seq<string>, ts: seq<string>)
    requires fs != [] && ts != []
    ensures WildcardOnNothing(fs, ts) <==> (Wildcard(fs[0]) && ts[0] == "") || WildcardOnNothing(fs[1..], ts[1..])
  {
    hide Wildcard;
    var f, t := fs[1..], ts[1..];
    if WildcardOnNothing(f, t) {
      var i :| 0 <= i < |f| && Wildcard(f[i]) && (i < |t| ==> t[i] == "");
      assert fs[i + 1] == f[i] && (i + 1 < |ts| ==> ts[i + 1] == t[i]);
    }
    if WildcardOnNothing(fs, ts) {
      var i :| 0 <= i < |fs| && Wildcard(fs[i]) && (i < |ts| ==> ts[i] == "");
      assert i > 0 ==> f[i - 1] == fs[i] && (i < |ts| ==> t[i - 1] == ts[i]);
    }
  }

  /** The code matches no name the standard does not, and misses exactly those on which a wildcard
      stands on nothing. */
  lemma MatchedIffStandard(filter: string, name: string)
    requires WellFormed(Levels(filter))
    ensures Matched(filter, name)
            <==> StandardMatch(Levels(filter), Levels(name)) && !WildcardOnNothing(Levels(filter), Levels(name))
  {
    hide *;
    MatchedIffLevels(filter, name);
    LevelsAgainstStandard(Levels(filter), Levels(name));
  }

  predicate NoWildcard(fs: seq<string>) {
    forall i | 0 <= i < |fs| :: !Wildcard(fs[i])
  }

  /** A name that the standard matches with an empty level under every wildcard. */
  function Blanked(fs: seq<string>): (ts: seq<string>)
    ensures |ts| == |fs|
    ensures forall i | 0 <= i < |fs| :: ts[i] == if Wildcard(fs[i]) then "" else fs[i]
  {
    seq(|fs|, i requires 0 <= i < |fs| => if Wildcard(fs[i]) then "" else fs[i])
  }

  lemma {:induction false} BlankedMatches(fs: seq<string>, ts: seq<string>)
    requires |ts| == |fs| && forall i | 0 <= i < |fs| :: ts[i] == if Wildcard(fs[i]) then "" else fs[i]
    ensures StandardMatch(fs, ts)
  {
    if fs != [] && fs[0] != "#" {
      BlankedMatches(fs[1..], ts[1..]);
    }
  }

  lemma {:induction false} LevelsFront(l: string, s: string)
    requires Plain(l)
    ensures Levels(l + s) == [l + Levels(s)[0]] + Levels(s)[1..]
  {
    if l == "" {
      assert l + s == s && l + Levels(s)[0] == Levels(s)[0];
    } else {
      LevelsFront(l[1..], s);
      assert (l + s)[1..] == l[1..] + s;
      assert [l[0]] + (l[1..] + Levels(s)[0]) == l + Levels(s)[0];
    }
  }

  lemma {:induction false} LevelsJoin(ls: seq<string>)
    requires ls != [] && forall i | 0 <= i < |ls| :: Plain(ls[i])
    ensures Levels(Join(ls)) == ls
  {
    if |ls| == 1 {
      LevelsFront(ls[0], "");
      assert ls[0] + "" == ls[0] && Join(ls) == ls[0];
      assert Levels(ls[0]) == [ls[0]] + [];
    } else {
      var rest := Join(ls[1..]);
      LevelsJoin(ls[1..]);
      LevelsFront(ls[0], [SEPARATOR] + rest);
      assert ([SEPARATOR] + rest)[1..] == rest;
      assert Levels([SEPARATOR] + rest) == [""] + ls[1..];
      assert ls[0] + [SEPARATOR] + rest == ls[0] + ([SEPARATOR] + rest);
      assert ls[0] + "" == ls[0];
    }
  }

  /** Code and standard agree on every name exactly for the filters without a wildcard. */
  lemma AgreeIffNoWildcard(filter: string)
    requires WellFormed(Levels(filter))
    ensures (forall name :: Matched(filter, name) <==> StandardMatch(Levels(filter), Levels(name)))
            <==> NoWildcard(Levels(filter))
  {
    var fs := Levels(filter);
    if NoWildcard(fs) {
      forall name ensures Matched(filter, name) <==> StandardMatch(fs, Levels(name)) {
        MatchedIffStandard(filter, name);
      }
    } else {
      hide Join, Levels, StandardMatch, Matched;
      var ts := Blanked(fs);
      JoinLevels(filter);
      LevelsJoin(ts);
      BlankedMatches(fs, ts);
      MatchedIffStandard(filter, Join(ts));
      var i :| 0 <= i < |fs| && Wildcard(fs[i]);
      assert ts[i] == "";
    }
  }

  lemma Missed(fs: seq<string>, ts: seq<string>, i: nat)
    requires ts != [] && WellFormed(fs) && StandardMatch(fs, ts)
    requires i < |fs| && Wildcard(fs[i]) && (i < |ts| ==> ts[i] == "")
    requires (forall j | 0 <= j < |fs| :: Plain(fs[j])) && forall j | 0 <= j < |ts| :: Plain(ts[j])
    ensures StandardMatch(Levels(Join(fs)), Levels(Join(ts))) && !Matched(Join(fs), Join(ts))
  {
    hide Join, Levels, StandardMatch, Matched;
    LevelsJoin(fs);
    LevelsJoin(ts);
    MatchedIffStandard(Join(fs), Join(ts));
  }

  lemma Join2(a: string, b: string)
    ensures Join([a, b]) == a + [SEPARATOR] + b
  {
    assert [a, b][1..] == [b];
  }

  /** An empty level under `+`, the parent of a final `#`, and an empty level under `#`. */
  lemma NotMatched()
    ensures StandardMatch(Levels("+/a"), Levels("/a")) && !Matched("+/a", "/a")
    ensures StandardMatch(Levels("a/#"), Levels("a")) && !Matched("a/#", "a")
    ensures StandardMatch(Levels("#"), Levels("/a")) && !Matched("#", "/a")
    ensures StandardMatch(Levels("a/#"), Levels("a/")) && !Matched("a/#", "a/")
  {
    Join2("+", "a");
    Join2("", "a");
    Join2("a", "#");
    Join2("a", "");
    assert "+/a" == "+" + [SEPARATOR] + "a" && "a/#" == "a" + [SEPARATOR] + "#" && "/a" == "" + [SEPARATOR] + "a"
        && "a/" == "a" + [SEPARATOR] + "";
    assert ["+", "a"][1..] == ["", "a"][1..] == ["a"] && ["a"][1..] == [] && ["a", "#"][1..] == ["#"];
    hide Levels, Matched;
    Missed(["+", "a"], ["", "a"], 0);
    Missed(["a", "#"], ["a"], 1);
    Missed(["#"], ["", "a"], 0);
    Missed(["a", "#"], ["a", ""], 1);
  }

  // ----- the cursors -----

  /** The filter ends at its length, where C finds the terminator. */
  method IsTopicMatched(filter: string, name: string) returns (r: bool)
    ensures r == Matched(filter, name)
  {
    var curf: nat, curn: nat := 0, 0;
    assert filter[0..] == filter && name[0..] == name;
    while curf < |filter| && curn < |name|
      invariant curf <= |filter| && curn <= |name| && Matched(filter[curf..], name[curn..]) == Matched(filter, name)
      decreases |filter| - curf
    {
      if name[curn] == SEPARATOR && filter[curf] != SEPARATOR {
        break;
      }
      if filter[curf] != '+' && filter[curf] != '#' && filter[curf] != name[curn] {
        break;
      }
      if filter[curf] == '+' {
        var nextpos := curn + 1;
        ghost var rest := AfterLevel(name[curn..]);
        while nextpos < |name| && name[nextpos] != SEPARATOR
          invariant nextpos == curn + 1 && curn < |name| && AfterLevel(name[curn..]) == rest
        {
          assert name[curn..][1..] == name[curn + 1..];
          curn := curn + 1;
          nextpos := curn + 1;
        }
        assert rest == name[curn..][1..] == name[curn + 1..];
      } else if filter[curf] == '#' {
        curn := |name| - 1;
      }
      assert filter[curf..][1..] == filter[curf + 1..];
      curf := curf + 1;
      curn := curn + 1;
    }
    r := curn == |name| && curf == |filter|;
  }
}
