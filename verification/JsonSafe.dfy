/** The memory parse_string uses. Its first pass counts, and as many characters and one for the
    terminator are allocated; its second pass decodes into them. The second pass stays inside the
    allocation, whatever stands behind the literal, exactly when none of its escapes reaches past
    the end that the first pass found. */
module JsonSafe {
  import opened JsonValue
  import opened JsonGrammar
  import opened JsonParse

  predicate Ends(t: string, p: nat) {
    At(t, p) == QUOTE || At(t, p) == NUL
  }

  /** Where the first pass goes from a character that does not end the literal. */
  function RawNext(t: string, p: nat): nat {
    if At(t, p) == BACKSLASH then p + 2 else p + 1
  }

  /** What the first pass counts: an escape once, and each of its hexadecimal digits. */
  function RawLength(t: string, p: nat): nat
    decreases |t| - p
  {
    if Ends(t, p) then 0 else 1 + RawLength(t, RawNext(t, p))
  }

  /** Where the first pass ends. */
  function RawEnd(t: string, p: nat): (e: nat)
    ensures p <= e && Ends(t, e)
    decreases |t| - p
  {
    if Ends(t, p) then p else RawEnd(t, RawNext(t, p))
  }

  /** Where the second pass goes from such a character. */
  function Next(t: string, p: nat): (q: nat)
    ensures q > p
  {
    if At(t, p) == BACKSLASH then Unescape(t, p + 1).1 else p + 1
  }

  function Piece(t: string, p: nat): string {
    if At(t, p) == BACKSLASH then Unescape(t, p + 1).0 else [At(t, p)]
  }

  /** No character or escape that the second pass meets from p on reaches past e. */
  predicate Within(t: string, p: nat, e: nat)
    decreases |t| - p
  {
    p <= e && (Ends(t, p) || Within(t, Next(t, p), e))
  }

  lemma BodyUnfold(t: string, p: nat)
    ensures Ends(t, p) ==> StringBody(t, p) == ("", p)
    ensures !Ends(t, p) ==> p < |t| && var (s, end) := StringBody(t, Next(t, p)); StringBody(t, p) == (Piece(t, p) + s, end)
  {
    hide Unescape;
  }

  lemma {:induction false} WithinIsEnd(t: string, p: nat, e: nat)
    ensures Within(t, p, e) <==> StringBody(t, p).1 <= e
    decreases |t| - p
  {
    BodyUnfold(t, p);
    hide Next, StringBody;
    if !Ends(t, p) {
      WithinIsEnd(t, Next(t, p), e);
    }
  }

  // ----- the decoded text is no longer than the count -----

  lemma {:induction false} EncodedLength(uc: nat, len: nat, total: nat)
    requires 1 <= len <= total <= 4
    ensures |EncodeBytes(uc, len, total)| == len
  {
    hide FirstByteMark, Byte, EncodeByte;
    if len > 1 {
      EncodedLength(uc / 64, len - 1, total);
    }
  }

  lemma TranscodedLength(uc: nat)
    ensures |Transcode(uc)| == Utf8Length(uc) <= 4
  {
    EncodedLength(uc, Utf8Length(uc), Utf8Length(uc));
  }

  /** The four characters from p on are hexadecimal digits. */
  predicate HexAt(t: string, p: nat) {
    IsHex(At(t, p)) && IsHex(At(t, p + 1)) && IsHex(At(t, p + 2)) && IsHex(At(t, p + 3))
  }

  lemma HexAtIff(t: string, p: nat)
    ensures Hex4(t, p) != 0 ==> HexAt(t, p)
  {
  }

  /** A Unicode escape appends nothing, for six or twelve characters, or what digits alone spell. */
  predicate UnicodeShape(t: string, p: nat, out: string, q: nat) {
    || (out == "" && (q == p + 5 || q == p + 11))
    || (|out| <= 4 && q == p + 5 && HexAt(t, p + 1))
    || (|out| <= 4 && q == p + 11 && HexAt(t, p + 1) && At(t, p + 5) == BACKSLASH && HexAt(t, p + 7))
  }

  lemma UnescapeShape(t: string, p: nat)
    requires At(t, p) == 'u'
    ensures var (out, q) := Unescape(t, p); UnicodeShape(t, p, out, q)
  {
    hide *;
    HexAtIff(t, p + 1);
    HexAtIff(t, p + 7);
    TranscodedLength(Hex4(t, p + 1));
    TranscodedLength(PairCode(Hex4(t, p + 1), Hex4(t, p + 7)));
    CheckShape(t, p);
  }

  lemma CheckShape(t: string, p: nat)
    requires At(t, p) == 'u'
    requires Hex4(t, p + 1) != 0 ==> HexAt(t, p + 1) && |Transcode(Hex4(t, p + 1))| <= 4
    requires Hex4(t, p + 7) != 0 ==> HexAt(t, p + 7) && |Transcode(PairCode(Hex4(t, p + 1), Hex4(t, p + 7)))| <= 4
    ensures var (out, q) := Unescape(t, p); UnicodeShape(t, p, out, q)
  {
    hide At, Hex4, HexAt, Transcode, PairCode;
  }

  lemma RawDigits(t: string, p: nat)
    requires HexAt(t, p)
    ensures RawLength(t, p) == 4 + RawLength(t, p + 4) && RawEnd(t, p) == RawEnd(t, p + 4)
  {
    assert RawLength(t, p + 2) == 2 + RawLength(t, p + 4) && RawEnd(t, p + 2) == RawEnd(t, p + 4);
  }

  /** The first pass meets p itself, or steps over it and meets the position behind it. */
  predicate Meets(t: string, p: nat, e: nat, left: nat) {
    || (RawEnd(t, p) == e && RawLength(t, p) <= left)
    || (RawEnd(t, p + 1) == e && RawLength(t, p + 1) + 1 <= left)
  }

  /** Going on n characters from a position that it meets, it counts at least half of them. */
  lemma {:induction false} RawGoesOn(t: string, p: nat, n: nat)
    requires p + n <= RawEnd(t, p)
    ensures Meets(t, p + n, RawEnd(t, p), if n < 2 then RawLength(t, p) + 1 - n else RawLength(t, p) - 1)
    decreases n
  {
    if n > 0 {
      var q := RawNext(t, p);
      assert !Ends(t, p);
      if q <= p + n {
        RawGoesOn(t, q, p + n - q);
      }
    }
  }

  lemma {:induction false} BodyBound(t: string, p: nat, e: nat, left: nat)
    requires Within(t, p, e) && Meets(t, p, e, left)
    ensures |StringBody(t, p).0| <= left
    decreases |t| - p
  {
    BodyUnfold(t, p);
    if !Ends(t, p) {
      StepBound(t, p, e, left);
      hide Piece, Next, Meets, StringBody;
      BodyBound(t, Next(t, p), e, left - |Piece(t, p)|);
    }
  }

  /** The first pass takes a backslash with the character behind it. */
  lemma RawEscape(t: string, p: nat)
    requires At(t, p) == BACKSLASH
    ensures RawLength(t, p) == 1 + RawLength(t, p + 2) && RawEnd(t, p) == RawEnd(t, p + 2)
  {
  }

  lemma StepBound(t: string, p: nat, e: nat, left: nat)
    requires !Ends(t, p) && Next(t, p) <= e && Meets(t, p, e, left)
    ensures |Piece(t, p)| <= left && Meets(t, Next(t, p), e, left - |Piece(t, p)|)
  {
    if At(t, p) == BACKSLASH {
      EscapeBound(t, p, e, left);
    }
  }

  lemma EscapeBound(t: string, p: nat, e: nat, left: nat)
    requires At(t, p) == BACKSLASH && Meets(t, p, e, left)
    requires var (_, q) := Unescape(t, p + 1); q <= e
    ensures var (out, q) := Unescape(t, p + 1); |out| <= left && Meets(t, q, e, left - |out|)
  {
    var (out, q) := Unescape(t, p + 1);
    RawEscape(t, p);
    if At(t, p + 1) != 'u' {
      assert q == p + 2 && |out| == 1;
      hide Unescape, RawLength, RawEnd;
      if RawEnd(t, p) != e || RawLength(t, p) > left {
        RawGoesOn(t, p + 1, 1);
      }
    } else {
      UnescapeShape(t, p + 1);
      hide Unescape, RawLength, RawEnd, HexAt;
      if out == "" {
        RawGoesOn(t, p, q - p);
      } else {
        RawDigits(t, p + 2);
        if q == p + 12 {
          RawEscape(t, p + 6);
          RawDigits(t, p + 8);
        }
      }
    }
  }

  /** The decoded text and a terminator fit into one character more than the count. */
  lemma BodyFits(t: string, p: nat)
    requires Within(t, p, RawEnd(t, p))
    ensures |StringBody(t, p).0| <= RawLength(t, p)
  {
    BodyBound(t, p, RawEnd(t, p), RawLength(t, p));
  }

  // ----- and only then, whatever stands behind the literal -----

  /** The texts read alike up to e and at it. */
  ghost predicate SameUpTo(t: string, m: string, e: nat) {
    forall i | 0 <= i <= e :: At(t, i) == At(m, i)
  }

  lemma {:induction false} SameRaw(t: string, m: string, p: nat)
    requires SameUpTo(t, m, RawEnd(t, p))
    ensures RawLength(m, p) == RawLength(t, p) && RawEnd(m, p) == RawEnd(t, p)
    decreases |t| - p
  {
    assert At(t, p) == At(m, p);
    if !Ends(t, p) {
      SameRaw(t, m, RawNext(t, p));
    }
  }

  lemma SameHex(t: string, m: string, e: nat, p: nat)
    requires SameUpTo(t, m, e) && p + 4 <= e
    ensures Hex4(m, p) == Hex4(t, p)
  {
  }

  lemma SameUnescape(t: string, m: string, e: nat, p: nat)
    requires SameUpTo(t, m, e) && Ends(t, e)
    requires p <= e && Unescape(t, p).1 <= e
    ensures Unescape(m, p) == Unescape(t, p)
  {
    assert At(t, p) == At(m, p);
    if At(t, p) == 'u' {
      hide Hex4, Transcode, PairCode;
      SameHex(t, m, e, p + 1);
      if p + 11 <= e {
        SameHex(t, m, e, p + 7);
      }
    }
  }

  lemma {:induction false} SameWithin(t: string, m: string, p: nat, e: nat)
    requires SameUpTo(t, m, e) && Ends(t, e) && Within(t, p, e)
    ensures Within(m, p, e)
    decreases |t| - p
  {
    assert At(t, p) == At(m, p);
    if !Ends(t, p) {
      assert p < |t|;
      if At(t, p) == BACKSLASH {
        SameUnescape(t, m, e, p + 1);
      }
      hide Unescape, SameUpTo;
      SameWithin(t, m, Next(t, p), e);
    }
  }

  /** The text up to e, and n plain characters behind it. */
  ghost function Prolonged(t: string, e: nat, n: nat): (m: string)
    ensures |m| == e + 1 + n && SameUpTo(t, m, e) && forall i | e < i < |m| :: m[i] == 'x'
  {
    seq(e + 1 + n, i requires 0 <= i => if i <= e then At(t, i) else 'x')
  }

  lemma {:induction false} PlainTail(m: string, p: nat)
    requires p <= |m| && forall i | p <= i < |m| :: m[i] == 'x'
    ensures |StringBody(m, p).0| == |m| - p
    decreases |m| - p
  {
    if p < |m| {
      PlainTail(m, p + 1);
    }
  }

  lemma NextBound(t: string, p: nat)
    ensures p < Next(t, p) <= p + 12
  {
    if At(t, p) == BACKSLASH && At(t, p + 1) == 'u' {
      hide Unescape, HexAt;
      UnescapeShape(t, p + 1);
    }
  }

  lemma {:induction false} Overruns(m: string, p: nat, e: nat)
    requires p <= e && !Within(m, p, e) && e + 12 <= |m| && forall i | e < i < |m| :: m[i] == 'x'
    ensures |StringBody(m, p).0| >= |m| - (e + 12)
    decreases |m| - p
  {
    BodyUnfold(m, p);
    NextBound(m, p);
    var q := Next(m, p);
    hide Next, Piece, StringBody;
    if q <= e {
      Overruns(m, q, e);
    } else {
      PlainTail(m, q);
    }
  }

  lemma {:induction false} ProlongedOverruns(t: string, p: nat, e: nat) returns (m: string)
    requires e == RawEnd(t, p) && !Within(t, p, e)
    ensures SameUpTo(t, m, e) && |StringBody(m, p).0| > RawLength(m, p)
  {
    hide Within, RawEnd, RawLength, StringBody;
    m := Prolonged(t, e, RawLength(t, p) + 12);
    if Within(m, p, e) {
      SameWithin(m, t, p, e);
    }
    SameRaw(t, m, p);
    Overruns(m, p, e);
  }

  /** The second pass fits into what the first allocates, for every memory that reads the same up to
      the end of the literal, if and only if no escape reaches past that end. */
  lemma FitsIff(t: string, p: nat)
    ensures Within(t, p, RawEnd(t, p))
            <==> forall m | SameUpTo(t, m, RawEnd(t, p)) :: |StringBody(m, p).0| <= RawLength(m, p)
  {
    hide Within, RawEnd, RawLength, StringBody;
    var e := RawEnd(t, p);
    if Within(t, p, e) {
      forall m | SameUpTo(t, m, e)
        ensures |StringBody(m, p).0| <= RawLength(m, p)
      {
        SameRaw(t, m, p);
        SameWithin(t, m, p, e);
        BodyFits(m, p);
      }
    } else {
      var m := ProlongedOverruns(t, p, e);
    }
  }

  /** An escape that jumps over the closing quote: three characters with the terminator, for the two
      that are allocated. */
  lemma Overflow()
    ensures var t := "\"\\u\"xxxyz";
            RawLength(t, 1) == 1 && StringBody(t, 1) == ("yz", |t|) && !Within(t, 1, RawEnd(t, 1))
  {
    var t := "\"\\u\"xxxyz";
    assert Unescape(t, 2) == ("", 7);
    assert StringBody(t, 9) == ("", 9);
    assert ['z'] + "" == "z" && ['y'] + "z" == "yz" && "" + "yz" == "yz";
    BodyUnfold(t, 8);
    BodyUnfold(t, 7);
    BodyUnfold(t, 1);
    assert RawLength(t, 3) == 0 && RawEnd(t, 3) == 3;
  }

  // ----- every string that the parser reaches -----

  /** Both passes stay inside the text and the second inside its allocation. */
  predicate StringSafe(t: string, p: nat) {
    At(t, p) == QUOTE ==> RawEnd(t, p + 1) <= |t| && Within(t, p + 1, RawEnd(t, p + 1))
  }

  predicate ValueSafe(t: string, p: nat)
    decreases |t| - p, 2
  {
    if StartsWith(t, p, "null") || StartsWith(t, p, "false") || StartsWith(t, p, "true") then true
    else if At(t, p) == QUOTE then StringSafe(t, p)
    else if At(t, p) == '[' then ArraySafe(t, p)
    else if At(t, p) == '{' then ObjectSafe(t, p)
    else true
  }

  predicate ArraySafe(t: string, p: nat)
    requires At(t, p) == '['
    decreases |t| - p, 0
  {
    var q := Skip(t, p + 1);
    At(t, q) == ']' || ItemsSafe(t, q)
  }

  predicate ItemsSafe(t: string, p: nat)
    decreases |t| - p, 3
  {
    var s := Skip(t, p);
    && ValueSafe(t, s)
    && var v := ParseValue(t, s);
       v.Ok? ==> var q := Skip(t, v.end); At(t, q) == ',' ==> ItemsSafe(t, q + 1)
  }

  predicate ObjectSafe(t: string, p: nat)
    requires At(t, p) == '{'
    decreases |t| - p, 0
  {
    var q := Skip(t, p + 1);
    At(t, q) == '}' || MembersSafe(t, q)
  }

  predicate MemberSafe(t: string, p: nat)
    decreases |t| - p, 3
  {
    var s := Skip(t, p);
    && StringSafe(t, s)
    && var name := ParseString(t, s);
       name.Ok? ==> var q := Skip(t, name.end); At(t, q) == ':' ==> ValueSafe(t, Skip(t, q + 1))
  }

  predicate MembersSafe(t: string, p: nat)
    decreases |t| - p, 4
  {
    && MemberSafe(t, p)
    && var m := ParseMember(t, p);
       m.Ok? && At(t, m.end) == ',' ==> MembersSafe(t, m.end + 1)
  }

  predicate TextSafe(t: string) {
    ValueSafe(t, Skip(t, 0))
  }

  // ----- one look at the text is enough -----

  predicate PlainAt(t: string, p: nat) {
    At(t, p) != QUOTE && At(t, p) != BACKSLASH && At(t, p) != NUL
  }

  /** A backslash is not the last character, and one with a `u` has four plain characters behind it. */
  predicate EscapeWhole(t: string, p: nat) {
    At(t, p) == BACKSLASH ==>
      && p + 1 < |t|
      && (At(t, p + 1) == 'u' ==> PlainAt(t, p + 2) && PlainAt(t, p + 3) && PlainAt(t, p + 4) && PlainAt(t, p + 5))
  }

  predicate EscapesWhole(t: string) {
    forall p | 0 <= p < |t| :: EscapeWhole(t, p)
  }

  lemma RawPlain(t: string, p: nat)
    requires PlainAt(t, p) && PlainAt(t, p + 1) && PlainAt(t, p + 2) && PlainAt(t, p + 3)
    ensures RawEnd(t, p) == RawEnd(t, p + 4)
  {
    assert RawEnd(t, p) == RawEnd(t, p + 2);
  }

  /** Both passes step alike, except that the first takes several steps in a Unicode escape. */
  lemma NextMeets(t: string, p: nat)
    requires EscapesWhole(t) && !Ends(t, p)
    ensures RawEnd(t, Next(t, p)) == RawEnd(t, p) && (p <= |t| ==> RawNext(t, p) <= |t|)
  {
    assert EscapeWhole(t, p);
    if At(t, p) == BACKSLASH && At(t, p + 1) == 'u' {
      RawEscape(t, p);
      RawPlain(t, p + 2);
      UnicodeSteps(t, p + 1);
      hide Unescape, RawEnd;
      if Next(t, p) == p + 12 {
        assert EscapeWhole(t, p + 6);
        RawEscape(t, p + 6);
        RawPlain(t, p + 8);
      }
    }
  }

  lemma UnicodeSteps(t: string, p: nat)
    requires At(t, p) == 'u'
    ensures var q := Unescape(t, p).1;
            q == p + 5 || (q == p + 11 && At(t, p + 5) == BACKSLASH && At(t, p + 6) == 'u')
  {
    hide Hex4, Transcode, PairCode;
  }

  lemma {:induction false} PassesMeet(t: string, p: nat)
    requires EscapesWhole(t)
    ensures Within(t, p, RawEnd(t, p))
    decreases |t| - p
  {
    if !Ends(t, p) {
      NextMeets(t, p);
      hide Next, RawEnd;
      PassesMeet(t, Next(t, p));
    }
  }

  lemma {:induction false} RawInside(t: string, p: nat)
    requires EscapesWhole(t) && p <= |t|
    ensures RawEnd(t, p) <= |t|
    decreases |t| - p
  {
    if !Ends(t, p) {
      NextMeets(t, p);
      RawInside(t, RawNext(t, p));
    }
  }

  lemma WholeString(t: string, p: nat)
    requires EscapesWhole(t)
    ensures StringSafe(t, p)
  {
    hide EscapesWhole;
    if At(t, p) == QUOTE {
      PassesMeet(t, p + 1);
      RawInside(t, p + 1);
    }
  }

  /** A text whose escapes are whole is safe, wherever its values begin. */
  lemma {:induction false} WholeValue(t: string, p: nat)
    requires EscapesWhole(t)
    ensures ValueSafe(t, p)
    decreases |t| - p, 2
  {
    hide EscapesWhole, StringSafe, StartsWith;
    WholeString(t, p);
    if At(t, p) == '[' {
      WholeItems(t, Skip(t, p + 1));
    } else if At(t, p) == '{' {
      WholeMembers(t, Skip(t, p + 1));
    }
  }

  lemma {:induction false} WholeItems(t: string, p: nat)
    requires EscapesWhole(t)
    ensures ItemsSafe(t, p)
    decreases |t| - p, 3
  {
    hide EscapesWhole, ParseValue, ValueSafe;
    var s := Skip(t, p);
    WholeValue(t, s);
    var v := ParseValue(t, s);
    if v.Ok? && At(t, Skip(t, v.end)) == ',' {
      WholeItems(t, Skip(t, v.end) + 1);
    }
  }

  lemma {:induction false} WholeMember(t: string, p: nat)
    requires EscapesWhole(t)
    ensures MemberSafe(t, p)
    decreases |t| - p, 3
  {
    hide EscapesWhole, ParseString, ValueSafe, StringSafe;
    var s := Skip(t, p);
    WholeString(t, s);
    var name := ParseString(t, s);
    if name.Ok? && At(t, Skip(t, name.end)) == ':' {
      WholeValue(t, Skip(t, Skip(t, name.end) + 1));
    }
  }

  lemma {:induction false} WholeMembers(t: string, p: nat)
    requires EscapesWhole(t)
    ensures MembersSafe(t, p)
    decreases |t| - p, 4
  {
    hide EscapesWhole, ParseMember, MemberSafe;
    WholeMember(t, p);
    var m := ParseMember(t, p);
    if m.Ok? && At(t, m.end) == ',' {
      WholeMembers(t, m.end + 1);
    }
  }
}
