/** cJSON_Minify: the in-place minifier, the text it computes, and its effect on
    RFC 8259 texts. */
module JsonMinify {
  import opened JsonValue
  import opened JsonGrammar
  import opened JsonParse
  import opened JsonComplete
  import opened JsonRoundTrip

  // ----- the text it computes -----

  function LineEnd(t: string, p: nat): (q: nat)
    ensures p <= q && (At(t, q) == NUL || At(t, q) == '\n')
    decreases |t| - p
  {
    if At(t, p) == NUL || At(t, p) == '\n' then p else LineEnd(t, p + 1)
  }

  /** The next comment terminator, or the end of the text. */
  function CommentEnd(t: string, p: nat): (q: nat)
    ensures p <= q && (At(t, q) == NUL || (At(t, q) == '*' && At(t, q + 1) == '/'))
    decreases |t| - p
  {
    if At(t, p) == NUL || (At(t, p) == '*' && At(t, p + 1) == '/') then p else CommentEnd(t, p + 1)
  }

  /** The closing quote of a literal whose body continues at `p`, or the end of the text. */
  function LiteralEnd(t: string, p: nat): (q: nat)
    ensures p <= q && (At(t, q) == NUL || At(t, q) == QUOTE)
    decreases |t| - p
  {
    if At(t, p) == NUL || At(t, p) == QUOTE then p
    else if At(t, p) == BACKSLASH then LiteralEnd(t, p + 2)
    else LiteralEnd(t, p + 1)
  }

  predicate AtLineComment(t: string, p: nat) {
    At(t, p) == '/' && At(t, p + 1) == '/'
  }

  predicate AtBlockComment(t: string, p: nat) {
    At(t, p) == '/' && At(t, p + 1) == '*'
  }

  function Minified(t: string, p: nat): string
    decreases |t| - p
  {
    if At(t, p) == NUL then ""
    else if IsBlank(At(t, p)) then Minified(t, p + 1)
    else if AtLineComment(t, p) then Minified(t, LineEnd(t, p + 1))
    else if AtBlockComment(t, p) then Minified(t, CommentEnd(t, p + 1) + 2)
    else if At(t, p) == QUOTE then
      var end := LiteralEnd(t, p + 1) + 1;
      if end <= |t| then t[p..end] + Minified(t, end) else t[p..]
    else [At(t, p)] + Minified(t, p + 1)
  }

  /** Every literal and block comment met from `p` on is closed; otherwise the source
      runs past the terminator. */
  predicate Closes(t: string, p: nat)
    decreases |t| - p
  {
    if At(t, p) == NUL then true
    else if IsBlank(At(t, p)) then Closes(t, p + 1)
    else if AtLineComment(t, p) then Closes(t, LineEnd(t, p + 1))
    else if AtBlockComment(t, p) then
      At(t, CommentEnd(t, p + 1)) != NUL && Closes(t, CommentEnd(t, p + 1) + 2)
    else if At(t, p) == QUOTE then
      At(t, LiteralEnd(t, p + 1)) == QUOTE && Closes(t, LiteralEnd(t, p + 1) + 1)
    else Closes(t, p + 1)
  }

  // ----- the in-place algorithm -----

  /** `buf` holds the C string `t`. */
  ghost predicate HoldsCString(buf: array<char>, t: string)
    reads buf
  {
    |t| < buf.Length && buf[..|t|] == t && buf[|t|] == NUL && NulFree(t)
  }

  /** The unread part of the buffer is the text from `p` on. */
  ghost predicate Unread(buf: array<char>, t: string, p: nat)
    reads buf
  {
    p <= |t| < buf.Length && forall k :: p <= k <= |t| ==> buf[k] == At(t, k)
  }

  method SkipLine(buf: array<char>, ghost t: string, p: nat) returns (q: nat)
    requires NulFree(t) && Unread(buf, t, p)
    ensures q == LineEnd(t, p) && Unread(buf, t, q)
  {
    q := p;
    while buf[q] != NUL && buf[q] != '\n'
      invariant Unread(buf, t, q) && LineEnd(t, q) == LineEnd(t, p)
      decreases |t| - q
    {
      q := q + 1;
    }
  }

  method SkipBlock(buf: array<char>, ghost t: string, p: nat) returns (q: nat)
    requires NulFree(t) && Unread(buf, t, p) && CommentEnd(t, p) + 2 <= |t|
    ensures q == CommentEnd(t, p) + 2 && Unread(buf, t, q)
  {
    q := p;
    while buf[q] != NUL && !(buf[q] == '*' && buf[q + 1] == '/')
      invariant Unread(buf, t, q) && CommentEnd(t, q) == CommentEnd(t, p)
      decreases |t| - q
    {
      q := q + 1;
    }
    q := q + 2;
  }

  /** The characters read from `p` up to `q` now stand at `to`, in front of the unread text. */
  ghost predicate Moved(buf: array<char>, t: string, p: nat, q: nat, to: nat)
    reads buf
  {
    to <= p <= q && Unread(buf, t, q) && buf[to..to + (q - p)] == t[p..q]
  }

  /** Nothing in front of `to` or behind the text has changed. */
  ghost predicate Untouched(buf: array<char>, init: seq<char>, t: string, to: nat)
    reads buf
  {
    to <= |t| < |init| == buf.Length && buf[..to] == init[..to] && buf[|t| + 1..] == init[|t| + 1..]
  }

  lemma MovedText(buf: array<char>, t: string, p: nat, q: nat, to: nat, init: seq<char>)
    requires Moved(buf, t, p, q, to) && Untouched(buf, init, t, to)
    ensures buf[..to + (q - p)] == init[..to] + t[p..q]
  {
    assert buf[..to + (q - p)] == buf[..to] + buf[to..to + (q - p)];
  }

  /** `*into++ = *json++` */
  method CopyChar(buf: array<char>, ghost t: string, q: nat, into: nat, ghost p: nat, ghost to: nat, ghost init: seq<char>)
    requires Moved(buf, t, p, q, to) && into == to + (q - p) && q < |t| && Untouched(buf, init, t, to)
    modifies buf
    ensures Moved(buf, t, p, q + 1, to) && Untouched(buf, init, t, to)
    ensures q + 1 < buf.Length && buf[q + 1] == At(t, q + 1)
  {
    ghost var had := buf[to..into];
    buf[into] := buf[q];
    assert buf[to..into + 1] == had + [t[q]];
  }

  /** Copies one character of a literal, or a backslash and the character after it. */
  method CopyUnit(buf: array<char>, ghost t: string, q: nat, into: nat, ghost p: nat, ghost to: nat, ghost init: seq<char>)
    returns (q': nat, into': nat)
    requires Moved(buf, t, p, q, to) && into == to + (q - p) && Untouched(buf, init, t, to)
    requires q < buf.Length && buf[q] == At(t, q) && buf[q] != QUOTE && At(t, LiteralEnd(t, q)) == QUOTE
    modifies buf
    ensures q < q' <= |t| < buf.Length && into' == to + (q' - p) && Moved(buf, t, p, q', to) && Untouched(buf, init, t, to)
    ensures buf[q'] == At(t, q') && LiteralEnd(t, q') == LiteralEnd(t, q)
  {
    hide *;
    LiteralStep(t, q);
    q', into' := q, into;
    if buf[q'] == BACKSLASH {
      CopyChar(buf, t, q', into', p, to, init);
      q', into' := q' + 1, into' + 1;
    }
    CopyChar(buf, t, q', into', p, to, init);
    q', into' := q' + 1, into' + 1;
  }

  lemma NothingMoved(buf: array<char>, t: string, p: nat, to: nat)
    requires Unread(buf, t, p) && to <= p && At(t, p) == QUOTE
    ensures Untouched(buf, buf[..], t, to) && Moved(buf, t, p, p, to) && p < |t| < buf.Length && buf[p] == QUOTE
  {
  }

  /** Copies a string literal down, escapes included. */
  method CopyLiteral(buf: array<char>, ghost t: string, p: nat, to: nat) returns (q: nat, into: nat)
    requires NulFree(t) && Unread(buf, t, p) && to <= p
    requires At(t, p) == QUOTE && At(t, LiteralEnd(t, p + 1)) == QUOTE
    modifies buf
    ensures q == LiteralEnd(t, p + 1) + 1 && into == to + (q - p)
    ensures Moved(buf, t, p, q, to) && Untouched(buf, old(buf[..]), t, to)
  {
    hide *;
    ghost var init := buf[..];
    NothingMoved(buf, t, p, to);
    CopyChar(buf, t, p, to, p, to, init);
    q, into := p + 1, to + 1;
    while buf[q] != NUL && buf[q] != QUOTE
      invariant p < q <= |t| < buf.Length && into == to + (q - p) && Moved(buf, t, p, q, to) && Untouched(buf, init, t, to)
      invariant buf[q] == At(t, q) && LiteralEnd(t, q) == LiteralEnd(t, p + 1)
      decreases |t| - q
    {
      q, into := CopyUnit(buf, t, q, into, p, to, init);
    }
    LiteralStep(t, q);
    CopyChar(buf, t, q, into, p, to, init);
    q, into := q + 1, into + 1;
  }

  /** In a closed literal a backslash is never the last character of the text. */
  lemma LiteralStep(t: string, p: nat)
    requires At(t, p) == QUOTE || At(t, LiteralEnd(t, p)) == QUOTE
    ensures At(t, p) == QUOTE ==> LiteralEnd(t, p) == p
    ensures At(t, p) == BACKSLASH ==> p + 2 <= |t| && LiteralEnd(t, p) == LiteralEnd(t, p + 2)
    ensures At(t, p) !in [QUOTE, BACKSLASH, NUL] ==> LiteralEnd(t, p) == LiteralEnd(t, p + 1)
    ensures At(t, p) != NUL && p < |t|
  {
  }

  /** One turn of the loop, over the text: what is written and where reading goes on. */
  function Turn(t: string, p: nat): (r: (string, nat))
    requires p < |t| && NulFree(t)
  {
    if IsBlank(t[p]) then ("", p + 1)
    else if AtLineComment(t, p) then ("", LineEnd(t, p))
    else if AtBlockComment(t, p) then ("", CommentEnd(t, p) + 2)
    else if t[p] == QUOTE then
      var end := LiteralEnd(t, p + 1) + 1;
      (if end <= |t| then t[p..end] else t[p..], end)
    else ([t[p]], p + 1)
  }

  lemma TurnCorrect(t: string, p: nat)
    requires p < |t| && NulFree(t) && Closes(t, p)
    ensures var (out, q) := Turn(t, p);
            && p < q <= |t| && |out| <= q - p && NulFree(out)
            && Minified(t, p) == out + Minified(t, q) && Closes(t, q)
  {
    assert AtLineComment(t, p) ==> LineEnd(t, p) == LineEnd(t, p + 1);
    assert AtBlockComment(t, p) ==> CommentEnd(t, p) == CommentEnd(t, p + 1);
    var (out, q) := Turn(t, p);
    if IsBlank(t[p]) || AtLineComment(t, p) || AtBlockComment(t, p) {
      assert "" + Minified(t, q) == Minified(t, q);
      LineEndInside(t, p);
    }
  }

  lemma {:induction false} LineEndInside(t: string, p: nat)
    requires p <= |t|
    ensures LineEnd(t, p) <= |t|
    decreases |t| - p
  {
    if p < |t| {
      LineEndInside(t, p + 1);
    }
  }

  // ----- when the walk stays inside the text -----

  /** The reading position after n turns from p; the loop ends at the terminator. */
  function Walk(t: string, p: nat, n: nat): nat
    requires NulFree(t)
    decreases n
  {
    if n == 0 || p >= |t| then p else Walk(t, Turn(t, p).1, n - 1)
  }

  lemma {:induction false} ClosedWalk(t: string, p: nat, n: nat)
    requires NulFree(t) && p <= |t| && Closes(t, p)
    ensures Walk(t, p, n) <= |t|
    decreases n
  {
    if n > 0 && p < |t| {
      TurnCorrect(t, p);
      hide Closes, Turn;
      ClosedWalk(t, Turn(t, p).1, n - 1);
    }
  }

  /** A turn that closes what it opens goes on inside the text; another goes past its terminator. */
  lemma OpenTurn(t: string, p: nat)
    requires NulFree(t) && p < |t| && !Closes(t, p)
    ensures var q := Turn(t, p).1; p < q && (q <= |t| ==> !Closes(t, q))
  {
    assert AtLineComment(t, p) ==> LineEnd(t, p) == LineEnd(t, p + 1);
    assert AtBlockComment(t, p) ==> CommentEnd(t, p) == CommentEnd(t, p + 1);
  }

  lemma {:induction false} OpenWalk(t: string, p: nat) returns (n: nat)
    requires NulFree(t) && p <= |t| && !Closes(t, p)
    ensures Walk(t, p, n) > |t|
    decreases |t| - p
  {
    MinifiedAtEnd(t, |t|);
    OpenTurn(t, p);
    var q := Turn(t, p).1;
    hide Closes, Turn;
    if q > |t| {
      n := 1;
    } else {
      n := OpenWalk(t, q);
      n := n + 1;
    }
  }

  /** Every turn ends in the text or at its terminator if and only if each string and block comment
      that is opened is closed. */
  lemma ClosesIff(t: string)
    requires NulFree(t)
    ensures Closes(t, 0) <==> forall n: nat :: Walk(t, 0, n) <= |t|
  {
    hide Closes, Walk;
    if Closes(t, 0) {
      forall n: nat
        ensures Walk(t, 0, n) <= |t|
      {
        ClosedWalk(t, 0, n);
      }
    } else {
      var n := OpenWalk(t, 0);
    }
  }

  /** A string and a comment that are not closed: the first turn goes past the terminator. */
  lemma NotClosed()
    ensures !Closes("\"a", 0) && Walk("\"a", 0, 1) == 3
    ensures !Closes("/*", 0) && Walk("/*", 0, 1) == 4
  {
    var t, u := "\"a", "/*";
    assert LiteralEnd(t, 2) == 2 && LiteralEnd(t, 1) == 2;
    assert CommentEnd(u, 2) == 2 && CommentEnd(u, 1) == 2 && CommentEnd(u, 0) == 2;
  }

  // ----- the pass -----

  /** The reading position never falls behind the writing one, so the pass may work in
      place; it leaves the minified text as a C string. */
  method Minify(buf: array<char>, ghost t: string)
    requires HoldsCString(buf, t) && Closes(t, 0)
    modifies buf
    ensures HoldsCString(buf, Minified(t, 0))
    ensures buf[|t| + 1..] == old(buf[|t| + 1..])
  {
    hide Minified, Closes, LiteralEnd, LineEnd, CommentEnd;
    var json: nat, into: nat := 0, 0;
    ghost var out := "";
    assert out + Minified(t, 0) == Minified(t, 0);
    while buf[json] != NUL
      invariant into <= json && Unread(buf, t, json) && Closes(t, json)
      invariant buf[..into] == out && NulFree(out)
      invariant out + Minified(t, json) == Minified(t, 0)
      invariant buf[|t| + 1..] == old(buf[|t| + 1..])
      decreases |t| - json
    {
      TurnCorrect(t, json);
      ghost var (w, q) := Turn(t, json);
      Append(out, w, Minified(t, q));
      if buf[json] == ' ' || buf[json] == '\t' || buf[json] == '\r' || buf[json] == '\n' {
        json := json + 1;
      } else if buf[json] == '/' && buf[json + 1] == '/' {
        json := SkipLine(buf, t, json);
      } else if buf[json] == '/' && buf[json + 1] == '*' {
        json := SkipBlock(buf, t, json);
      } else if buf[json] == QUOTE {
        ghost var start, p, init := into, json, buf[..];
        json, into := CopyLiteral(buf, t, json, into);
        MovedText(buf, t, p, json, start, init);
      } else {
        buf[into] := buf[json];
        into, json := into + 1, json + 1;
      }
      out := out + w;
      assert json == q;
    }
    buf[into] := NUL;
    assert Minified(t, json) == "" by {
      MinifiedAtEnd(t, json);
    }
    assert out + "" == out;
  }

  lemma MinifiedAtEnd(t: string, p: nat)
    requires At(t, p) == NUL
    ensures Minified(t, p) == "" && Closes(t, p)
  {
  }

  lemma Append(a: string, b: string, c: string)
    ensures a + (b + c) == (a + b) + c
  {
  }

  // ----- its effect on RFC 8259 texts -----

  /** The same value spelled the same way with no whitespace left. */
  function Squeeze(x: Syntax): Syntax
    decreases x, 0
  {
    match x
    case SArray(_, items) => SArray("", SqueezeItems(items))
    case SObject(_, members) => SObject("", SqueezeMembers(members))
    case _ => x
  }

  function SqueezeItems(items: seq<SItem>): (r: seq<SItem>)
    ensures |r| == |items|
    decreases items, 0
  {
    if items == [] then [] else [SItem("", Squeeze(items[0].v), "")] + SqueezeItems(items[1..])
  }

  function SqueezeMembers(members: seq<SMember>): (r: seq<SMember>)
    ensures |r| == |members|
    decreases members, 0
  {
    if members == [] then []
    else [SMember("", members[0].name, "", "", Squeeze(members[0].v), "")] + SqueezeMembers(members[1..])
  }

  /** From `p`, the minifier writes `out` and goes on at `q`. */
  predicate Writes(t: string, p: nat, out: string, q: nat) {
    Minified(t, p) == out + Minified(t, q) && (Closes(t, q) ==> Closes(t, p))
  }

  lemma Chain(t: string, p: nat, a: string, q: nat, b: string, r: nat)
    requires Writes(t, p, a, q) && Writes(t, q, b, r)
    ensures Writes(t, p, a + b, r)
  {
    assert a + (b + Minified(t, r)) == a + b + Minified(t, r);
  }

  lemma Chain3(t: string, p: nat, a: string, q: nat, b: string, r: nat, c: string, s: nat)
    requires Writes(t, p, a, q) && Writes(t, q, b, r) && Writes(t, r, c, s)
    ensures Writes(t, p, a + b + c, s)
  {
    hide Writes;
    Chain(t, p, a, q, b, r);
    Chain(t, p, a + b, r, c, s);
  }

  lemma WritesNothing(t: string, p: nat)
    ensures Writes(t, p, "", p)
  {
    assert "" + Minified(t, p) == Minified(t, p);
  }

  lemma DropsOne(t: string, p: nat)
    requires IsBlank(At(t, p))
    ensures Writes(t, p, "", p + 1)
  {
    assert "" + Minified(t, p + 1) == Minified(t, p + 1);
  }

  lemma {:induction false} DropsWs(t: string, p: nat, ws: string)
    requires IsWs(ws) && StartsWith(t, p, ws)
    ensures Writes(t, p, "", p + |ws|)
    decreases |ws|
  {
    hide StartsWith, Writes, At;
    if ws == "" {
      WritesNothing(t, p);
    } else {
      First(t, p, ws);
      Split(t, p, ws[..1], ws[1..]);
      assert ws == ws[..1] + ws[1..];
      DropsOne(t, p);
      DropsWs(t, p + 1, ws[1..]);
      Chain(t, p, "", p + 1, "", p + |ws|);
      assert "" + "" == "";
    }
  }

  /** Characters the minifier copies one by one. */
  predicate Plain(w: string) {
    forall i :: 0 <= i < |w| ==> w[i] > ' ' && w[i] != '/' && w[i] != QUOTE
  }

  lemma {:induction false} CopiesPlain(t: string, p: nat, w: string)
    requires Plain(w) && StartsWith(t, p, w)
    ensures Writes(t, p, w, p + |w|)
    decreases |w|
  {
    if w == "" {
      DropsWs(t, p, "");
    } else {
      First(t, p, w);
      Split(t, p, w[..1], w[1..]);
      assert w == w[..1] + w[1..];
      hide StartsWith, Writes, At;
      CopiesOne(t, p);
      CopiesPlain(t, p + 1, w[1..]);
      Chain(t, p, w[..1], p + 1, w[1..], p + |w|);
    }
  }

  lemma CommaIsPlain(more: bool)
    ensures Plain(Comma(more))
  {
  }

  lemma CopiesOne(t: string, p: nat)
    requires At(t, p) > ' ' && At(t, p) != '/' && At(t, p) != QUOTE
    ensures Writes(t, p, [At(t, p)], p + 1)
  {
  }

  lemma UnitInLiteral(t: string, p: nat, u: Unit)
    requires WfUnit(u) && StartsWith(t, p, UnitText(u))
    ensures LiteralEnd(t, p) == LiteralEnd(t, p + |UnitText(u)|)
  {
    hide StartsWith;
    First(t, p, UnitText(u));
    match u
    case Raw(_) =>
    case Short(_) =>
    case Hex(h) =>
      Split(t, p, "\\u", h);
      HexInLiteral(t, p + 2, h);
    case Surrogates(hi, lo) =>
      Split4(t, p, "\\u", hi, "\\u", lo);
      First(t, p + 6, "\\u");
      HexInLiteral(t, p + 2, hi);
      HexInLiteral(t, p + 8, lo);
  }

  lemma HexInLiteral(t: string, p: nat, h: string)
    requires IsHex4(h) && StartsWith(t, p, h)
    ensures LiteralEnd(t, p) == LiteralEnd(t, p + 4)
  {
    assert t[p] == h[0] && t[p + 1] == h[1] && t[p + 2] == h[2] && t[p + 3] == h[3];
    assert LiteralEnd(t, p + 2) == LiteralEnd(t, p + 4);
  }

  lemma {:induction false} UnitsInLiteral(t: string, p: nat, us: seq<Unit>)
    requires WfUnits(us) && StartsWith(t, p, UnitsText(us))
    ensures LiteralEnd(t, p) == LiteralEnd(t, p + |UnitsText(us)|)
    decreases |us|
  {
    hide StartsWith, LiteralEnd, WfUnit, UnitText;
    if us != [] {
      var w := UnitText(us[0]);
      Split(t, p, w, UnitsText(us[1..]));
      UnitInLiteral(t, p, us[0]);
      UnitsInLiteral(t, p + |w|, us[1..]);
    }
  }

  /** String contents are kept character by character, escapes and blanks included. */
  lemma CopiesLiteral(t: string, p: nat, us: seq<Unit>)
    requires WfUnits(us) && StartsWith(t, p, LiteralText(us))
    ensures Writes(t, p, LiteralText(us), p + |LiteralText(us)|)
  {
    hide *;
    LiteralShape(t, p, us);
    UnitsInLiteral(t, p + 1, us);
    LiteralStep(t, p + 1 + |UnitsText(us)|);
    WritesLiteral(t, p);
  }

  lemma LiteralShape(t: string, p: nat, us: seq<Unit>)
    requires StartsWith(t, p, LiteralText(us))
    ensures var w := LiteralText(us);
            && |w| == |UnitsText(us)| + 2 && p + |w| <= |t| && t[p..p + |w|] == w
            && At(t, p) == QUOTE && StartsWith(t, p + 1, UnitsText(us)) && At(t, p + 1 + |UnitsText(us)|) == QUOTE
  {
    var w := LiteralText(us);
    LiteralParts(t, p, us);
    hide UnitsText, LiteralText;
    assert t[p..p + |w|] == w;
  }

  lemma WritesLiteral(t: string, p: nat)
    requires At(t, p) == QUOTE && At(t, LiteralEnd(t, p + 1)) == QUOTE
    ensures var end := LiteralEnd(t, p + 1) + 1; p < end <= |t| && Writes(t, p, t[p..end], end)
  {
    hide LiteralEnd;
  }

  lemma PlainTexts(n: Numeral)
    requires WfNumeral(n)
    ensures Plain(NumeralText(n))
  {
    assert Plain(n.whole) && Plain(n.frac) && Plain(ExponentText(n.exponent));
  }

  /** A value's text, wherever it stands, is minified to its squeezed spelling. */
  lemma {:induction false} ValueMinified(t: string, p: nat, x: Syntax)
    requires Wf(x) && StartsWith(t, p, Text(x))
    ensures Writes(t, p, Text(Squeeze(x)), p + |Text(x)|)
    decreases x, 1
  {
    hide Writes, StartsWith, ItemsText, MembersText, SqueezeItems, SqueezeMembers;
    match x
    case SArray(gap, items) =>
      BracketsMinified(t, p, "[", gap, ItemsText(items), "]", ItemsText(SqueezeItems(items))) by {
        Split4(t, p, "[", gap, ItemsText(items), "]");
        ItemsMinified(t, p + 1 + |gap|, items);
      }
    case SObject(gap, members) =>
      BracketsMinified(t, p, "{", gap, MembersText(members), "}", MembersText(SqueezeMembers(members))) by {
        Split4(t, p, "{", gap, MembersText(members), "}");
        MembersMinified(t, p + 1 + |gap|, members);
      }
    case _ => LeafMinified(t, p, x);
  }

  lemma LeafMinified(t: string, p: nat, x: Syntax)
    requires Wf(x) && StartsWith(t, p, Text(x)) && !x.SArray? && !x.SObject?
    ensures Writes(t, p, Text(x), p + |Text(x)|)
  {
    hide Writes, StartsWith;
    match x
    case SString(us) => CopiesLiteral(t, p, us);
    case SNumber(n) =>
      PlainTexts(n);
      CopiesPlain(t, p, Text(x));
    case _ => CopiesPlain(t, p, Text(x));
  }

  lemma BracketsMinified(t: string, p: nat, open: string, gap: string, body: string, close: string, out: string)
    requires Plain(open) && Plain(close) && IsWs(gap) && StartsWith(t, p, open + gap + body + close)
    requires Writes(t, p + |open| + |gap|, out, p + |open| + |gap| + |body|)
    ensures Writes(t, p, open + "" + out + close, p + |open + gap + body + close|)
  {
    hide Writes, StartsWith;
    Split4(t, p, open, gap, body, close);
    CopiesPlain(t, p, open);
    DropsWs(t, p + |open|, gap);
    CopiesPlain(t, p + |open| + |gap| + |body|, close);
    Chain(t, p, open, p + |open|, "", p + |open| + |gap|);
    Chain(t, p, open + "", p + |open| + |gap|, out, p + |open| + |gap| + |body|);
    Chain(t, p, open + "" + out, p + |open| + |gap| + |body|, close, p + |open| + |gap| + |body| + |close|);
  }

  lemma {:induction false} ItemMinified(t: string, p: nat, i: SItem)
    requires WfItem(i) && StartsWith(t, p, ItemText(i))
    ensures Writes(t, p, ItemText(SItem("", Squeeze(i.v), "")), p + |ItemText(i)|)
    decreases i, 2
  {
    hide Writes, StartsWith, Text, Squeeze;
    ItemParts(t, p, i);
    var a := p + |i.before|;
    var b := a + |Text(i.v)|;
    DropsWs(t, p, i.before);
    ValueMinified(t, a, i.v);
    DropsWs(t, b, i.after);
    Chain(t, p, "", a, Text(Squeeze(i.v)), b);
    Chain(t, p, "" + Text(Squeeze(i.v)), b, "", b + |i.after|);
  }

  lemma ItemsShape(items: seq<SItem>)
    requires items != []
    ensures ItemsText(items) == ItemText(items[0]) + Comma(|items| > 1) + ItemsText(items[1..])
    ensures ItemsText(SqueezeItems(items))
            == ItemText(SItem("", Squeeze(items[0].v), "")) + Comma(|items| > 1) + ItemsText(SqueezeItems(items[1..]))
  {
    hide Text, Squeeze, ItemText;
    var l := SqueezeItems(items);
    assert l[1..] == SqueezeItems(items[1..]) && l[0] == SItem("", Squeeze(items[0].v), "");
  }

  lemma NoItemsMinified(t: string, p: nat)
    requires StartsWith(t, p, ItemsText([]))
    ensures Writes(t, p, ItemsText(SqueezeItems([])), p + |ItemsText([])|)
  {
    DropsWs(t, p, "");
  }

  lemma WfItemsUnfold(items: seq<SItem>)
    requires items != [] && WfItems(items)
    ensures WfItem(items[0]) && WfItems(items[1..])
  {
  }

  lemma {:induction false} ItemsMinified(t: string, p: nat, items: seq<SItem>)
    requires WfItems(items) && StartsWith(t, p, ItemsText(items))
    ensures Writes(t, p, ItemsText(SqueezeItems(items)), p + |ItemsText(items)|)
    decreases items, 0
  {
    hide *;
    if items == [] {
      NoItemsMinified(t, p);
    } else {
      ItemsShape(items);
      CommaIsPlain(|items| > 1);
      WfItemsUnfold(items);
      var comma, rest := Comma(|items| > 1), ItemsText(items[1..]);
      var w, w' := ItemText(items[0]), ItemText(SItem("", Squeeze(items[0].v), ""));
      Split3(t, p, w, comma, rest);
      ItemMinified(t, p, items[0]);
      CopiesPlain(t, p + |w|, comma);
      ItemsMinified(t, p + |w| + |comma|, items[1..]);
      Chain3(t, p, w', p + |w|, comma, p + |w| + |comma|, ItemsText(SqueezeItems(items[1..])), p + |w| + |comma| + |rest|);
    }
  }

  function SqueezeMember(m: SMember): SMember {
    SMember("", m.name, "", "", Squeeze(m.v), "")
  }

  lemma {:induction false} MemberMinified(t: string, p: nat, m: SMember)
    requires WfMember(m) && StartsWith(t, p, MemberText(m))
    ensures Writes(t, p, MemberText(SqueezeMember(m)), p + |MemberText(m)|)
    decreases m, 2
  {
    hide Writes, StartsWith, Text, Squeeze, LiteralText, Wf, WfUnits;
    MemberParts(t, p, m);
    var lit, v := LiteralText(m.name), Text(Squeeze(m.v));
    var a := p + |m.before|;
    var b := a + |lit|;
    var c := b + |m.mid|;
    var d := c + 1 + |m.gap|;
    var e := d + |Text(m.v)|;
    DropsWs(t, p, m.before);
    CopiesLiteral(t, a, m.name);
    Chain(t, p, "", a, lit, b);
    DropsWs(t, b, m.mid);
    Chain(t, p, "" + lit, b, "", c);
    CopiesColon(t, c);
    Chain(t, p, "" + lit + "", c, ":", c + 1);
    DropsWs(t, c + 1, m.gap);
    Chain(t, p, "" + lit + "" + ":", c + 1, "", d);
    ValueMinified(t, d, m.v);
    Chain(t, p, "" + lit + "" + ":" + "", d, v, e);
    DropsWs(t, e, m.after);
    Chain(t, p, "" + lit + "" + ":" + "" + v, e, "", e + |m.after|);
  }

  lemma CopiesColon(t: string, p: nat)
    requires At(t, p) == ':'
    ensures Writes(t, p, ":", p + 1)
  {
  }

  lemma MembersShape(members: seq<SMember>)
    requires members != []
    ensures MembersText(members) == MemberText(members[0]) + Comma(|members| > 1) + MembersText(members[1..])
    ensures MembersText(SqueezeMembers(members))
            == MemberText(SqueezeMember(members[0])) + Comma(|members| > 1) + MembersText(SqueezeMembers(members[1..]))
  {
    hide Text, Squeeze, MemberText;
    var l := SqueezeMembers(members);
    assert l[1..] == SqueezeMembers(members[1..]) && l[0] == SqueezeMember(members[0]);
  }

  lemma NoMembersMinified(t: string, p: nat)
    requires StartsWith(t, p, MembersText([]))
    ensures Writes(t, p, MembersText(SqueezeMembers([])), p + |MembersText([])|)
  {
    DropsWs(t, p, "");
  }

  lemma WfMembersUnfold(members: seq<SMember>)
    requires members != [] && WfMembers(members)
    ensures WfMember(members[0]) && WfMembers(members[1..])
  {
  }

  lemma {:induction false} MembersMinified(t: string, p: nat, members: seq<SMember>)
    requires WfMembers(members) && StartsWith(t, p, MembersText(members))
    ensures Writes(t, p, MembersText(SqueezeMembers(members)), p + |MembersText(members)|)
    decreases members, 0
  {
    hide *;
    if members == [] {
      NoMembersMinified(t, p);
    } else {
      MembersShape(members);
      CommaIsPlain(|members| > 1);
      WfMembersUnfold(members);
      var comma, rest := Comma(|members| > 1), MembersText(members[1..]);
      var w, w' := MemberText(members[0]), MemberText(SqueezeMember(members[0]));
      Split3(t, p, w, comma, rest);
      MemberMinified(t, p, members[0]);
      CopiesPlain(t, p + |w|, comma);
      MembersMinified(t, p + |w| + |comma|, members[1..]);
      Chain3(t, p, w', p + |w|, comma, p + |w| + |comma|, MembersText(SqueezeMembers(members[1..])), p + |w| + |comma| + |rest|);
    }
  }

  // ----- main results -----

  lemma {:induction false} SqueezeCorrect(x: Syntax)
    requires Wf(x)
    ensures Wf(Squeeze(x)) && Meaning(Squeeze(x)) == Meaning(x) && Read(Squeeze(x)) == Read(x)
    ensures Squeeze(Squeeze(x)) == Squeeze(x)
    decreases x, 1
  {
    match x
    case SArray(_, items) => SqueezeItemsCorrect(items);
    case SObject(_, members) => SqueezeMembersCorrect(members);
    case _ =>
  }

  lemma {:induction false} SqueezeItemsCorrect(items: seq<SItem>)
    requires WfItems(items)
    ensures var l := SqueezeItems(items);
            && WfItems(l) && ItemsMeaning(l) == ItemsMeaning(items) && ReadItems(l) == ReadItems(items)
            && SqueezeItems(l) == l
    decreases items, 0
  {
    if items != [] {
      hide Wf, Meaning, Read, Squeeze;
      var l := SqueezeItems(items);
      assert WfItem(items[0]);
      SqueezeCorrect(items[0].v);
      SqueezeItemsCorrect(items[1..]);
      assert l[0] == SItem("", Squeeze(items[0].v), "") && l[1..] == SqueezeItems(items[1..]);
      assert WfItem(l[0]);
    }
  }

  lemma {:induction false} SqueezeMembersCorrect(members: seq<SMember>)
    requires WfMembers(members)
    ensures var l := SqueezeMembers(members);
            && WfMembers(l) && MembersMeaning(l) == MembersMeaning(members) && ReadMembers(l) == ReadMembers(members)
            && SqueezeMembers(l) == l
    decreases members, 0
  {
    if members != [] {
      hide Wf, Meaning, Read, Squeeze;
      var l := SqueezeMembers(members);
      assert WfMember(members[0]);
      SqueezeCorrect(members[0].v);
      SqueezeMembersCorrect(members[1..]);
      assert l[0] == SqueezeMember(members[0]) && l[1..] == SqueezeMembers(members[1..]);
      assert WfMember(l[0]);
    }
  }

  /** Minifying any RFC 8259 text removes exactly the whitespace between its tokens, and
      the walk stays inside the text. */
  lemma MinifyText(x: Syntax, before: string, after: string)
    requires Wf(x) && IsWs(before) && IsWs(after)
    ensures var t := before + Text(x) + after;
            Closes(t, 0) && Minified(t, 0) == Text(Squeeze(x))
  {
    var t := before + Text(x) + after;
    assert StartsWith(t, 0, t);
    hide StartsWith, Text, Minified, Closes;
    var out := Text(Squeeze(x));
    WholeMinified(t, x, before, after);
    MinifiedAtEnd(t, |t|);
    assert out + "" == out;
  }

  lemma WholeMinified(t: string, x: Syntax, before: string, after: string)
    requires Wf(x) && IsWs(before) && IsWs(after) && StartsWith(t, 0, before + Text(x) + after)
    ensures Writes(t, 0, Text(Squeeze(x)), |before + Text(x) + after|)
  {
    hide Writes, StartsWith, Text, Squeeze;
    var out := Text(Squeeze(x));
    var a := |before|;
    var b := a + |Text(x)|;
    Split3(t, 0, before, Text(x), after);
    DropsWs(t, 0, before);
    ValueMinified(t, a, x);
    DropsWs(t, b, after);
    Chain(t, 0, "", a, out, b);
    Chain(t, 0, "" + out, b, "", b + |after|);
    assert "" + out + "" == out;
  }

  /** Minifying an RFC 8259 text changes neither what it denotes nor the value the parser reads from
      it, and a second pass changes nothing. */
  lemma MinifyPreservesMeaning(x: Syntax, before: string, after: string)
    requires Wf(x) && IsWs(before) && IsWs(after)
    ensures var t := before + Text(x) + after;
            var m := Minified(t, 0);
            && m == Text(Squeeze(x)) && Wf(Squeeze(x)) && Meaning(Squeeze(x)) == Meaning(x)
            && Parse(m, true) == Ok(Read(x), |m|)
            && Parse(t, true) == Ok(Read(x), |t|)
            && Minified(m, 0) == m
  {
    hide *;
    WsEmpty();
    var s := Squeeze(x);
    SqueezeCorrect(x);
    MinifyText(x, before, after);
    ParseComplete(x, before, after);
    MinifyText(s, "", "");
    ParseComplete(s, "", "");
    assert "" + Text(s) + "" == Text(s);
  }

  lemma {:induction false} SqueezeLayout(v: Json, depth: nat, d: nat)
    ensures Squeeze(Layout(v, depth, true)) == Layout(v, d, false)
    decreases v, 1
  {
    match v
    case Arr(items) => SqueezeLayoutItems(items, depth + 1, d + 1, true);
    case Obj(members) => SqueezeLayoutMembers(members, depth + 1, d + 1);
    case _ =>
  }

  lemma {:induction false} SqueezeLayoutItems(items: seq<Json>, depth: nat, d: nat, first: bool)
    ensures SqueezeItems(LayoutItems(items, depth, true, first)) == LayoutItems(items, d, false, first)
    decreases items, 0
  {
    if items != [] {
      hide Layout, Squeeze;
      SqueezeLayout(items[0], depth, d);
      SqueezeLayoutItems(items[1..], depth, d, false);
      assert LayoutItems(items, depth, true, first)[1..] == LayoutItems(items[1..], depth, true, false);
    }
  }

  lemma {:induction false} SqueezeLayoutMembers(members: seq<Member>, depth: nat, d: nat)
    ensures SqueezeMembers(LayoutMembers(members, depth, true)) == LayoutMembers(members, d, false)
    decreases members, 0
  {
    if members != [] {
      hide Layout, Squeeze;
      SqueezeLayout(members[0].value, depth, d);
      SqueezeLayoutMembers(members[1..], depth, d);
      assert LayoutMembers(members, depth, true)[1..] == LayoutMembers(members[1..], depth, true);
    }
  }

  /** Minifying the formatted print of a tree gives exactly its unformatted print. */
  lemma MinifyPrint(v: Json)
    requires Printable(v)
    ensures Closes(Print(v, 0, true), 0)
    ensures Minified(Print(v, 0, true), 0) == Print(v, 0, false)
  {
    var x := Layout(v, 0, true);
    PrintIsText(v, 0, true);
    PrintIsText(v, 0, false);
    LayoutCorrect(v, 0, true);
    SqueezeLayout(v, 0, 0);
    MinifyText(x, "", "");
    assert "" + Text(x) + "" == Text(x);
  }
}
