/** cJSON's parser accepts every RFC 8259 text and stays inside it. It returns the value that the text
    denotes exactly when no string has a `\u0000` or a lone half of a surrogate pair. */
module JsonComplete {
  import opened Bits
  import opened JsonValue
  import opened JsonGrammar
  import opened JsonParse
  import opened JsonSafe

  lemma Split(t: string, p: nat, a: string, b: string)
    ensures StartsWith(t, p, a + b) <==> StartsWith(t, p, a) && StartsWith(t, p + |a|, b)
  {
    var ab := a + b;
    assert forall i :: 0 <= i < |b| ==> b[i] == ab[|a| + i];
    assert forall i :: 0 <= i < |a| ==> a[i] == ab[i];
  }

  lemma Split3(t: string, p: nat, a: string, b: string, c: string)
    requires StartsWith(t, p, a + b + c)
    ensures StartsWith(t, p, a) && StartsWith(t, p + |a|, b) && StartsWith(t, p + |a| + |b|, c)
    ensures |a + b + c| == |a| + |b| + |c|
  {
    Split(t, p, a + b, c);
    Split(t, p, a, b);
  }

  lemma Split4(t: string, p: nat, a: string, b: string, c: string, d: string)
    requires StartsWith(t, p, a + b + c + d)
    ensures StartsWith(t, p, a) && StartsWith(t, p + |a|, b) && StartsWith(t, p + |a| + |b|, c)
    ensures StartsWith(t, p + |a| + |b| + |c|, d)
    ensures |a + b + c + d| == |a| + |b| + |c| + |d|
  {
    Split(t, p, a + b + c, d);
    Split3(t, p, a, b, c);
  }

  lemma First(t: string, p: nat, w: string)
    requires StartsWith(t, p, w) && w != ""
    ensures p < |t| && At(t, p) == t[p] == w[0]
    ensures |w| > 1 ==> At(t, p + 1) == w[1]
  {
    assert t[p + 0] == w[0];
  }

  // ----- whitespace -----

  lemma {:induction false} SkipWs(t: string, p: nat, ws: string)
    requires IsWs(ws) && StartsWith(t, p, ws)
    ensures Skip(t, p) == Skip(t, p + |ws|)
    decreases |ws|
  {
    if ws != "" {
      First(t, p, ws);
      Split(t, p, ws[..1], ws[1..]);
      assert ws == ws[..1] + ws[1..];
      SkipWs(t, p + 1, ws[1..]);
    }
  }

  /** Skipping whitespace in front of a visible character stops at that character. */
  lemma SkipTo(t: string, p: nat, ws: string)
    requires IsWs(ws) && StartsWith(t, p, ws) && At(t, p + |ws|) > ' '
    ensures Skip(t, p) == p + |ws|
  {
    SkipWs(t, p, ws);
  }

  // ----- strings -----

  lemma TranscodeIsUtf8(code: nat)
    requires code < 0x11_0000
    ensures Transcode(code) == Utf8(code)
  {
    hide EncodeBytes;
    var n := Utf8Length(code);
    var a, b, c := code / 64, code / 64 / 64, code / 64 / 64 / 64;
    if n == 1 {
      LeadByte(code, 1);
    } else {
      EncodeStep(code, n, n);
      if n == 2 {
        LeadByte(a, 2);
      } else {
        EncodeStep(a, n - 1, n);
        if n == 3 {
          LeadByte(b, 3);
        } else {
          EncodeStep(b, 2, 4);
          LeadByte(c, 4);
        }
      }
    }
  }

  lemma EncodeStep(uc: nat, len: nat, total: nat)
    requires 2 <= len <= total <= 4
    ensures EncodeBytes(uc, len, total) == EncodeBytes(uc / 64, len - 1, total) + [Continuation(uc)]
  {
    hide And, Or, FirstByteMark;
    ContinuationBits(uc);
  }

  /** Setting bit 7 and clearing bit 6 leaves the low six bits behind the mark. */
  lemma ContinuationBits(uc: nat)
    ensures And(Or(uc, 0x80), 0xBF) == 0x80 + uc % 64
  {
    hide And, Or;
    var a := uc / 2;
    var b := a / 2;
    var c := b / 2;
    var d := c / 2;
    var e := d / 2;
    var f := e / 2;
    OrAndStep(uc, 0x40, 0xBF);
    OrAndStep(a, 0x20, 0x5F);
    OrAndStep(b, 0x10, 0x2F);
    OrAndStep(c, 0x08, 0x17);
    OrAndStep(d, 0x04, 0x0B);
    OrAndStep(e, 0x02, 0x05);
    OrAndStep(f, 0x01, 0x02);
    OrOne(f / 2);
    LowPart(uc, uc % 2 + 2 * (a % 2 + 2 * (b % 2 + 2 * (c % 2 + 2 * (d % 2 + 2 * (e % 2))))), f);
  }

  lemma LowPart(x: nat, low: nat, high: nat)
    requires x == low + 64 * high && low < 64
    ensures x % 64 == low
  {
  }

  /** The leading byte is its mark plus the remaining bits of the code point. */
  lemma LeadByte(uc: nat, total: nat)
    requires 1 <= total <= 4
    requires uc < (if total == 1 then 0x80 else if total == 2 then 0x20 else if total == 3 then 0x10 else 0x08)
    ensures EncodeBytes(uc, 1, total) == [(FirstByteMark(total) + uc) as char]
  {
    hide Or;
    LeadBits(uc, total);
  }

  lemma LeadBits(uc: nat, total: nat)
    requires 1 <= total <= 4
    requires uc < (if total == 1 then 0x80 else if total == 2 then 0x20 else if total == 3 then 0x10 else 0x08)
    ensures Or(uc, FirstByteMark(total)) == FirstByteMark(total) + uc < 256
  {
    assert Pow2(3) == 8 && Pow2(4) == 16 && Pow2(5) == 32;
    hide Or, Pow2;
    if total == 1 {
      OrNothing(uc);
    } else if total == 2 {
      OrDisjoint(uc, 6, 5);
    } else if total == 3 {
      OrDisjoint(uc, 14, 4);
    } else {
      OrDisjoint(uc, 30, 3);
    }
  }

  lemma OrNothing(x: nat)
    ensures Or(x, 0) == x
  {
  }

  lemma HexAgrees(t: string, p: nat, h: string)
    requires IsHex4(h) && StartsWith(t, p, h)
    ensures Hex4(t, p) == CodeUnit(h)
  {
    assert t[p] == h[0] && t[p + 1] == h[1] && t[p + 2] == h[2] && t[p + 3] == h[3];
  }

  /** Escapes that the decoder does not append: `\u0000`, and halves of surrogate pairs. */
  predicate Dropped(u: Unit) {
    u.Hex? && IsHex4(u.h) && (CodeUnit(u.h) == 0 || 0xD800 <= CodeUnit(u.h) <= 0xDFFF)
  }

  function UnitKept(u: Unit): string
    requires WfUnit(u)
  {
    if Dropped(u) then "" else UnitMeaning(u)
  }

  /** A lone first half takes a Unicode escape behind it along. */
  predicate Swallows(us: seq<Unit>) {
    |us| > 1 && us[0].Hex? && IsHigh(us[0].h) && (us[1].Hex? || us[1].Surrogates?)
  }

  /** What the decoder makes of a literal. */
  function Kept(us: seq<Unit>): string
    requires WfUnits(us)
  {
    if us == [] then ""
    else if Swallows(us) then
      assert WfUnits(us[1..]);
      Kept(us[1..][1..])
    else UnitKept(us[0]) + Kept(us[1..])
  }

  lemma PairMeaning(hi: string, lo: string)
    requires IsHigh(hi) && IsLow(lo)
    ensures PairCode(CodeUnit(hi), CodeUnit(lo))
            == 0x1_0000 + (CodeUnit(hi) - 0xD800) * 0x400 + (CodeUnit(lo) - 0xDC00) < 0x11_0000
  {
    hide CodeUnit;
  }

  lemma UnescapeHex(t: string, p: nat, h: string)
    requires IsHex4(h) && !IsHigh(h) && StartsWith(t, p, "\\u" + h)
    ensures At(t, p) == BACKSLASH && Unescape(t, p + 1) == (UnitKept(Hex(h)), p + 6)
  {
    Split(t, p, "\\u", h);
    First(t, p, "\\u");
    HexAgrees(t, p + 2, h);
    hide Transcode, Utf8, CodeUnit, Hex4, StartsWith, PairCode;
    TranscodeIsUtf8(CodeUnit(h));
  }

  lemma UnescapePair(t: string, p: nat, uc: nat, uc2: nat)
    requires At(t, p) == 'u' && Hex4(t, p + 1) == uc && 0xD800 <= uc <= 0xDBFF
    requires At(t, p + 5) == BACKSLASH && At(t, p + 6) == 'u' && Hex4(t, p + 7) == uc2
    ensures Unescape(t, p) == (if 0xDC00 <= uc2 <= 0xDFFF then Transcode(PairCode(uc, uc2)) else "", p + 11)
  {
    hide Hex4, Transcode, PairCode, At;
  }

  /** A first half with a Unicode escape behind it. */
  lemma UnescapeTwo(t: string, p: nat, hi: string, h: string)
    requires IsHigh(hi) && IsHex4(h) && StartsWith(t, p, "\\u" + hi + "\\u" + h)
    ensures At(t, p) == BACKSLASH
    ensures Unescape(t, p + 1) == (if IsLow(h) then UnitMeaning(Surrogates(hi, h)) else "", p + 12)
  {
    Split4(t, p, "\\u", hi, "\\u", h);
    First(t, p, "\\u");
    First(t, p + 6, "\\u");
    HexAgrees(t, p + 2, hi);
    HexAgrees(t, p + 8, h);
    hide Transcode, Utf8, CodeUnit, Hex4, StartsWith, PairCode, Unescape, At;
    UnescapePair(t, p + 1, CodeUnit(hi), CodeUnit(h));
    if IsLow(h) {
      PairMeaning(hi, h);
      TranscodeIsUtf8(PairCode(CodeUnit(hi), CodeUnit(h)));
    }
  }

  /** A first half with anything else behind it. */
  lemma UnescapeLone(t: string, p: nat, hi: string)
    requires IsHigh(hi) && StartsWith(t, p, "\\u" + hi) && (At(t, p + 6) != BACKSLASH || At(t, p + 7) != 'u')
    ensures At(t, p) == BACKSLASH && Unescape(t, p + 1) == ("", p + 6)
  {
    Split(t, p, "\\u", hi);
    First(t, p, "\\u");
    HexAgrees(t, p + 2, hi);
    hide Transcode, CodeUnit, Hex4, StartsWith, PairCode;
  }

  lemma UnescapeShort(t: string, p: nat, c: char)
    requires WfUnit(Short(c)) && StartsWith(t, p, [BACKSLASH, c])
    ensures At(t, p) == BACKSLASH && Unescape(t, p + 1) == (UnitMeaning(Short(c)), p + 2)
  {
    First(t, p, [BACKSLASH, c]);
  }

  lemma RawStart(t: string, p: nat, c: char)
    requires WfUnit(Raw(c)) && StartsWith(t, p, [c])
    ensures At(t, p) == c && c !in [QUOTE, BACKSLASH, NUL]
  {
    First(t, p, [c]);
  }

  /** One unit that does not begin a swallowed pair. */
  lemma BodyStep(t: string, p: nat, u: Unit)
    requires WfUnit(u) && StartsWith(t, p, UnitText(u))
    requires u.Hex? && IsHigh(u.h) ==> At(t, p + 6) != BACKSLASH || At(t, p + 7) != 'u'
    ensures var (s, end) := StringBody(t, p + |UnitText(u)|);
            StringBody(t, p) == (UnitKept(u) + s, end)
  {
    BodyUnfold(t, p);
    UnitTextLength(u);
    hide StartsWith, Unescape, StringBody, IsHigh, IsHex4, Utf8;
    match u
    case Raw(c) => RawStart(t, p, c);
    case Short(c) => UnescapeShort(t, p, c);
    case Hex(h) =>
      if IsHigh(h) {
        UnescapeLone(t, p, h);
        HighDropped(h);
      } else {
        UnescapeHex(t, p, h);
      }
    case Surrogates(hi, lo) => UnescapeTwo(t, p, hi, lo);
  }

  lemma HighDropped(h: string)
    requires IsHigh(h)
    ensures WfUnit(Hex(h)) && UnitKept(Hex(h)) == ""
  {
  }

  lemma SkipDropped(t: string, p: nat, q: nat)
    requires At(t, p) == BACKSLASH && Unescape(t, p + 1) == ("", q)
    ensures StringBody(t, p) == StringBody(t, q)
  {
    hide Unescape;
    BodyUnfold(t, p);
    hide StringBody;
    assert "" + StringBody(t, q).0 == StringBody(t, q).0;
  }

  lemma LowDropped(t: string, p: nat, h: string)
    requires IsLow(h) && StartsWith(t, p, "\\u" + h)
    ensures StringBody(t, p) == StringBody(t, p + 6)
  {
    hide StringBody, StartsWith, Unescape, CodeUnit;
    UnescapeHex(t, p, h);
    SkipDropped(t, p, p + 6);
  }

  lemma TwoDropped(t: string, p: nat, hi: string, h: string)
    requires IsHigh(hi) && IsHex4(h) && !IsLow(h) && StartsWith(t, p, "\\u" + hi) && StartsWith(t, p + 6, "\\u" + h)
    ensures StringBody(t, p) == StringBody(t, p + 12)
  {
    hide StringBody, StartsWith, Unescape, CodeUnit;
    Split(t, p, "\\u" + hi, "\\u" + h);
    assert "\\u" + hi + ("\\u" + h) == "\\u" + hi + "\\u" + h;
    UnescapeTwo(t, p, hi, h);
    SkipDropped(t, p, p + 12);
  }

  lemma HalvesDiffer(h: string)
    ensures !(IsHigh(h) && IsLow(h))
  {
  }

  /** Both escapes of a swallowed pair are lost, and so is the second half of a pair that loses its
      first. */
  lemma SwallowStep(t: string, p: nat, u: Unit, v: Unit)
    requires WfUnit(u) && WfUnit(v) && Apart(u, v) && Swallows([u, v])
    requires StartsWith(t, p, UnitText(u)) && StartsWith(t, p + |UnitText(u)|, UnitText(v))
    ensures StringBody(t, p) == StringBody(t, p + |UnitText(u)| + |UnitText(v)|)
  {
    UnitTextLength(u);
    UnitTextLength(v);
    hide StartsWith, StringBody, CodeUnit, IsHex4;
    if v.Hex? {
      hide IsHigh, IsLow;
      TwoDropped(t, p, u.h, v.h);
    } else {
      HalvesDiffer(v.hi);
      hide IsHigh, IsLow;
      assert "\\u" + v.hi + "\\u" + v.lo == "\\u" + v.hi + ("\\u" + v.lo);
      Split(t, p + 6, "\\u" + v.hi, "\\u" + v.lo);
      TwoDropped(t, p, u.h, v.hi);
      LowDropped(t, p + 12, v.lo);
    }
  }

  /** What is behind a unit that is the first half of a pair and swallows nothing. */
  lemma NotSwallowed(t: string, p: nat, us: seq<Unit>)
    requires WfUnits(us) && us != [] && !Swallows(us) && us[0].Hex? && IsHigh(us[0].h)
    requires StartsWith(t, p + 6, UnitsText(us[1..])) && At(t, p + 6 + |UnitsText(us[1..])|) == QUOTE
    ensures At(t, p + 6) != BACKSLASH || At(t, p + 7) != 'u'
  {
    hide StartsWith, CodeUnit, IsHigh;
    if |us| > 1 {
      var w := UnitText(us[1]);
      Split(t, p + 6, w, UnitsText(us[1..][1..]));
      First(t, p + 6, w);
    }
  }

  lemma UnitsUnfold(us: seq<Unit>)
    requires us != [] && WfUnits(us)
    ensures WfUnit(us[0]) && WfUnits(us[1..]) && (|us| > 1 ==> Apart(us[0], us[1]))
    ensures UnitsText(us) == UnitText(us[0]) + UnitsText(us[1..])
  {
    hide WfUnit, UnitText, Apart;
  }

  lemma KeptUnfold(us: seq<Unit>)
    requires us != [] && WfUnits(us)
    ensures WfUnit(us[0]) && WfUnits(us[1..])
    ensures Swallows(us) ==> |us| > 1 && WfUnits(us[1..][1..]) && Kept(us) == Kept(us[1..][1..])
    ensures !Swallows(us) ==> Kept(us) == UnitKept(us[0]) + Kept(us[1..])
  {
    hide WfUnit, UnitKept, Apart, IsHigh;
  }

  lemma BodyEmpty(t: string, p: nat)
    requires At(t, p + |UnitsText([])|) == QUOTE
    ensures WfUnits([]) && UnitsText([]) == "" && StringBody(t, p) == (Kept([]), p)
  {
  }

  lemma {:induction false} BodyComplete(t: string, p: nat, us: seq<Unit>)
    requires WfUnits(us) && StartsWith(t, p, UnitsText(us)) && At(t, p + |UnitsText(us)|) == QUOTE
    ensures StringBody(t, p) == (Kept(us), p + |UnitsText(us)|)
    decreases |us|
  {
    hide *;
    if us == [] {
      BodyEmpty(t, p);
    } else {
      UnitsUnfold(us);
      KeptUnfold(us);
      var w := UnitText(us[0]);
      Split(t, p, w, UnitsText(us[1..]));
      if Swallows(us) {
        UnitsUnfold(us[1..]);
        var v := UnitText(us[1]);
        Split(t, p + |w|, v, UnitsText(us[1..][1..]));
        SwallowsTwo(us);
        SwallowStep(t, p, us[0], us[1]);
        BodyComplete(t, p + |w| + |v|, us[1..][1..]);
      } else {
        if us[0].Hex? && IsHigh(us[0].h) {
          UnitTextLength(us[0]);
          NotSwallowed(t, p, us);
        }
        BodyStep(t, p, us[0]);
        BodyComplete(t, p + |w|, us[1..]);
      }
    }
  }

  lemma SwallowsTwo(us: seq<Unit>)
    requires Swallows(us)
    ensures |us| > 1 && Swallows([us[0], us[1]])
  {
  }

  lemma UnitTextLength(u: Unit)
    requires WfUnit(u)
    ensures |UnitText(u)| == (match u case Raw(_) => 1 case Short(_) => 2 case Hex(_) => 6 case Surrogates(_, _) => 12)
  {
    hide CodeUnit;
  }

  // ----- the first pass over a literal -----

  lemma RawUnit(t: string, p: nat, u: Unit)
    requires WfUnit(u) && StartsWith(t, p, UnitText(u))
    ensures RawEnd(t, p) == RawEnd(t, p + |UnitText(u)|)
  {
    hide StartsWith;
    First(t, p, UnitText(u));
    match u
    case Raw(_) =>
    case Short(_) =>
    case Hex(h) =>
      Split(t, p, "\\u", h);
      DigitsAt(t, p + 2, h);
    case Surrogates(hi, lo) =>
      Split4(t, p, "\\u", hi, "\\u", lo);
      First(t, p + 6, "\\u");
      DigitsAt(t, p + 2, hi);
      DigitsAt(t, p + 8, lo);
  }

  lemma DigitsAt(t: string, p: nat, h: string)
    requires IsHex4(h) && StartsWith(t, p, h)
    ensures RawEnd(t, p) == RawEnd(t, p + 4)
  {
    assert t[p] == h[0] && t[p + 1] == h[1] && t[p + 2] == h[2] && t[p + 3] == h[3];
    RawDigits(t, p);
  }

  lemma {:induction false} RawUnits(t: string, p: nat, us: seq<Unit>)
    requires WfUnits(us) && StartsWith(t, p, UnitsText(us)) && At(t, p + |UnitsText(us)|) == QUOTE
    ensures RawEnd(t, p) == p + |UnitsText(us)|
    decreases |us|
  {
    hide StartsWith, UnitText, WfUnit;
    if us != [] {
      hide RawEnd;
      var w := UnitText(us[0]);
      Split(t, p, w, UnitsText(us[1..]));
      RawUnit(t, p, us[0]);
      RawUnits(t, p + |w|, us[1..]);
    }
  }

  lemma LiteralParts(t: string, p: nat, us: seq<Unit>)
    requires StartsWith(t, p, LiteralText(us))
    ensures var n := |UnitsText(us)|;
            && |LiteralText(us)| == n + 2 && p + n + 2 <= |t|
            && At(t, p) == QUOTE && StartsWith(t, p + 1, UnitsText(us)) && At(t, p + 1 + n) == QUOTE
  {
    Split3(t, p, [QUOTE], UnitsText(us), [QUOTE]);
    First(t, p, [QUOTE]);
    First(t, p + 1 + |UnitsText(us)|, [QUOTE]);
    hide UnitsText;
  }

  /** Every string literal is read without leaving the text or the allocation. */
  lemma LiteralComplete(t: string, p: nat, us: seq<Unit>)
    requires WfUnits(us) && StartsWith(t, p, LiteralText(us))
    ensures At(t, p) == QUOTE && StringSafe(t, p)
    ensures ParseString(t, p) == Ok(Kept(us), p + |LiteralText(us)|)
  {
    hide *;
    LiteralParts(t, p, us);
    BodyComplete(t, p + 1, us);
    RawUnits(t, p + 1, us);
    LiteralAssemble(t, p, Kept(us), p + 1 + |UnitsText(us)|);
  }

  lemma LiteralAssemble(t: string, p: nat, s: string, end: nat)
    requires At(t, p) == QUOTE && At(t, end) == QUOTE && StringBody(t, p + 1) == (s, end) && RawEnd(t, p + 1) == end
    ensures StringSafe(t, p) && ParseString(t, p) == Ok(s, end + 1)
  {
    hide StringBody, RawEnd, Within;
    WithinIsEnd(t, p + 1, end);
  }

  // ----- when a literal is read as what it denotes -----

  predicate NoneDropped(us: seq<Unit>) {
    us == [] || (!Dropped(us[0]) && NoneDropped(us[1..]))
  }

  lemma UnitNotEmpty(u: Unit)
    requires WfUnit(u)
    ensures |UnitMeaning(u)| > 0
  {
    hide CodeUnit;
  }

  lemma {:induction false} KeptLength(us: seq<Unit>)
    requires WfUnits(us)
    ensures if NoneDropped(us) then Kept(us) == UnitsMeaning(us) else |Kept(us)| < |UnitsMeaning(us)|
  {
    if us != [] {
      hide UnitMeaning, WfUnit, IsHex4, CodeUnit;
      UnitNotEmpty(us[0]);
      if Swallows(us) {
        UnitNotEmpty(us[1]);
        KeptLength(us[1..][1..]);
        HighIsDropped(us[0]);
      } else {
        KeptLength(us[1..]);
      }
    }
  }

  lemma HighIsDropped(u: Unit)
    requires u.Hex? && IsHigh(u.h)
    ensures Dropped(u)
  {
  }

  /** A literal is read as what it denotes if and only if it has no `\u0000` and no lone half of a
      surrogate pair. */
  lemma LiteralRight(t: string, p: nat, us: seq<Unit>)
    requires WfUnits(us) && StartsWith(t, p, LiteralText(us))
    ensures ParseString(t, p) == Ok(UnitsMeaning(us), p + |LiteralText(us)|) <==> NoneDropped(us)
  {
    hide *;
    LiteralComplete(t, p, us);
    KeptLength(us);
  }

  lemma UnitsOne(u: Unit)
    requires WfUnit(u)
    ensures WfUnits([u]) && UnitsText([u]) == UnitText(u) && UnitsMeaning([u]) == UnitMeaning(u)
    ensures Kept([u]) == UnitKept(u) && NoneDropped([u]) == !Dropped(u)
  {
    hide UnitText, UnitMeaning, WfUnit, Dropped, UnitKept;
    assert [u][1..] == [];
    assert UnitText(u) + "" == UnitText(u) && UnitMeaning(u) + "" == UnitMeaning(u) && UnitKept(u) + "" == UnitKept(u);
  }

  /** `"\u0000"` is read as the empty string. */
  lemma NulLost()
    ensures var us := [Hex("0000")];
            && WfUnits(us) && LiteralText(us) == "\"\\u0000\""
            && ParseString(LiteralText(us), 0) == Ok("", 8) && UnitsMeaning(us) == [NUL]
  {
    var u := Hex("0000");
    assert WfUnit(u) && UnitText(u) == "\\u0000" && UnitMeaning(u) == [NUL] && UnitKept(u) == "";
    var t := LiteralText([u]);
    UnitsOne(u);
    assert t == "\"\\u0000\"";
    StartsWithItself(t);
    hide Kept, UnitsMeaning, WfUnits, LiteralText, ParseString;
    LiteralComplete(t, 0, [u]);
  }

  // ----- a decoded string is a C string -----

  lemma Utf8NulFree(code: nat)
    requires 0 < code < 0x11_0000
    ensures NulFree(Utf8(code))
  {
  }

  lemma PairBound(uc: nat, uc2: nat)
    ensures 0 < PairCode(uc, uc2) < 0x11_0000
  {
  }

  lemma TranscodedNulFree(code: nat)
    requires 0 < code < 0x11_0000
    ensures NulFree(Transcode(code))
  {
    hide *;
    TranscodeIsUtf8(code);
    Utf8NulFree(code);
  }

  lemma UnescapedNulFree(t: string, p: nat)
    requires At(t, p) != NUL
    ensures NulFree(Unescape(t, p).0)
  {
    if At(t, p) == 'u' {
      hide Transcode, PairCode, Hex4, NulFree;
      var uc, uc2 := Hex4(t, p + 1), Hex4(t, p + 7);
      if uc != 0 {
        TranscodedNulFree(uc);
      }
      PairBound(uc, uc2);
      TranscodedNulFree(PairCode(uc, uc2));
      EmptyNulFree();
    }
  }

  lemma EmptyNulFree()
    ensures NulFree("")
  {
  }

  /** A string decoded inside a C string has no terminator in it. */
  lemma {:induction false} DecodedNulFree(t: string, p: nat)
    requires NulFree(t) && StringBody(t, p).1 <= |t|
    ensures NulFree(StringBody(t, p).0)
    decreases |t| - p
  {
    BodyUnfold(t, p);
    hide StringBody, Unescape;
    if !Ends(t, p) {
      if At(t, p) == BACKSLASH {
        UnescapedNulFree(t, p + 1);
      }
      DecodedNulFree(t, Next(t, p));
    }
  }

  // ----- numbers -----

  /** The number that the digits of `s` accumulate to, starting from `n`. */
  function Accumulate(n: int, s: string): int {
    if s == "" then n else Accumulate(n, s[..|s| - 1]) * 10 + DigitValue(s[|s| - 1])
  }

  lemma {:induction false} AccumulateFirst(n: int, s: string)
    requires s != ""
    ensures Accumulate(n, s) == Accumulate(n * 10 + DigitValue(s[0]), s[1..])
  {
    if |s| > 1 {
      AccumulateFirst(n, s[..|s| - 1]);
      assert s[..|s| - 1][1..] == s[1..][..|s| - 2];
    } else {
      assert s[..0] == "";
    }
  }

  lemma {:induction false} DigitsRead(t: string, p: nat, s: string, n: int)
    requires AllDigits(s) && StartsWith(t, p, s) && !IsDigit(At(t, p + |s|))
    ensures Digits(t, p, n) == (Accumulate(n, s), p + |s|)
    decreases |s|
  {
    if s != "" {
      First(t, p, s);
      assert s == s[..1] + s[1..];
      Split(t, p, s[..1], s[1..]);
      DigitsRead(t, p + 1, s[1..], n * 10 + DigitValue(s[0]));
      AccumulateFirst(n, s);
    }
  }

  lemma {:induction false} AccumulateFromZero(s: string)
    ensures Accumulate(0, s) == NatValue(s)
  {
    if s != "" {
      AccumulateFromZero(s[..|s| - 1]);
    }
  }

  lemma {:induction false} AccumulateConcat(w: string, f: string)
    ensures Accumulate(NatValue(w), f) == NatValue(w + f)
  {
    if f != "" {
      var a := f[..|f| - 1];
      AccumulateConcat(w, a);
      assert (w + f)[..|w + f| - 1] == w + a;
    } else {
      assert w + f == w;
    }
  }

  /** Characters that would prolong a number. */
  predicate EndsNumber(c: char) {
    !IsDigit(c) && c != '.' && c != 'e' && c != 'E'
  }

  lemma ExponentComplete(t: string, p: nat, x: Exponent)
    requires WfExponent(x) && StartsWith(t, p, ExponentText(x)) && EndsNumber(At(t, p + |ExponentText(x)|))
    ensures ParseExponent(t, p) == (ExponentValue(x), p + |ExponentText(x)|)
  {
    if x.Exponent? {
      Split3(t, p, [x.e], x.sign, x.digits);
      First(t, p, [x.e]);
      var q := p + 1 + |x.sign|;
      DigitsRead(t, q, x.digits, 0);
      AccumulateFromZero(x.digits);
      First(t, q, x.digits);
      if x.sign != "" {
        First(t, p + 1, x.sign);
      }
    }
  }

  lemma WholeComplete(t: string, p: nat, whole: string)
    requires whole != "" && AllDigits(whole) && (whole[0] == '0' ==> whole == "0")
    requires StartsWith(t, p, whole) && !IsDigit(At(t, p + |whole|))
    ensures IsDigit(At(t, p))
    ensures WholePart(t, p) == (NatValue(whole), p + |whole|)
  {
    First(t, p, whole);
    if whole[0] == '0' {
      assert whole[..0] == "" && NatValue("0") == 0;
    } else {
      DigitsRead(t, p, whole, 0);
      AccumulateFromZero(whole);
    }
  }

  lemma FracComplete(t: string, p: nat, n: int, frac: string)
    requires AllDigits(frac) && StartsWith(t, p, FracText(frac))
    requires !IsDigit(At(t, p + |FracText(frac)|)) && (frac == "" ==> At(t, p) != '.')
    ensures FracPart(t, p, n) == (Accumulate(n, frac), p + |FracText(frac)|)
  {
    if frac != "" {
      Split(t, p, ".", frac);
      First(t, p, ".");
      First(t, p + 1, frac);
      DigitsRead(t, p + 1, frac, n);
    }
  }

  lemma NumeralParts(t: string, p: nat, n: Numeral)
    requires WfNumeral(n) && StartsWith(t, p, NumeralText(n))
    ensures var p1 := p + if n.neg then 1 else 0;
            var p3 := p1 + |n.whole|;
            var p4 := p3 + |FracText(n.frac)|;
            && p + |NumeralText(n)| == p4 + |ExponentText(n.exponent)|
            && StartsWith(t, p1, n.whole) && StartsWith(t, p3, FracText(n.frac)) && StartsWith(t, p4, ExponentText(n.exponent))
            && (n.neg ==> At(t, p) == '-')
            && (n.frac != "" ==> At(t, p3) == '.')
            && (n.exponent.Exponent? ==> At(t, p4) == n.exponent.e)
    ensures n.whole != "" && AllDigits(n.whole) && (n.whole[0] == '0' ==> n.whole == "0")
    ensures AllDigits(n.frac) && WfExponent(n.exponent)
  {
    hide StartsWith, At, AllDigits;
    var sign := if n.neg then "-" else "";
    var frac, exponent := FracText(n.frac), ExponentText(n.exponent);
    Split4(t, p, sign, n.whole, frac, exponent);
    if n.neg {
      First(t, p, sign);
    }
    if frac != "" {
      First(t, p + |sign| + |n.whole|, frac);
    }
    if exponent != "" {
      First(t, p + |sign| + |n.whole| + |frac|, exponent);
    }
  }

  /** The digits of each part end where the part ends. */
  lemma NumeralEnds(t: string, p: nat, n: Numeral)
    requires WfNumeral(n) && StartsWith(t, p, NumeralText(n)) && EndsNumber(At(t, p + |NumeralText(n)|))
    ensures var p3 := p + (if n.neg then 1 else 0) + |n.whole|;
            var p4 := p3 + |FracText(n.frac)|;
            !IsDigit(At(t, p3)) && !IsDigit(At(t, p4)) && (n.frac == "" ==> At(t, p3) != '.')
  {
    NumeralParts(t, p, n);
    hide StartsWith, NumeralText, At, AllDigits;
  }

  lemma AssembleNumber(t: string, p: nat, n: Numeral)
    requires var p1 := if n.neg then p + 1 else p;
             var p3 := p1 + |n.whole|;
             var p4 := p3 + |FracText(n.frac)|;
             && IsDigit(At(t, p1)) && (n.neg ==> At(t, p) == '-')
             && WholePart(t, p1) == (NatValue(n.whole), p3)
             && FracPart(t, p3, NatValue(n.whole)) == (NatValue(n.whole + n.frac), p4)
             && ParseExponent(t, p4) == (ExponentValue(n.exponent), p + |NumeralText(n)|)
    ensures At(t, p) == '-' || IsDigit(At(t, p))
    ensures ParseNumber(t, p) == Ok(NumeralMeaning(n), p + |NumeralText(n)|)
  {
    hide WholePart, FracPart, ParseExponent, NumeralText, ExponentValue, NatValue, At;
  }

  /** What the three loops read. */
  lemma NumeralReads(t: string, p: nat, n: Numeral)
    requires WfNumeral(n) && StartsWith(t, p, NumeralText(n)) && EndsNumber(At(t, p + |NumeralText(n)|))
    ensures var p1 := if n.neg then p + 1 else p;
            var p3 := p1 + |n.whole|;
            var p4 := p3 + |FracText(n.frac)|;
            && IsDigit(At(t, p1)) && (n.neg ==> At(t, p) == '-')
            && WholePart(t, p1) == (NatValue(n.whole), p3)
            && FracPart(t, p3, NatValue(n.whole)) == (NatValue(n.whole + n.frac), p4)
            && ParseExponent(t, p4) == (ExponentValue(n.exponent), p + |NumeralText(n)|)
  {
    hide *;
    NumeralParts(t, p, n);
    NumeralEnds(t, p, n);
    var p1 := if n.neg then p + 1 else p;
    var p3 := p1 + |n.whole|;
    WholeComplete(t, p1, n.whole);
    FracComplete(t, p3, NatValue(n.whole), n.frac);
    AccumulateConcat(n.whole, n.frac);
    ExponentComplete(t, p3 + |FracText(n.frac)|, n.exponent);
  }

  lemma NumeralComplete(t: string, p: nat, n: Numeral)
    requires WfNumeral(n) && StartsWith(t, p, NumeralText(n)) && EndsNumber(At(t, p + |NumeralText(n)|))
    ensures At(t, p) == '-' || IsDigit(At(t, p))
    ensures ParseNumber(t, p) == Ok(NumeralMeaning(n), p + |NumeralText(n)|)
  {
    hide *;
    NumeralReads(t, p, n);
    AssembleNumber(t, p, n);
  }

  // ----- values -----

  /** The value that the parser makes of a text: its meaning, but for what is dropped from strings. */
  function Read(x: Syntax): Json
    requires Wf(x)
    decreases x, 0
  {
    match x
    case SNull => Null
    case SFalse => False
    case STrue => True
    case SNumber(n) => NumeralMeaning(n)
    case SString(us) => Str(Kept(us))
    case SArray(_, items) => Arr(ReadItems(items))
    case SObject(_, members) => Obj(ReadMembers(members))
  }

  function ReadItems(items: seq<SItem>): seq<Json>
    requires WfItems(items)
    decreases items, 0
  {
    if items == [] then []
    else
      assert WfItem(items[0]);
      [Read(items[0].v)] + ReadItems(items[1..])
  }

  function ReadMembers(members: seq<SMember>): seq<Member>
    requires WfMembers(members)
    decreases members, 0
  {
    if members == [] then []
    else
      assert WfMember(members[0]);
      [Member(Kept(members[0].name), Read(members[0].v))] + ReadMembers(members[1..])
  }

  /** A value's text starts with a visible character that decides the parser's branch. */
  lemma FirstChar(x: Syntax)
    requires Wf(x)
    ensures Text(x) != "" && Text(x)[0] > ' ' && Text(x)[0] != ']' && Text(x)[0] != '}'
    ensures !x.SNull? ==> Text(x)[0] != 'n'
    ensures !x.SFalse? ==> Text(x)[0] != 'f'
    ensures !x.STrue? ==> Text(x)[0] != 't'
  {
  }

  lemma NotKeyword(t: string, p: nat, w: string)
    requires w != ""
    ensures At(t, p) != w[0] ==> !StartsWith(t, p, w)
  {
    if StartsWith(t, p, w) {
      First(t, p, w);
    }
  }

  predicate Keyword(t: string, p: nat) {
    StartsWith(t, p, "null") || StartsWith(t, p, "false") || StartsWith(t, p, "true")
  }

  lemma NoKeyword(t: string, p: nat, x: Syntax)
    requires Wf(x) && StartsWith(t, p, Text(x)) && !x.SNull? && !x.SFalse? && !x.STrue?
    ensures !Keyword(t, p)
  {
    FirstChar(x);
    hide StartsWith, Text;
    First(t, p, Text(x));
    NotKeyword(t, p, "null");
    NotKeyword(t, p, "false");
    NotKeyword(t, p, "true");
  }

  lemma KeywordComplete(t: string, p: nat, x: Syntax)
    requires (x.SNull? || x.SFalse? || x.STrue?) && StartsWith(t, p, Text(x))
    ensures ParseValue(t, p) == Ok(Read(x), p + |Text(x)|) && ValueSafe(t, p)
  {
    First(t, p, Text(x));
    NotKeyword(t, p, "null");
    NotKeyword(t, p, "false");
    NotKeyword(t, p, "true");
  }

  lemma ValueAssemble(t: string, p: nat, v: Json, end: nat)
    requires !Keyword(t, p)
    requires || (At(t, p) == QUOTE && v.Str? && ParseString(t, p) == Ok(v.s, end) && StringSafe(t, p))
             || ((At(t, p) == '-' || IsDigit(At(t, p))) && ParseNumber(t, p) == Ok(v, end))
             || (At(t, p) == '[' && ParseArray(t, p) == Ok(v, end) && ArraySafe(t, p))
             || (At(t, p) == '{' && ParseObject(t, p) == Ok(v, end) && ObjectSafe(t, p))
    ensures ParseValue(t, p) == Ok(v, end) && ValueSafe(t, p)
  {
    hide ParseString, ParseNumber, ParseArray, ParseObject, StringSafe, ArraySafe, ObjectSafe, StartsWith;
  }

  lemma Unfolded(x: Syntax)
    requires Wf(x)
    ensures match x
            case SNumber(n) => WfNumeral(n) && Text(x) == NumeralText(n) && Read(x) == NumeralMeaning(n)
            case SString(us) => WfUnits(us) && Text(x) == LiteralText(us) && Read(x) == Str(Kept(us))
            case SArray(gap, items) =>
              IsWs(gap) && WfItems(items) && Text(x) == "[" + gap + ItemsText(items) + "]" && Read(x) == Arr(ReadItems(items))
            case SObject(gap, members) =>
              IsWs(gap) && WfMembers(members) && Text(x) == "{" + gap + MembersText(members) + "}"
              && Read(x) == Obj(ReadMembers(members))
            case _ => true
  {
    hide WfNumeral, NumeralText, NumeralMeaning, WfUnits, LiteralText, Kept, IsWs;
  }

  /** A value anywhere in a text is read from its first character to its last, inside the text. */
  lemma {:induction false} ValueComplete(t: string, p: nat, x: Syntax)
    requires Wf(x) && StartsWith(t, p, Text(x))
    requires x.SNumber? ==> EndsNumber(At(t, p + |Text(x)|))
    ensures ParseValue(t, p) == Ok(Read(x), p + |Text(x)|) && ValueSafe(t, p)
    decreases x, 1
  {
    hide *;
    if x.SNull? || x.SFalse? || x.STrue? {
      KeywordComplete(t, p, x);
    } else {
      NoKeyword(t, p, x);
      Unfolded(x);
      match x {
        case SNumber(n) => NumeralComplete(t, p, n);
        case SString(us) => LiteralComplete(t, p, us);
        case SArray(gap, items) => ArrayComplete(t, p, gap, items);
        case SObject(gap, members) => ObjectComplete(t, p, gap, members);
      }
      ValueAssemble(t, p, Read(x), p + |Text(x)|);
    }
  }

  lemma ItemsEmpty()
    ensures ItemsText([]) == "" && MembersText([]) == ""
  {
  }

  lemma {:induction false} ArrayComplete(t: string, p: nat, gap: string, items: seq<SItem>)
    requires IsWs(gap) && WfItems(items) && StartsWith(t, p, "[" + gap + ItemsText(items) + "]")
    ensures At(t, p) == '[' && ArraySafe(t, p)
    ensures ParseArray(t, p) == Ok(Arr(ReadItems(items)), p + |"[" + gap + ItemsText(items) + "]"|)
    decreases items, 3
  {
    hide StartsWith, ItemsText, ParseItems, ItemsSafe, Skip;
    ItemsEmpty();
    Split4(t, p, "[", gap, ItemsText(items), "]");
    First(t, p, "[");
    var q := p + 1 + |gap|;
    First(t, q + |ItemsText(items)|, "]");
    if items == [] {
      SkipTo(t, p + 1, gap);
    } else {
      SkipWs(t, p + 1, gap);
      ItemsComplete(t, q, items);
      ItemsStart(t, q, items);
      ItemsFrom(t, q);
      ItemsSafeFrom(t, q);
    }
  }

  lemma SkipTwice(t: string, p: nat)
    ensures Skip(t, Skip(t, p)) == Skip(t, p)
  {
  }

  /** The parser skips once before testing for `]` and again before the first value. */
  lemma ItemsFrom(t: string, p: nat)
    ensures ParseItems(t, Skip(t, p)) == ParseItems(t, p)
  {
    SkipTwice(t, p);
    hide Skip, ParseValue;
  }

  lemma ItemsSafeFrom(t: string, p: nat)
    ensures ItemsSafe(t, Skip(t, p)) == ItemsSafe(t, p)
  {
    SkipTwice(t, p);
    hide Skip, ParseValue, ValueSafe;
  }

  /** Where the parts of one array element stand in the text. */
  lemma ItemParts(t: string, p: nat, i: SItem)
    requires WfItem(i) && StartsWith(t, p, ItemText(i))
    ensures var a := p + |i.before|;
            var b := a + |Text(i.v)|;
            && StartsWith(t, p, i.before) && StartsWith(t, a, Text(i.v)) && StartsWith(t, b, i.after)
            && At(t, a) > ' ' && At(t, a) != ']' && (i.after == "" || IsBlank(At(t, b)))
            && p + |ItemText(i)| == b + |i.after|
  {
    hide StartsWith, Text;
    Split3(t, p, i.before, Text(i.v), i.after);
    FirstChar(i.v);
    First(t, p + |i.before|, Text(i.v));
    if i.after != "" {
      First(t, p + |i.before| + |Text(i.v)|, i.after);
    }
  }

  /** Where the parts of an item list stand in the text. */
  lemma ItemsParts(t: string, p: nat, items: seq<SItem>)
    requires items != [] && StartsWith(t, p, ItemsText(items))
    ensures var c := p + |ItemText(items[0])|;
            && StartsWith(t, p, ItemText(items[0]))
            && (|items| == 1 ==> p + |ItemsText(items)| == c)
            && (|items| > 1 ==>
                  && At(t, c) == ',' && StartsWith(t, c + 1, ItemsText(items[1..]))
                  && p + |ItemsText(items)| == c + 1 + |ItemsText(items[1..])|)
  {
    hide StartsWith, Text, ItemText;
    var w := ItemText(items[0]);
    var comma := Comma(|items| > 1);
    Split3(t, p, w, comma, ItemsText(items[1..]));
    if |items| > 1 {
      First(t, p + |w|, comma);
    } else {
      assert items[1..] == [];
    }
  }

  lemma ItemsStart(t: string, p: nat, items: seq<SItem>)
    requires items != [] && WfItems(items) && StartsWith(t, p, ItemsText(items))
    ensures At(t, Skip(t, p)) != ']'
  {
    ItemsParts(t, p, items);
    ItemParts(t, p, items[0]);
    SkipTo(t, p, items[0].before);
  }

  lemma {:induction false} ItemsComplete(t: string, p: nat, items: seq<SItem>)
    requires items != [] && WfItems(items) && StartsWith(t, p, ItemsText(items))
    requires At(t, p + |ItemsText(items)|) == ']'
    ensures ParseItems(t, p) == Ok(ReadItems(items), p + |ItemsText(items)|) && ItemsSafe(t, p)
    decreases items, 2
  {
    hide *;
    var i := items[0];
    ItemsUnfold(items);
    ItemsParts(t, p, items);
    var c := p + |ItemText(i)|;
    ItemComplete(t, p, i);
    if |items| > 1 {
      ItemsComplete(t, c + 1, items[1..]);
    }
    ItemsAssemble(t, p, Read(i.v), c);
  }

  lemma {:induction false} ItemComplete(t: string, p: nat, i: SItem)
    requires WfItem(i) && StartsWith(t, p, ItemText(i)) && At(t, p + |ItemText(i)|) in [',', ']']
    ensures var v := ParseValue(t, Skip(t, p));
            v.Ok? && v.value == Read(i.v) && Skip(t, v.end) == p + |ItemText(i)| && ValueSafe(t, Skip(t, p))
    decreases i, 2
  {
    hide Text, ItemText, ParseValue, ValueSafe, Skip, StartsWith, Wf, Read, IsWs;
    ItemParts(t, p, i);
    SkipTo(t, p, i.before);
    ValueComplete(t, p + |i.before|, i.v);
    SkipTo(t, p + |i.before| + |Text(i.v)|, i.after);
  }

  lemma ItemsUnfold(items: seq<SItem>)
    requires items != [] && WfItems(items)
    ensures WfItem(items[0]) && Wf(items[0].v) && WfItems(items[1..])
    ensures ReadItems(items)
            == if |items| == 1 then [Read(items[0].v)] else [Read(items[0].v)] + ReadItems(items[1..])
  {
    hide Wf, Read;
  }

  lemma ItemsAssemble(t: string, p: nat, v: Json, c: nat)
    requires var r := ParseValue(t, Skip(t, p)); r.Ok? && r.value == v && Skip(t, r.end) == c && ValueSafe(t, Skip(t, p))
    ensures At(t, c) != ',' ==> ParseItems(t, p) == Ok([v], c) && ItemsSafe(t, p)
    ensures At(t, c) == ',' && ParseItems(t, c + 1).Ok? && ItemsSafe(t, c + 1) ==>
              ParseItems(t, p) == Ok([v] + ParseItems(t, c + 1).value, ParseItems(t, c + 1).end) && ItemsSafe(t, p)
  {
    hide ParseValue, Skip, ValueSafe;
  }

  lemma {:induction false} ObjectComplete(t: string, p: nat, gap: string, members: seq<SMember>)
    requires IsWs(gap) && WfMembers(members) && StartsWith(t, p, "{" + gap + MembersText(members) + "}")
    ensures At(t, p) == '{' && ObjectSafe(t, p)
    ensures ParseObject(t, p) == Ok(Obj(ReadMembers(members)), p + |"{" + gap + MembersText(members) + "}"|)
    decreases members, 3
  {
    hide StartsWith, MembersText, ParseMembers, MembersSafe, Skip;
    ItemsEmpty();
    Split4(t, p, "{", gap, MembersText(members), "}");
    First(t, p, "{");
    var q := p + 1 + |gap|;
    First(t, q + |MembersText(members)|, "}");
    if members == [] {
      SkipTo(t, p + 1, gap);
    } else {
      SkipWs(t, p + 1, gap);
      MembersComplete(t, q, members);
      MembersFrom(t, q);
    }
  }

  lemma MembersFrom(t: string, p: nat)
    ensures ParseMembers(t, Skip(t, p)) == ParseMembers(t, p) && MembersSafe(t, Skip(t, p)) == MembersSafe(t, p)
  {
    hide ParseMember, MemberSafe;
    MemberFrom(t, p);
  }

  lemma MemberFrom(t: string, p: nat)
    ensures ParseMember(t, Skip(t, p)) == ParseMember(t, p) && MemberSafe(t, Skip(t, p)) == MemberSafe(t, p)
  {
    assert Skip(t, Skip(t, p)) == Skip(t, p);
    hide Skip, ParseString, ParseValue, StringSafe, ValueSafe;
  }

  /** Where the parts of one member stand in the text. */
  lemma MemberParts(t: string, p: nat, m: SMember)
    requires WfMember(m) && StartsWith(t, p, MemberText(m))
    ensures var a := p + |m.before|;
            var b := a + |LiteralText(m.name)|;
            var c := b + |m.mid|;
            var d := c + 1 + |m.gap|;
            var e := d + |Text(m.v)|;
            && StartsWith(t, p, m.before) && StartsWith(t, a, LiteralText(m.name)) && StartsWith(t, b, m.mid)
            && At(t, c) == ':' && StartsWith(t, c + 1, m.gap) && StartsWith(t, d, Text(m.v))
            && At(t, d) > ' ' && StartsWith(t, e, m.after) && (m.after == "" || IsBlank(At(t, e)))
            && p + |MemberText(m)| == e + |m.after|
  {
    hide StartsWith, Text, LiteralText;
    var w := m.before + LiteralText(m.name) + m.mid;
    Split4(t, p, w + ":", m.gap, Text(m.v), m.after);
    Split(t, p, w, ":");
    Split3(t, p, m.before, LiteralText(m.name), m.mid);
    First(t, p + |w|, ":");
    FirstChar(m.v);
    First(t, p + |w| + 1 + |m.gap|, Text(m.v));
    if m.after != "" {
      First(t, p + |w| + 1 + |m.gap| + |Text(m.v)|, m.after);
    }
  }

  lemma {:induction false} MemberComplete(t: string, p: nat, m: SMember)
    requires WfMember(m) && StartsWith(t, p, MemberText(m))
    requires At(t, p + |MemberText(m)|) == ',' || At(t, p + |MemberText(m)|) == '}'
    ensures At(t, Skip(t, p)) == QUOTE && MemberSafe(t, p)
    ensures ParseMember(t, p) == Ok(Member(Kept(m.name), Read(m.v)), p + |MemberText(m)|)
    decreases m, 2
  {
    hide Text, LiteralText, MemberText, Read, Kept, ParseValue, ParseString, ValueSafe, StringSafe, Skip, StartsWith, IsWs;
    var a := p + |m.before|;
    var b := a + |LiteralText(m.name)|;
    var c := b + |m.mid|;
    var d := c + 1 + |m.gap|;
    var e := d + |Text(m.v)|;
    MemberParts(t, p, m);
    LiteralComplete(t, a, m.name);
    SkipTo(t, p, m.before);
    SkipTo(t, b, m.mid);
    SkipTo(t, c + 1, m.gap);
    ValueComplete(t, d, m.v);
    SkipTo(t, e, m.after);
  }

  /** Where the parts of a member list stand in the text. */
  lemma MembersParts(t: string, p: nat, members: seq<SMember>)
    requires members != [] && StartsWith(t, p, MembersText(members))
    ensures var c := p + |MemberText(members[0])|;
            && StartsWith(t, p, MemberText(members[0]))
            && (|members| == 1 ==> p + |MembersText(members)| == c)
            && (|members| > 1 ==>
                  && At(t, c) == ',' && StartsWith(t, c + 1, MembersText(members[1..]))
                  && p + |MembersText(members)| == c + 1 + |MembersText(members[1..])|)
  {
    hide StartsWith, Text, MemberText;
    var w := MemberText(members[0]);
    var comma := Comma(|members| > 1);
    Split3(t, p, w, comma, MembersText(members[1..]));
    if |members| > 1 {
      First(t, p + |w|, comma);
    } else {
      assert members[1..] == [];
    }
  }

  lemma {:induction false} MembersComplete(t: string, p: nat, members: seq<SMember>)
    requires members != [] && WfMembers(members) && StartsWith(t, p, MembersText(members))
    requires At(t, p + |MembersText(members)|) == '}'
    ensures At(t, Skip(t, p)) == QUOTE && MembersSafe(t, p)
    ensures ParseMembers(t, p) == Ok(ReadMembers(members), p + |MembersText(members)|)
    decreases members, 2
  {
    hide Text, MemberText, MembersText, ParseMember, MemberSafe, Skip, StartsWith, Wf, Read, Kept, WfUnits, At;
    var m := members[0];
    MembersParts(t, p, members);
    MemberComplete(t, p, m);
    if |members| > 1 {
      MembersComplete(t, p + |MemberText(m)| + 1, members[1..]);
    } else {
      assert ReadMembers(members) == [Member(Kept(m.name), Read(m.v))];
    }
  }

  /** cJSON_ParseWithOpts reads every RFC 8259 text, whatever blanks surround it, without leaving it,
      and reports the end of the text. */
  lemma ParseComplete(x: Syntax, before: string, after: string)
    requires Wf(x) && IsWs(before) && IsWs(after)
    ensures Parse(before + Text(x) + after, true) == Ok(Read(x), |before + Text(x) + after|)
    ensures Parse(before + Text(x) + after, false) == Ok(Read(x), |before + Text(x)|)
    ensures TextSafe(before + Text(x) + after)
  {
    hide *;
    var t := before + Text(x) + after;
    TextParts(t, x, before, after);
    ValueComplete(t, |before|, x);
    SkipWs(t, |before| + |Text(x)|, after);
    FinishParse(t, |before|, Read(x), |before| + |Text(x)|);
  }

  lemma FinishParse(t: string, start: nat, v: Json, end: nat)
    requires Skip(t, 0) == start && ParseValue(t, start) == Ok(v, end) && Skip(t, end) == Skip(t, |t|) && ValueSafe(t, start)
    ensures Parse(t, true) == Ok(v, |t|) && Parse(t, false) == Ok(v, end) && TextSafe(t)
  {
    hide ParseValue, ValueSafe;
  }

  lemma TextParts(t: string, x: Syntax, before: string, after: string)
    requires Wf(x) && IsWs(before) && IsWs(after) && t == before + Text(x) + after
    ensures StartsWith(t, |before|, Text(x)) && Skip(t, 0) == |before|
    ensures StartsWith(t, |before| + |Text(x)|, after)
    ensures EndsNumber(At(t, |before| + |Text(x)|))
  {
    hide *;
    StartsWithItself(t);
    Split(t, 0, before + Text(x), after);
    Split(t, 0, before, Text(x));
    FirstChar(x);
    First(t, |before|, Text(x));
    SkipTo(t, 0, before);
    WsEndsNumber(t, |before| + |Text(x)|, after);
  }

  lemma StartsWithItself(t: string)
    ensures StartsWith(t, 0, t)
  {
  }

  lemma WsEndsNumber(t: string, p: nat, ws: string)
    requires IsWs(ws) && StartsWith(t, p, ws) && p + |ws| == |t|
    ensures EndsNumber(At(t, p))
  {
    if ws != "" {
      First(t, p, ws);
    }
  }

  // ----- when a text is read as what it denotes -----

  /** No string of the text, names included, has a unit that is dropped. */
  predicate NothingDropped(x: Syntax)
    decreases x, 0
  {
    match x
    case SString(us) => NoneDropped(us)
    case SArray(_, items) => NoItemDropped(items)
    case SObject(_, members) => NoMemberDropped(members)
    case _ => true
  }

  predicate NoItemDropped(items: seq<SItem>)
    decreases items, 0
  {
    items == [] || (NothingDropped(items[0].v) && NoItemDropped(items[1..]))
  }

  predicate NoMemberDropped(members: seq<SMember>)
    decreases members, 0
  {
    members == [] || (NoneDropped(members[0].name) && NothingDropped(members[0].v) && NoMemberDropped(members[1..]))
  }

  lemma {:induction false} ReadIffKept(x: Syntax)
    requires Wf(x)
    ensures Read(x) == Meaning(x) <==> NothingDropped(x)
    decreases x, 1
  {
    match x
    case SString(us) => KeptLength(us);
    case SArray(_, items) => ItemsIffKept(items);
    case SObject(_, members) => MembersIffKept(members);
    case _ =>
  }

  lemma ConsEqual<T>(a: T, s: seq<T>, b: T, r: seq<T>)
    ensures [a] + s == [b] + r <==> a == b && s == r
  {
    if [a] + s == [b] + r {
      assert ([a] + s)[0] == a && ([a] + s)[1..] == s && ([b] + r)[1..] == r;
    }
  }

  lemma {:induction false} ItemsIffKept(items: seq<SItem>)
    requires WfItems(items)
    ensures ReadItems(items) == ItemsMeaning(items) <==> NoItemDropped(items)
    decreases items, 0
  {
    if items != [] {
      hide Wf, Read, Meaning, NothingDropped;
      var i, rest := items[0], items[1..];
      assert WfItem(i);
      ReadIffKept(i.v);
      ItemsIffKept(rest);
      ConsEqual(Read(i.v), ReadItems(rest), Meaning(i.v), ItemsMeaning(rest));
    }
  }

  lemma {:induction false} MembersIffKept(members: seq<SMember>)
    requires WfMembers(members)
    ensures ReadMembers(members) == MembersMeaning(members) <==> NoMemberDropped(members)
    decreases members, 0
  {
    if members != [] {
      hide Wf, Read, Meaning, NothingDropped, WfUnits, Kept, UnitsMeaning, NoneDropped;
      var m, rest := members[0], members[1..];
      assert WfMember(m);
      KeptLength(m.name);
      ReadIffKept(m.v);
      MembersIffKept(rest);
      ConsEqual(Member(Kept(m.name), Read(m.v)), ReadMembers(rest),
                Member(UnitsMeaning(m.name), Meaning(m.v)), MembersMeaning(rest));
    }
  }

  /** The parser returns the meaning of an RFC 8259 text if and only if its strings have no `\u0000`
      and no lone half of a surrogate pair. */
  lemma ParseRight(x: Syntax, before: string, after: string)
    requires Wf(x) && IsWs(before) && IsWs(after)
    ensures Parse(before + Text(x) + after, true) == Ok(Meaning(x), |before + Text(x) + after|) <==> NothingDropped(x)
    ensures Parse(before + Text(x) + after, false) == Ok(Meaning(x), |before + Text(x)|) <==> NothingDropped(x)
  {
    hide *;
    ParseComplete(x, before, after);
    ReadIffKept(x);
  }
}
