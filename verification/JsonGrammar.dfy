/** The JSON texts of RFC 8259 sections 2 to 7 as concrete syntax trees: any
    whitespace in every gap the grammar has, any spelling of a string character,
    any number. `Text` writes a tree out and `Meaning` gives the value it denotes,
    both independently of the parser. */
module JsonGrammar {
  import opened JsonValue

  // ----- strings (RFC 8259 section 7) -----

  /** One spelled character of a string literal. */
  datatype Unit =
    | Raw(c: char)
    | Short(c: char)
    | Hex(h: string)
    | Surrogates(hi: string, lo: string)

  predicate IsDigit(c: char) { '0' <= c <= '9' }

  predicate IsHex(c: char) { IsDigit(c) || 'a' <= c <= 'f' || 'A' <= c <= 'F' }

  function HexValue(c: char): (n: nat)
    requires IsHex(c)
    ensures n < 16
  {
    if IsDigit(c) then c as int - '0' as int
    else if 'a' <= c <= 'f' then 10 + c as int - 'a' as int
    else 10 + c as int - 'A' as int
  }

  predicate IsHex4(h: string) {
    |h| == 4 && forall i :: 0 <= i < 4 ==> IsHex(h[i])
  }

  function CodeUnit(h: string): (n: nat)
    requires IsHex4(h)
    ensures n < 0x1_0000
  {
    HexValue(h[0]) * 0x1000 + HexValue(h[1]) * 0x100 + HexValue(h[2]) * 0x10 + HexValue(h[3])
  }

  predicate WfUnit(u: Unit) {
    match u
    case Raw(c) => c >= ' ' && c != QUOTE && c != BACKSLASH
    case Short(c) => c in "\"\\/bfnrt"
    case Hex(h) => IsHex4(h)
    case Surrogates(hi, lo) => IsHigh(hi) && IsLow(lo)
  }

  /** The halves of a surrogate pair. */
  predicate IsHigh(h: string) {
    IsHex4(h) && 0xD800 <= CodeUnit(h) <= 0xDBFF
  }

  predicate IsLow(h: string) {
    IsHex4(h) && 0xDC00 <= CodeUnit(h) <= 0xDFFF
  }

  function UnitText(u: Unit): string {
    match u
    case Raw(c) => [c]
    case Short(c) => [BACKSLASH, c]
    case Hex(h) => "\\u" + h
    case Surrogates(hi, lo) => "\\u" + hi + "\\u" + lo
  }

  /** UTF-8, RFC 3629 section 3. A lone half of a surrogate pair, which the grammar of RFC 8259 allows
      and its section 8.2 leaves open, gets the three bytes of its code unit. */
  function Utf8(code: nat): string
    requires code < 0x11_0000
  {
    if code < 0x80 then [code as char]
    else if code < 0x800 then [(0xC0 + code / 0x40) as char, Continuation(code)]
    else if code < 0x1_0000 then [(0xE0 + code / 0x1000) as char, Continuation(code / 0x40), Continuation(code)]
    else [(0xF0 + code / 0x4_0000) as char, Continuation(code / 0x1000), Continuation(code / 0x40), Continuation(code)]
  }

  function Continuation(code: nat): char {
    (0x80 + code % 0x40) as char
  }

  function UnitMeaning(u: Unit): string
    requires WfUnit(u)
  {
    match u
    case Raw(c) => [c]
    case Short(c) =>
      if c == 'b' then [8 as char] else if c == 'f' then [12 as char] else if c == 'n' then "\n"
      else if c == 'r' then "\r" else if c == 't' then "\t" else [c]
    case Hex(h) => Utf8(CodeUnit(h))
    case Surrogates(hi, lo) => Utf8(0x1_0000 + (CodeUnit(hi) - 0xD800) * 0x400 + (CodeUnit(lo) - 0xDC00))
  }

  /** Two halves one after the other are one unit, so a half that is a unit of its own is alone. */
  predicate Apart(u: Unit, v: Unit) {
    !(u.Hex? && v.Hex? && IsHigh(u.h) && IsLow(v.h))
  }

  predicate WfUnits(us: seq<Unit>) {
    us == [] || (WfUnit(us[0]) && (|us| > 1 ==> Apart(us[0], us[1])) && WfUnits(us[1..]))
  }

  function UnitsText(us: seq<Unit>): string {
    if us == [] then "" else UnitText(us[0]) + UnitsText(us[1..])
  }

  function UnitsMeaning(us: seq<Unit>): string
    requires WfUnits(us)
  {
    if us == [] then "" else UnitMeaning(us[0]) + UnitsMeaning(us[1..])
  }

  function LiteralText(us: seq<Unit>): string {
    [QUOTE] + UnitsText(us) + [QUOTE]
  }

  // ----- numbers (RFC 8259 section 6) -----

  datatype Exponent = NoExponent | Exponent(e: char, sign: string, digits: string)
  datatype Numeral = Numeral(neg: bool, whole: string, frac: string, exponent: Exponent)

  predicate AllDigits(s: string) {
    forall i :: 0 <= i < |s| ==> IsDigit(s[i])
  }

  predicate WfExponent(x: Exponent) {
    x.NoExponent? || (x.e in "eE" && x.sign in {"", "+", "-"} && x.digits != "" && AllDigits(x.digits))
  }

  predicate WfNumeral(n: Numeral) {
    && n.whole != "" && AllDigits(n.whole) && (n.whole[0] == '0' ==> n.whole == "0")
    && AllDigits(n.frac)
    && WfExponent(n.exponent)
  }

  function FracText(frac: string): string {
    if frac == "" then "" else "." + frac
  }

  function ExponentText(x: Exponent): string {
    match x
    case NoExponent => ""
    case Exponent(e, sign, digits) => [e] + sign + digits
  }

  function NumeralText(n: Numeral): string {
    (if n.neg then "-" else "") + n.whole + FracText(n.frac) + ExponentText(n.exponent)
  }

  function DigitValue(c: char): (n: int)
    ensures IsDigit(c) ==> 0 <= n < 10
  {
    c as int - '0' as int
  }

  /** The natural number a digit string spells. */
  function NatValue(s: string): int {
    if s == "" then 0 else NatValue(s[..|s| - 1]) * 10 + DigitValue(s[|s| - 1])
  }

  function ExponentValue(x: Exponent): int {
    match x
    case NoExponent => 0
    case Exponent(_, sign, digits) => if sign == "-" then -NatValue(digits) else NatValue(digits)
  }

  /** The digits without the point, and the power of ten that puts it back. */
  function NumeralMeaning(n: Numeral): Json {
    var m := NatValue(n.whole + n.frac);
    Number(if n.neg then -m else m, ExponentValue(n.exponent) - |n.frac|)
  }

  // ----- values (RFC 8259 sections 2 to 5) -----

  datatype Syntax =
    | SNull
    | SFalse
    | STrue
    | SNumber(n: Numeral)
    | SString(us: seq<Unit>)
    | SArray(gap: string, items: seq<SItem>)
    | SObject(gap: string, members: seq<SMember>)

  /** An array element with the whitespace on both sides of it. */
  datatype SItem = SItem(before: string, v: Syntax, after: string)

  /** An object member with the whitespace in its four gaps. */
  datatype SMember = SMember(before: string, name: seq<Unit>, mid: string, gap: string, v: Syntax, after: string)

  predicate IsBlank(c: char) {
    c == ' ' || c == '\t' || c == '\n' || c == '\r'
  }

  predicate IsWs(s: string) {
    forall i :: 0 <= i < |s| ==> IsBlank(s[i])
  }

  predicate Wf(x: Syntax)
    decreases x, 0
  {
    match x
    case SNumber(n) => WfNumeral(n)
    case SString(us) => WfUnits(us)
    case SArray(gap, items) => IsWs(gap) && WfItems(items)
    case SObject(gap, members) => IsWs(gap) && WfMembers(members)
    case _ => true
  }

  predicate WfItem(i: SItem)
    decreases i, 1
  {
    IsWs(i.before) && IsWs(i.after) && Wf(i.v)
  }

  predicate WfItems(items: seq<SItem>)
    decreases items, 0
  {
    items == [] || (WfItem(items[0]) && WfItems(items[1..]))
  }

  predicate WfMember(m: SMember)
    decreases m, 1
  {
    IsWs(m.before) && IsWs(m.mid) && IsWs(m.gap) && IsWs(m.after) && WfUnits(m.name) && Wf(m.v)
  }

  predicate WfMembers(members: seq<SMember>)
    decreases members, 0
  {
    members == [] || (WfMember(members[0]) && WfMembers(members[1..]))
  }

  function Text(x: Syntax): string
    decreases x, 0
  {
    match x
    case SNull => "null"
    case SFalse => "false"
    case STrue => "true"
    case SNumber(n) => NumeralText(n)
    case SString(us) => LiteralText(us)
    case SArray(gap, items) => "[" + gap + ItemsText(items) + "]"
    case SObject(gap, members) => "{" + gap + MembersText(members) + "}"
  }

  function Comma(more: bool): string {
    if more then "," else ""
  }

  function ItemText(i: SItem): string
    decreases i, 1
  {
    i.before + Text(i.v) + i.after
  }

  function ItemsText(items: seq<SItem>): string
    decreases items, 0
  {
    if items == [] then ""
    else ItemText(items[0]) + Comma(|items| > 1) + ItemsText(items[1..])
  }

  function MemberText(m: SMember): string
    decreases m, 1
  {
    m.before + LiteralText(m.name) + m.mid + ":" + m.gap + Text(m.v) + m.after
  }

  function MembersText(members: seq<SMember>): string
    decreases members, 0
  {
    if members == [] then ""
    else MemberText(members[0]) + Comma(|members| > 1) + MembersText(members[1..])
  }

  function Meaning(x: Syntax): Json
    requires Wf(x)
    decreases x, 0
  {
    match x
    case SNull => Null
    case SFalse => False
    case STrue => True
    case SNumber(n) => NumeralMeaning(n)
    case SString(us) => Str(UnitsMeaning(us))
    case SArray(_, items) => Arr(ItemsMeaning(items))
    case SObject(_, members) => Obj(MembersMeaning(members))
  }

  function ItemsMeaning(items: seq<SItem>): seq<Json>
    requires WfItems(items)
    decreases items, 0
  {
    if items == [] then []
    else
      assert WfItem(items[0]);
      [Meaning(items[0].v)] + ItemsMeaning(items[1..])
  }

  function MembersMeaning(members: seq<SMember>): seq<Member>
    requires WfMembers(members)
    decreases members, 0
  {
    if members == [] then []
    else
      assert WfMember(members[0]);
      [Member(UnitsMeaning(members[0].name), Meaning(members[0].v))] + MembersMeaning(members[1..])
  }
}
