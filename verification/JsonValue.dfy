/** JSON trees and the text that cJSON prints for them (cJSON/cJSON.c).
    One `char` stands for one byte of a C string; '\0' is the terminator. */
module JsonValue {
  const NUL: char := '\0'
  const QUOTE: char := '\"'
  const BACKSLASH: char := '\\'

  /** What a cJSON item and its children denote. `Number(m, e)` is m * 10^e, the
      operands of the source's `n*pow(10.0,e)`; rounding to a double is not modelled. */
  datatype Json =
    | Null
    | False
    | True
    | Number(mantissa: int, exponent: int)
    | Str(s: string)
    | Arr(items: seq<Json>)
    | Obj(members: seq<Member>)

  datatype Member = Member(name: string, value: Json)

  predicate IsInt32(n: int) {
    -0x8000_0000 <= n <= 0x7fff_ffff
  }

  predicate NulFree(s: string) {
    forall i :: 0 <= i < |s| ==> s[i] != NUL
  }

  /** The trees the printers are modelled on: 32-bit integers and C strings. */
  predicate Printable(v: Json) {
    match v
    case Number(m, e) => e == 0 && IsInt32(m)
    case Str(s) => NulFree(s)
    case Arr(items) => AllPrintable(items)
    case Obj(members) => AllMembersPrintable(members)
    case _ => true
  }

  predicate AllPrintable(items: seq<Json>) {
    items == [] || (Printable(items[0]) && AllPrintable(items[1..]))
  }

  predicate AllMembersPrintable(members: seq<Member>) {
    members == [] ||
    (NulFree(members[0].name) && Printable(members[0].value) && AllMembersPrintable(members[1..]))
  }

  // ----- numbers -----

  function DigitChar(d: nat): (c: char)
    requires d < 10
  {
    (d + '0' as int) as char
  }

  /** Decimal digits without leading zeros. */
  function Decimal(n: nat): string {
    if n < 10 then [DigitChar(n)] else Decimal(n / 10) + [DigitChar(n % 10)]
  }

  /** `%d`, the rendering of integral values; print_number writes other doubles with
      `%f` and `%e`, which this function does not describe (see Printable). */
  function NumberText(n: int): string {
    if n < 0 then "-" + Decimal(-n) else Decimal(n)
  }

  // ----- strings -----

  function HexChar(d: nat): (c: char)
    requires d < 16
  {
    if d < 10 then (d + '0' as int) as char else (d - 10 + 'a' as int) as char
  }

  function EscapeChar(c: char): string {
    if c == BACKSLASH then "\\\\"
    else if c == QUOTE then "\\\""
    else if c == 8 as char then "\\b"
    else if c == 12 as char then "\\f"
    else if c == '\n' then "\\n"
    else if c == '\r' then "\\r"
    else if c == '\t' then "\\t"
    else if c < ' ' then "\\u00" + [HexChar(c as int / 16), HexChar(c as int % 16)]
    else [c]
  }

  function Escape(s: string): string {
    if s == "" then "" else EscapeChar(s[0]) + Escape(s[1..])
  }

  function Quoted(s: string): string {
    [QUOTE] + Escape(s) + [QUOTE]
  }

  // ----- trees -----

  function Tabs(n: int): (s: string)
  {
    if n <= 0 then "" else "\t" + Tabs(n - 1)
  }

  function When(fmt: bool, s: string): string {
    if fmt then s else ""
  }

  /** The text print_value produces at a given depth, formatted or not. */
  function Print(v: Json, depth: nat, fmt: bool): string
    decreases v, 0
  {
    match v
    case Null => "null"
    case False => "false"
    case True => "true"
    case Number(m, _) => NumberText(m)
    case Str(s) => Quoted(s)
    case Arr(items) =>
      "[" + PrintItems(items, depth + 1, fmt) + "]"
    case Obj(members) =>
      if members == [] then
        "{" + When(fmt, "\n" + Tabs(depth - 1)) + "}"
      else
        "{" + When(fmt, "\n") + PrintMembers(members, depth + 1, fmt) + When(fmt, Tabs(depth)) + "}"
  }

  function PrintItems(items: seq<Json>, depth: nat, fmt: bool): string
    decreases items, 0
  {
    if items == [] then ""
    else Print(items[0], depth, fmt) + ItemSeparator(|items| > 1, fmt) + PrintItems(items[1..], depth, fmt)
  }

  function ItemSeparator(more: bool, fmt: bool): string {
    if more then "," + When(fmt, " ") else ""
  }

  function PrintMembers(members: seq<Member>, depth: nat, fmt: bool): string
    decreases members, 0
  {
    if members == [] then ""
    else
      When(fmt, Tabs(depth)) + Quoted(members[0].name) + ":" + When(fmt, "\t")
      + Print(members[0].value, depth, fmt) + MemberSeparator(|members| > 1, fmt)
      + PrintMembers(members[1..], depth, fmt)
  }

  function MemberSeparator(more: bool, fmt: bool): string {
    (if more then "," else "") + When(fmt, "\n")
  }
}
