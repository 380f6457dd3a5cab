/** The functions cJSON's parser computes, over positions of a NUL-terminated text.
    Reading at or past the terminator gives NUL. */
module JsonParse {
  import opened Bits
  import opened JsonValue
  import opened JsonGrammar

  /** A parse result, or the position that cJSON_GetErrorPtr would report. */
  datatype Parsed<T> = Fail(at: nat) | Ok(value: T, end: nat)

  function At(t: string, p: nat): char {
    if p < |t| then t[p] else NUL
  }

  predicate StartsWith(t: string, p: nat, w: string) {
    p + |w| <= |t| && forall i :: 0 <= i < |w| ==> t[p + i] == w[i]
  }

  function Skip(t: string, p: nat): (q: nat)
    ensures p <= q
    ensures !(NUL < At(t, q) <= ' ')
    ensures p <= |t| ==> q <= |t|
    decreases |t| - p
  {
    if NUL < At(t, p) <= ' ' then Skip(t, p + 1) else p
  }

  // ----- parse_string -----

  /** parse_hex4: 0 when one of the four characters is not a hexadecimal digit. */
  function Hex4(t: string, p: nat): (n: nat)
    ensures n < 0x1_0000
  {
    if IsHex(At(t, p)) && IsHex(At(t, p + 1)) && IsHex(At(t, p + 2)) && IsHex(At(t, p + 3)) then
      ((HexValue(At(t, p)) * 16 + HexValue(At(t, p + 1))) * 16 + HexValue(At(t, p + 2))) * 16 + HexValue(At(t, p + 3))
    else 0
  }

  function FirstByteMark(len: nat): nat
    requires 1 <= len <= 4
  {
    if len == 1 then 0x00 else if len == 2 then 0xC0 else if len == 3 then 0xE0 else 0xF0
  }

  /** A value stored in a byte. */
  function Byte(n: nat): char {
    (n % 256) as char
  }

  function EncodeByte(uc: nat): char {
    Byte(And(Or(uc, 0x80), 0xBF))
  }

  /** The transcoding switch, which falls through from the last byte to the first:
      `len` bytes are still to be written, `total` were asked for. */
  function EncodeBytes(uc: nat, len: nat, total: nat): string
    requires 1 <= len <= total <= 4
  {
    if len == 1 then [Byte(Or(uc, FirstByteMark(total)))]
    else EncodeBytes(uc / 64, len - 1, total) + [EncodeByte(uc)]
  }

  function Utf8Length(uc: nat): (len: nat)
    ensures 1 <= len <= 4
  {
    if uc < 0x80 then 1 else if uc < 0x800 then 2 else if uc < 0x1_0000 then 3 else 4
  }

  function Transcode(uc: nat): string {
    EncodeBytes(uc, Utf8Length(uc), Utf8Length(uc))
  }

  /** The code point of a surrogate pair. */
  function PairCode(uc: nat, uc2: nat): nat {
    0x1_0000 + (uc % 0x400 * 0x400 + uc2 % 0x400)
  }

  /** The characters an escape appends and the position after it; `p` is just past
      the backslash. */
  function Unescape(t: string, p: nat): (r: (string, nat))
    ensures r.1 > p
  {
    var c := At(t, p);
    if c == 'b' then ([8 as char], p + 1)
    else if c == 'f' then ([12 as char], p + 1)
    else if c == 'n' then ("\n", p + 1)
    else if c == 'r' then ("\r", p + 1)
    else if c == 't' then ("\t", p + 1)
    else if c == 'u' then UnescapeUnicode(t, p)
    else ([c], p + 1)
  }

  function UnescapeUnicode(t: string, p: nat): (r: (string, nat))
    ensures r.1 > p
  {
    var uc := Hex4(t, p + 1);
    if 0xDC00 <= uc <= 0xDFFF || uc == 0 then ("", p + 5)
    else if 0xD800 <= uc <= 0xDBFF then
      if At(t, p + 5) != BACKSLASH || At(t, p + 6) != 'u' then ("", p + 5)
      else
        var uc2 := Hex4(t, p + 7);
        if uc2 < 0xDC00 || uc2 > 0xDFFF then ("", p + 11)
        else (Transcode(PairCode(uc, uc2)), p + 11)
    else (Transcode(uc), p + 5)
  }

  /** The decoded body from `p` on and the position of the closing quote or terminator. */
  function StringBody(t: string, p: nat): (r: (string, nat))
    ensures r.1 >= p
    decreases |t| - p
  {
    var c := At(t, p);
    if c == QUOTE || c == NUL then ("", p)
    else if c != BACKSLASH then
      var (s, end) := StringBody(t, p + 1);
      ([c] + s, end)
    else
      var (out, q) := Unescape(t, p + 1);
      var (s, end) := StringBody(t, q);
      (out + s, end)
  }

  function ParseString(t: string, p: nat): (r: Parsed<string>)
    ensures r.Ok? ==> r.end > p
  {
    if At(t, p) != QUOTE then Fail(p)
    else
      var (s, end) := StringBody(t, p + 1);
      Ok(s, if At(t, end) == QUOTE then end + 1 else end)
  }

  // ----- parse_number -----

  /** Accumulates decimal digits onto `n`. */
  function Digits(t: string, p: nat, n: int): (r: (int, nat))
    ensures r.1 >= p
    decreases |t| - p
  {
    if IsDigit(At(t, p)) then Digits(t, p + 1, n * 10 + DigitValue(At(t, p))) else (n, p)
  }

  /** The digits before the point, after any sign: a zero, or digits that do not start with one. */
  function WholePart(t: string, p: nat): (r: (int, nat))
    ensures r.1 >= p && (IsDigit(At(t, p)) ==> r.1 > p)
  {
    var q := if At(t, p) == '0' then p + 1 else p;
    if '1' <= At(t, q) <= '9' then Digits(t, q, 0) else (0, q)
  }

  /** The point and the digits behind it, read on from n. */
  function FracPart(t: string, p: nat, n: int): (r: (int, nat))
    ensures r.1 >= p
  {
    if At(t, p) == '.' && IsDigit(At(t, p + 1)) then Digits(t, p + 1, n) else (n, p)
  }

  function ParseNumber(t: string, p: nat): (r: Parsed<Json>)
    requires At(t, p) == '-' || IsDigit(At(t, p))
    ensures r.Ok? && r.end > p
  {
    var (n3, p3) := WholePart(t, if At(t, p) == '-' then p + 1 else p);
    var (n4, p4) := FracPart(t, p3, n3);
    var scale := if p4 == p3 then 0 else -(p4 - p3 - 1);
    var (subscale, p5) := ParseExponent(t, p4);
    Ok(Number(if At(t, p) == '-' then -n4 else n4, scale + subscale), p5)
  }

  function ParseExponent(t: string, p: nat): (r: (int, nat))
    ensures r.1 >= p
  {
    if At(t, p) == 'e' || At(t, p) == 'E' then
      if At(t, p + 1) == '-' then
        var (n, q) := Digits(t, p + 2, 0);
        (-n, q)
      else Digits(t, if At(t, p + 1) == '+' then p + 2 else p + 1, 0)
    else (0, p)
  }

  // ----- parse_value, parse_array, parse_object -----

  function ParseValue(t: string, p: nat): (r: Parsed<Json>)
    ensures r.Ok? ==> r.end > p
    decreases |t| - p, 2
  {
    if StartsWith(t, p, "null") then Ok(Null, p + 4)
    else if StartsWith(t, p, "false") then Ok(False, p + 5)
    else if StartsWith(t, p, "true") then Ok(True, p + 4)
    else if At(t, p) == QUOTE then
      var r := ParseString(t, p);
      if r.Fail? then Fail(r.at) else Ok(Str(r.value), r.end)
    else if At(t, p) == '-' || IsDigit(At(t, p)) then ParseNumber(t, p)
    else if At(t, p) == '[' then ParseArray(t, p)
    else if At(t, p) == '{' then ParseObject(t, p)
    else Fail(p)
  }

  function ParseArray(t: string, p: nat): (r: Parsed<Json>)
    requires At(t, p) == '['
    ensures r.Ok? ==> r.end > p
    decreases |t| - p, 0
  {
    var q := Skip(t, p + 1);
    if At(t, q) == ']' then Ok(Arr([]), q + 1)
    else
      var r := ParseItems(t, q);
      if r.Fail? then Fail(r.at)
      else if At(t, r.end) == ']' then Ok(Arr(r.value), r.end + 1)
      else Fail(r.end)
  }

  /** A value and then, after each comma, another one; ends past the trailing blanks. */
  function ParseItems(t: string, p: nat): (r: Parsed<seq<Json>>)
    ensures r.Ok? ==> r.end > p
    decreases |t| - p, 3
  {
    var v := ParseValue(t, Skip(t, p));
    if v.Fail? then Fail(v.at)
    else
      var q := Skip(t, v.end);
      if At(t, q) != ',' then Ok([v.value], q)
      else
        var rest := ParseItems(t, q + 1);
        if rest.Fail? then Fail(rest.at) else Ok([v.value] + rest.value, rest.end)
  }

  function ParseObject(t: string, p: nat): (r: Parsed<Json>)
    requires At(t, p) == '{'
    ensures r.Ok? ==> r.end > p
    decreases |t| - p, 0
  {
    var q := Skip(t, p + 1);
    if At(t, q) == '}' then Ok(Obj([]), q + 1)
    else
      var r := ParseMembers(t, q);
      if r.Fail? then Fail(r.at)
      else if At(t, r.end) == '}' then Ok(Obj(r.value), r.end + 1)
      else Fail(r.end)
  }

  /** One `name : value`; ends past the trailing blanks. */
  function ParseMember(t: string, p: nat): (r: Parsed<Member>)
    ensures r.Ok? ==> r.end > p
    decreases |t| - p, 3
  {
    var name := ParseString(t, Skip(t, p));
    if name.Fail? then Fail(name.at)
    else
      var q := Skip(t, name.end);
      if At(t, q) != ':' then Fail(q)
      else
        var v := ParseValue(t, Skip(t, q + 1));
        if v.Fail? then Fail(v.at) else Ok(Member(name.value, v.value), Skip(t, v.end))
  }

  function ParseMembers(t: string, p: nat): (r: Parsed<seq<Member>>)
    ensures r.Ok? ==> r.end > p
    decreases |t| - p, 4
  {
    var m := ParseMember(t, p);
    if m.Fail? then Fail(m.at)
    else if At(t, m.end) != ',' then Ok([m.value], m.end)
    else
      var rest := ParseMembers(t, m.end + 1);
      if rest.Fail? then Fail(rest.at) else Ok([m.value] + rest.value, rest.end)
  }

  /** cJSON_ParseWithOpts. */
  function Parse(t: string, requireEnd: bool): (r: Parsed<Json>)
  {
    var v := ParseValue(t, Skip(t, 0));
    if v.Ok? && requireEnd then
      var end := Skip(t, v.end);
      if At(t, end) != NUL then Fail(end) else Ok(v.value, end)
    else v
  }
}
