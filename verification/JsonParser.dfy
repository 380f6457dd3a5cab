/** cJSON's recursive-descent parser, building items on the heap. Each method is proved
    against the function of the same name in JsonParse. */
module JsonParser {
  import opened Bits
  import opened JsonValue
  import opened JsonGrammar
  import opened JsonHeap
  import P = JsonParse
  import S = JsonSafe
  import C = JsonComplete

  /** A returned pointer, or a null with the error pointer that was set. */
  datatype Outcome = Failed(at: nat) | Done(end: nat)

  method Skip(t: string, p: nat) returns (q: nat)
    ensures q == P.Skip(t, p)
  {
    q := p;
    while P.At(t, q) != NUL && P.At(t, q) <= ' '
      invariant p <= q && P.Skip(t, q) == P.Skip(t, p)
      decreases |t| - q
    {
      q := q + 1;
    }
  }

  // ----- parse_string -----

  /** The first pass, which sizes the output. */
  method Count(t: string, p: nat) returns (len: nat)
    requires S.RawEnd(t, p) <= |t|
    ensures len == S.RawLength(t, p)
  {
    len := 0;
    var ptr := p;
    while P.At(t, ptr) != QUOTE && P.At(t, ptr) != NUL
      invariant ptr <= |t| && S.RawEnd(t, ptr) == S.RawEnd(t, p) && len + S.RawLength(t, ptr) == S.RawLength(t, p)
      decreases |t| - ptr
    {
      len := len + 1;
      if P.At(t, ptr) == BACKSLASH {
        ptr := ptr + 1;
      }
      ptr := ptr + 1;
    }
  }

  /** `done` is written, and `more` characters and a terminator still fit. */
  ghost predicate Room(out: array<char>, n: nat, done: string, more: nat)
    reads out
  {
    n + more < out.Length && out[..n] == done
  }

  /** `*ptr2++ = c` */
  method Put(out: array<char>, n: nat, c: char, ghost done: string) returns (m: nat)
    requires Room(out, n, done, 1)
    modifies out
    ensures m == n + 1 && Room(out, m, done + [c], 0)
  {
    out[n] := c;
    m := n + 1;
  }

  /** `*--ptr2 = c` */
  method PutBack(out: array<char>, n: nat, p: nat, m: nat, c: char, ghost done: string, ghost tail: string) returns (q: nat)
    requires n < p <= m < out.Length && out[..n] == done && out[p..m] == tail
    modifies out
    ensures q == p - 1 && out[..n] == done && out[q..m] == [c] + tail
  {
    q := p - 1;
    out[q] := c;
    assert out[q..m] == [out[q]] + out[p..m];
  }

  lemma EncodeLast(uc: nat, left: nat, len: nat, tail: string)
    requires 1 < left <= len <= 4
    ensures P.EncodeBytes(uc, left, len) + tail == P.EncodeBytes(uc / 64, left - 1, len) + ([P.EncodeByte(uc)] + tail)
  {
    hide P.Byte, P.EncodeByte, P.FirstByteMark;
    var e := P.EncodeBytes(uc / 64, left - 1, len);
    assert e + [P.EncodeByte(uc)] + tail == e + ([P.EncodeByte(uc)] + tail);
  }

  lemma EncodeFirst(uc: nat, len: nat)
    requires 1 <= len <= 4
    ensures P.EncodeBytes(uc, 1, len) == [P.Byte(Or(uc, P.FirstByteMark(len)))]
  {
    hide Or, P.Byte, P.FirstByteMark;
  }

  lemma Transcoded(code: nat)
    ensures P.Transcode(code) == P.EncodeBytes(code, P.Utf8Length(code), P.Utf8Length(code)) + ""
  {
    var e := P.EncodeBytes(code, P.Utf8Length(code), P.Utf8Length(code));
    hide P.EncodeBytes;
    assert e + "" == e;
  }

  lemma Whole(out: array<char>, n: nat, m: nat, done: string, w: string)
    requires n <= m < out.Length && out[..n] == done && out[n..m] == w
    ensures Room(out, m, done + w, 0)
  {
    assert out[..m] == out[..n] + out[n..m];
  }

  /** The transcoding switch, which moves behind the encoding and writes backwards from its last byte. */
  method Transcode(out: array<char>, n: nat, code: nat, ghost done: string) returns (m: nat)
    requires Room(out, n, done, |P.Transcode(code)|)
    modifies out
    ensures m == n + |P.Transcode(code)| && Room(out, m, done + P.Transcode(code), 0)
  {
    hide Or, P.Byte, P.EncodeByte, P.EncodeBytes, P.Transcode;
    S.TranscodedLength(code);
    Transcoded(code);
    var len := P.Utf8Length(code);
    m := n + len;
    var uc, left, ptr2 := code, len, m;
    ghost var tail := "";
    while left > 1
      invariant 1 <= left <= len && ptr2 == n + left && out[..n] == done && out[ptr2..m] == tail
      invariant P.EncodeBytes(uc, left, len) + tail == P.Transcode(code)
    {
      EncodeLast(uc, left, len, tail);
      ptr2 := PutBack(out, n, ptr2, m, P.EncodeByte(uc), done, tail);
      tail := [P.EncodeByte(uc)] + tail;
      uc, left := uc / 64, left - 1;
    }
    EncodeFirst(uc, len);
    ptr2 := PutBack(out, n, ptr2, m, P.Byte(Or(uc, P.FirstByteMark(len))), done, tail);
    Whole(out, n, m, done, P.Transcode(code));
  }

  /** An escape, from the character behind its backslash. */
  method Unescape(out: array<char>, n: nat, t: string, p: nat, ghost done: string) returns (m: nat, q: nat)
    requires Room(out, n, done, |P.Unescape(t, p).0|)
    modifies out
    ensures q == P.Unescape(t, p).1 && m == n + |P.Unescape(t, p).0| && Room(out, m, done + P.Unescape(t, p).0, 0)
  {
    m, q := n, p;
    assert done + "" == done;
    match P.At(t, p) {
      case 'b' => m := Put(out, n, 8 as char, done);
      case 'f' => m := Put(out, n, 12 as char, done);
      case 'n' => m := Put(out, n, '\n', done);
      case 'r' => m := Put(out, n, '\r', done);
      case 't' => m := Put(out, n, '\t', done);
      case 'u' => m, q := UnescapeUnicode(out, n, t, p, done);
      case c => m := Put(out, n, c, done);
    }
    q := q + 1;
  }

  /** A Unicode escape, up to its last character. */
  method UnescapeUnicode(out: array<char>, n: nat, t: string, p: nat, ghost done: string) returns (m: nat, q: nat)
    requires Room(out, n, done, |P.UnescapeUnicode(t, p).0|)
    modifies out
    ensures q + 1 == P.UnescapeUnicode(t, p).1
    ensures m == n + |P.UnescapeUnicode(t, p).0| && Room(out, m, done + P.UnescapeUnicode(t, p).0, 0)
  {
    hide P.Transcode, P.PairCode, P.Hex4, P.At;
    m, q := n, p;
    assert done + "" == done;
    var uc := P.Hex4(t, q + 1);
    q := q + 4;
    if (0xDC00 <= uc <= 0xDFFF) || uc == 0 {
      return;
    }
    if 0xD800 <= uc <= 0xDBFF {
      if P.At(t, q + 1) != BACKSLASH || P.At(t, q + 2) != 'u' {
        return;
      }
      var uc2 := P.Hex4(t, q + 3);
      q := q + 6;
      if uc2 < 0xDC00 || uc2 > 0xDFFF {
        return;
      }
      uc := P.PairCode(uc, uc2);
    }
    m := Transcode(out, n, uc, done);
  }

  /** What is written and what the second pass still decodes make up the body, which fits. */
  ghost predicate Decoding(out: array<char>, n: nat, t: string, p: nat, body: (string, nat))
    reads out
  {
    && n <= out.Length && out[..n] + P.StringBody(t, p).0 == body.0 && P.StringBody(t, p).1 == body.1
    && |body.0| < out.Length
  }

  /** One turn of the second pass. */
  method Decode(out: array<char>, n: nat, t: string, p: nat, ghost body: (string, nat)) returns (m: nat, q: nat)
    requires P.At(t, p) != QUOTE && P.At(t, p) != NUL && Decoding(out, n, t, p, body)
    modifies out
    ensures p < q && p < |t| && Decoding(out, m, t, q, body)
  {
    hide P.StringBody, P.Unescape, P.At;
    ghost var done := out[..n];
    BodyStep(t, p, done);
    if P.At(t, p) != BACKSLASH {
      m := Put(out, n, P.At(t, p), done);
      q := p + 1;
    } else {
      m, q := Unescape(out, n, t, p + 1, done);
    }
  }

  lemma BodyStep(t: string, p: nat, s: string)
    requires P.At(t, p) != QUOTE && P.At(t, p) != NUL
    ensures p < |t|
    ensures P.At(t, p) != BACKSLASH ==>
              var rest := P.StringBody(t, p + 1);
              s + P.StringBody(t, p).0 == s + [P.At(t, p)] + rest.0 && P.StringBody(t, p).1 == rest.1
    ensures P.At(t, p) == BACKSLASH ==>
              var (out, q) := P.Unescape(t, p + 1);
              var rest := P.StringBody(t, q);
              p < q && s + P.StringBody(t, p).0 == s + out + rest.0 && P.StringBody(t, p).1 == rest.1
  {
    hide P.Unescape;
    if P.At(t, p) == BACKSLASH {
      var (out, q) := P.Unescape(t, p + 1);
      assert s + (out + P.StringBody(t, q).0) == s + out + P.StringBody(t, q).0;
    } else {
      var rest := P.StringBody(t, p + 1).0;
      assert s + ([P.At(t, p)] + rest) == s + [P.At(t, p)] + rest;
    }
  }

  lemma BodyEnd(t: string, p: nat)
    requires P.At(t, p) == QUOTE || P.At(t, p) == NUL
    ensures P.StringBody(t, p) == ("", p)
  {
  }

  /** Counts, allocates and decodes: the string stands in a new array of the counted size, with its
      terminator behind it. */
  method ParseString(t: string, p: nat) returns (out: array<char>, n: nat, r: Outcome)
    requires S.StringSafe(t, p)
    ensures match P.ParseString(t, p)
            case Fail(at) => r == Failed(at)
            case Ok(v, end) =>
              && r == Done(end) && fresh(out) && out.Length == S.RawLength(t, p + 1) + 1
              && n < out.Length && out[..n] == v && out[n] == NUL && (NulFree(t) ==> NulFree(v))
  {
    hide P.StringBody, P.At, S.RawEnd, S.RawLength, S.Within;
    if P.At(t, p) != QUOTE {
      out := new char[0];
      return out, 0, Failed(p);
    }
    var len := Count(t, p + 1);
    out := new char[len + 1];
    n := 0;
    var ptr := p + 1;
    ghost var body := P.StringBody(t, p + 1);
    S.BodyFits(t, p + 1);
    S.WithinIsEnd(t, p + 1, S.RawEnd(t, p + 1));
    if NulFree(t) {
      C.DecodedNulFree(t, p + 1);
    }
    assert out[..n] + body.0 == body.0;
    while P.At(t, ptr) != QUOTE && P.At(t, ptr) != NUL
      invariant ptr <= |t| && fresh(out) && out.Length == len + 1 && Decoding(out, n, t, ptr, body)
      decreases |t| - ptr
    {
      n, ptr := Decode(out, n, t, ptr, body);
    }
    BodyEnd(t, ptr);
    assert out[..n] + "" == out[..n];
    out[n] := NUL;
    if P.At(t, ptr) == QUOTE {
      ptr := ptr + 1;
    }
    r := Done(ptr);
  }

  // ----- parse_number -----

  method ReadDigits(t: string, p: nat, n: int) returns (m: int, q: nat)
    ensures (m, q) == P.Digits(t, p, n)
  {
    m, q := n, p;
    while IsDigit(P.At(t, q))
      invariant P.Digits(t, q, m) == P.Digits(t, p, n)
      decreases |t| - q
    {
      m, q := m * 10 + DigitValue(P.At(t, q)), q + 1;
    }
  }

  method ReadExponent(t: string, p: nat) returns (subscale: int, q: nat)
    ensures (subscale, q) == P.ParseExponent(t, p)
  {
    subscale, q := 0, p;
    if P.At(t, q) == 'e' || P.At(t, q) == 'E' {
      var negative := false;
      q := q + 1;
      if P.At(t, q) == '+' {
        q := q + 1;
      } else if P.At(t, q) == '-' {
        negative, q := true, q + 1;
      }
      subscale, q := ReadDigits(t, q, 0);
      if negative {
        subscale := -subscale;
      }
    }
  }

  method ParseNumber(item: Node, t: string, p: nat) returns (end: nat)
    requires P.At(t, p) == '-' || IsDigit(P.At(t, p))
    modifies item`kind, item`mantissa, item`exponent
    ensures item.kind == KNumber
    ensures P.ParseNumber(t, p) == P.Ok(Number(item.mantissa, item.exponent), end)
  {
    hide P.Digits, P.ParseExponent;
    var num: nat, n: int, scale: int, subscale: int := p, 0, 0, 0;
    var negative := false;
    if P.At(t, num) == '-' {
      negative, num := true, num + 1;
    }
    if P.At(t, num) == '0' {
      num := num + 1;
    }
    if '1' <= P.At(t, num) <= '9' {
      n, num := ReadDigits(t, num, 0);
    }
    if P.At(t, num) == '.' && IsDigit(P.At(t, num + 1)) {
      var first := num + 1;
      n, num := ReadDigits(t, first, n);
      scale := first - num;
    }
    subscale, num := ReadExponent(t, num);
    item.mantissa := if negative then -n else n;
    item.exponent := scale + subscale;
    item.kind := KNumber;
    end := num;
  }

  // ----- parse_value, parse_array, parse_object -----

  /** An item the parser may fill in: no children yet. */
  ghost predicate Blank(item: Node)
    reads item
  {
    item.child == null && item.kids == [] && item.desc == {}
  }

  /** The outcome agrees with the parsing function, and on success the item denotes the value. */
  ghost predicate Agrees(r: Outcome, spec: P.Parsed<Json>, item: Node)
    reads item, item.desc
  {
    match spec
    case Fail(at) => r == Failed(at)
    case Ok(v, end) => r == Done(end) && item.Denotes(v)
  }

  method ParseValue(item: Node, t: string, p: nat) returns (r: Outcome)
    requires Blank(item) && p <= |t| && S.ValueSafe(t, p)
    modifies item`kind, item`valuestring, item`mantissa, item`exponent, item`child, item`kids, item`desc
    ensures Agrees(r, P.ParseValue(t, p), item) && fresh(item.desc)
    decreases |t| - p, 2
  {
    if P.StartsWith(t, p, "null") {
      item.kind := KNull;
      return Done(p + 4);
    }
    if P.StartsWith(t, p, "false") {
      item.kind := KFalse;
      return Done(p + 5);
    }
    if P.StartsWith(t, p, "true") {
      item.kind := KTrue;
      return Done(p + 4);
    }
    if P.At(t, p) == QUOTE {
      var out, n;
      out, n, r := ParseString(t, p);
      item.valuestring := out[..n];
      item.kind := KString;
      return;
    }
    if P.At(t, p) == '-' || IsDigit(P.At(t, p)) {
      var end := ParseNumber(item, t, p);
      return Done(end);
    }
    if P.At(t, p) == '[' {
      r := ParseArray(item, t, p);
      return;
    }
    if P.At(t, p) == '{' {
      r := ParseObject(item, t, p);
      return;
    }
    r := Failed(p);
  }

  /** What remains of ParseItems when `vs` have been read and `p` follows their blanks. */
  ghost function MoreItems(t: string, vs: seq<Json>, p: nat): P.Parsed<seq<Json>> {
    if P.At(t, p) != ',' then P.Ok(vs, p)
    else
      var rest := P.ParseItems(t, p + 1);
      if rest.Fail? then P.Fail(rest.at) else P.Ok(vs + rest.value, rest.end)
  }

  lemma MoreItemsStep(t: string, vs: seq<Json>, p: nat)
    requires P.At(t, p) == ','
    ensures var v := P.ParseValue(t, P.Skip(t, p + 1));
            MoreItems(t, vs, p) == if v.Fail? then P.Fail(v.at) else MoreItems(t, vs + [v.value], P.Skip(t, v.end))
  {
    hide P.ParseValue, P.Skip;
    var v := P.ParseValue(t, P.Skip(t, p + 1));
    if v.Ok? {
      var q := P.Skip(t, v.end);
      var rest := P.ParseItems(t, q + 1);
      if P.At(t, q) == ',' && rest.Ok? {
        assert vs + ([v.value] + rest.value) == vs + [v.value] + rest.value;
      }
    }
  }

  lemma FirstItem(t: string, p: nat)
    ensures var v := P.ParseValue(t, P.Skip(t, p));
            P.ParseItems(t, p) == if v.Fail? then P.Fail(v.at) else MoreItems(t, [v.value], P.Skip(t, v.end))
  {
  }

  lemma ItemsSafeStep(t: string, p: nat)
    requires S.ItemsSafe(t, p)
    ensures var s := P.Skip(t, p);
            && S.ValueSafe(t, s)
            && var v := P.ParseValue(t, s);
               v.Ok? ==> var q := P.Skip(t, v.end); P.At(t, q) == ',' ==> S.ItemsSafe(t, q + 1)
  {
    hide P.ParseValue, P.Skip, S.ValueSafe;
  }

  /** An item whose only child has just been filled in. */
  lemma OnlyChild(item: Node, child: Node, v: Json)
    requires item.child == child && item.kids == [child] && item.desc == child.Span() && item !in item.desc
    requires child.next == null && child.prev == null && child.Denotes(v)
    ensures item.Holds([v])
  {
  }

  method ParseArray(item: Node, t: string, p: nat) returns (r: Outcome)
    requires Blank(item) && P.At(t, p) == '[' && S.ArraySafe(t, p)
    modifies item`kind, item`valuestring, item`mantissa, item`exponent, item`child, item`kids, item`desc
    ensures Agrees(r, P.ParseArray(t, p), item) && fresh(item.desc)
    decreases |t| - p, 0
  {
    item.kind := KArray;
    var value := Skip(t, p + 1);
    if P.At(t, value) == ']' {
      return Done(value + 1);
    }
    ghost var vs;
    r, vs := ParseItems(item, t, value);
    if r.Failed? {
      return;
    }
    value := r.end;
    if P.At(t, value) == ']' {
      return Done(value + 1);
    }
    r := Failed(value);
  }

  /** Makes a new item the first child and parses a value into it. */
  method ParseFirstItem(item: Node, t: string, p: nat) returns (child: Node, r: Outcome)
    requires Blank(item) && p <= |t| && S.ValueSafe(t, p)
    modifies item`child, item`kids, item`desc
    ensures match P.ParseValue(t, p)
            case Fail(at) => r == Failed(at)
            case Ok(v, end) => r == Done(end) && item.Holds([v]) && |item.kids| == 1 && child == item.kids[0]
    ensures fresh(item.desc) && fresh(child)
    decreases |t| - p, 3
  {
    hide P.ParseValue, S.ValueSafe, Node.Linked, Node.Denotes;
    child := new Node();
    item.child := child;
    item.kids := [child];
    r := ParseValue(child, t, p);
    if r.Done? {
      item.desc := child.Span();
      OnlyChild(item, child, P.ParseValue(t, p).value);
    }
  }

  /** Links a new item behind the last child and parses a value into it. */
  method ParseNextItem(item: Node, child: Node, t: string, p: nat, ghost vs: seq<Json>)
    returns (newItem: Node, r: Outcome)
    requires item.Holds(vs) && vs != [] && |item.kids| == |vs| && child == item.kids[|vs| - 1] && p <= |t|
    requires S.ValueSafe(t, p)
    modifies item`kids, item`desc, child`next
    ensures match P.ParseValue(t, p)
            case Fail(at) => r == Failed(at)
            case Ok(v, end) => r == Done(end) && item.Holds(vs + [v]) && |item.kids| == |vs| + 1 && newItem == item.kids[|vs|]
    ensures fresh(item.desc - old(item.desc)) && fresh(newItem)
    decreases |t| - p, 3
  {
    hide P.ParseValue, S.ValueSafe, Node.Linked, Node.Denotes;
    item.HoldsBasics(vs);
    newItem := new Node();
    item.LinkAfter(child, newItem);
    r := ParseValue(newItem, t, p);
    if r.Done? {
      item.desc := item.desc + newItem.Span();
      item.GrownHolds(vs, P.ParseValue(t, p).value);
    }
  }

  /** The children of an array, linked up as they are read. */
  method ParseItems(item: Node, t: string, start: nat) returns (r: Outcome, ghost vs: seq<Json>)
    requires Blank(item) && start <= |t| && S.ItemsSafe(t, start)
    modifies item`child, item`kids, item`desc
    ensures match P.ParseItems(t, start)
            case Fail(at) => r == Failed(at)
            case Ok(ws, end) => r == Done(end) && vs == ws && item.Holds(vs)
    ensures fresh(item.desc)
    decreases |t| - start, 4
  {
    hide P.ParseValue, P.ParseItems, P.Skip, S.ValueSafe, S.ItemsSafe, Node.Holds;
    vs := [];
    FirstItem(t, start);
    ItemsSafeStep(t, start);
    var value := Skip(t, start);
    var child;
    child, r := ParseFirstItem(item, t, value);
    if r.Failed? {
      return;
    }
    vs := [P.ParseValue(t, value).value];
    value := Skip(t, r.end);
    while P.At(t, value) == ','
      invariant item.Holds(vs) && fresh(item.desc) && fresh(child)
      invariant vs != [] && |item.kids| == |vs| && child == item.kids[|vs| - 1]
      invariant start < value && MoreItems(t, vs, value) == P.ParseItems(t, start)
      invariant P.At(t, value) == ',' ==> S.ItemsSafe(t, value + 1)
      decreases |t| - value
    {
      MoreItemsStep(t, vs, value);
      ItemsSafeStep(t, value + 1);
      value := Skip(t, value + 1);
      child, r := ParseNextItem(item, child, t, value, vs);
      if r.Failed? {
        return;
      }
      vs := vs + [P.ParseValue(t, value).value];
      value := Skip(t, r.end);
    }
    r := Done(value);
  }

  ghost function MoreMembers(t: string, ms: seq<Member>, p: nat): P.Parsed<seq<Member>> {
    if P.At(t, p) != ',' then P.Ok(ms, p)
    else
      var rest := P.ParseMembers(t, p + 1);
      if rest.Fail? then P.Fail(rest.at) else P.Ok(ms + rest.value, rest.end)
  }

  lemma MoreMembersStep(t: string, ms: seq<Member>, p: nat)
    requires P.At(t, p) == ','
    ensures var m := P.ParseMember(t, p + 1);
            MoreMembers(t, ms, p) == if m.Fail? then P.Fail(m.at) else MoreMembers(t, ms + [m.value], m.end)
  {
    hide P.ParseMember;
    var m := P.ParseMember(t, p + 1);
    if m.Ok? {
      var rest := P.ParseMembers(t, m.end + 1);
      if P.At(t, m.end) == ',' && rest.Ok? {
        assert ms + ([m.value] + rest.value) == ms + [m.value] + rest.value;
      }
    }
  }

  lemma FirstMember(t: string, p: nat)
    ensures var m := P.ParseMember(t, p);
            P.ParseMembers(t, p) == if m.Fail? then P.Fail(m.at) else MoreMembers(t, [m.value], m.end)
  {
  }

  lemma MembersSafeStep(t: string, p: nat)
    requires S.MembersSafe(t, p)
    ensures S.MemberSafe(t, p)
    ensures var m := P.ParseMember(t, p); m.Ok? && P.At(t, m.end) == ',' ==> S.MembersSafe(t, m.end + 1)
  {
    hide P.ParseMember, S.MemberSafe;
  }

  method ParseObject(item: Node, t: string, p: nat) returns (r: Outcome)
    requires Blank(item) && P.At(t, p) == '{' && S.ObjectSafe(t, p)
    modifies item`kind, item`valuestring, item`mantissa, item`exponent, item`child, item`kids, item`desc
    ensures Agrees(r, P.ParseObject(t, p), item) && fresh(item.desc)
    decreases |t| - p, 0
  {
    item.kind := KObject;
    var value := Skip(t, p + 1);
    if P.At(t, value) == '}' {
      return Done(value + 1);
    }
    ghost var ms, vs;
    r, ms, vs := ParseMembers(item, t, value);
    if r.Failed? {
      return;
    }
    value := r.end;
    if P.At(t, value) == '}' {
      item.HoldsDenotes(vs, ms);
      return Done(value + 1);
    }
    r := Failed(value);
  }

  /** A name, a colon and a value, read into one item. */
  method ParseMember(child: Node, t: string, start: nat) returns (r: Outcome)
    requires Blank(child) && start <= |t| && S.MemberSafe(t, start)
    modifies child`kind, child`valuestring, child`mantissa, child`exponent, child`child, child`kids, child`desc
    modifies child`name
    ensures match P.ParseMember(t, start)
            case Fail(at) => r == Failed(at)
            case Ok(m, end) => r == Done(end) && child.name == Some(m.name) && child.Denotes(m.value)
    ensures fresh(child.desc)
    decreases |t| - start, 3
  {
    hide P.ParseString, P.ParseValue, P.Skip, S.StringSafe, S.ValueSafe, Node.Denotes;
    var value := Skip(t, start);
    var out, n;
    out, n, r := ParseString(t, value);
    if r.Failed? {
      return;
    }
    child.kind := KString;
    child.name, child.valuestring := Some(out[..n]), "";
    value := Skip(t, r.end);
    if P.At(t, value) != ':' {
      return Failed(value);
    }
    value := Skip(t, value + 1);
    r := ParseValue(child, t, value);
    if r.Failed? {
      return;
    }
    value := Skip(t, r.end);
    r := Done(value);
  }

  /** The children hold `vs` under the names of `ms`. */
  ghost predicate Names(item: Node, ms: seq<Member>, vs: seq<Json>)
    reads item, item.desc
  {
    && item.Holds(vs) && |ms| == |vs|
    && (forall i :: 0 <= i < |vs| ==> ms[i].value == vs[i])
    && (forall i :: 0 <= i < |vs| ==> item.kids[i].name == Some(ms[i].name))
  }

  /** Makes a new item the first child and parses a member into it. */
  method ParseFirstMember(item: Node, t: string, p: nat) returns (child: Node, r: Outcome)
    requires Blank(item) && p <= |t| && S.MemberSafe(t, p)
    modifies item`child, item`kids, item`desc
    ensures match P.ParseMember(t, p)
            case Fail(at) => r == Failed(at)
            case Ok(m, end) => r == Done(end) && Names(item, [m], [m.value]) && child == item.kids[0]
    ensures fresh(item.desc) && fresh(child)
    decreases |t| - p, 4
  {
    hide P.ParseMember, S.MemberSafe, Node.Linked, Node.Denotes;
    child := new Node();
    item.child := child;
    item.kids := [child];
    r := ParseMember(child, t, p);
    if r.Done? {
      item.desc := child.Span();
      OnlyChild(item, child, P.ParseMember(t, p).value.value);
    }
  }

  /** Links a new item behind the last child and parses a member into it. */
  method ParseNextMember(item: Node, child: Node, t: string, p: nat, ghost ms: seq<Member>, ghost vs: seq<Json>)
    returns (newItem: Node, r: Outcome)
    requires Names(item, ms, vs) && vs != [] && child == item.kids[|vs| - 1] && p <= |t|
    requires S.MemberSafe(t, p)
    modifies item`kids, item`desc, child`next
    ensures match P.ParseMember(t, p)
            case Fail(at) => r == Failed(at)
            case Ok(m, end) =>
              r == Done(end) && Names(item, ms + [m], vs + [m.value]) && newItem == item.kids[|vs|]
    ensures fresh(item.desc - old(item.desc)) && fresh(newItem)
    decreases |t| - p, 4
  {
    hide P.ParseMember, S.MemberSafe, Node.Linked, Node.Denotes;
    item.HoldsBasics(vs);
    newItem := new Node();
    item.LinkAfter(child, newItem);
    r := ParseMember(newItem, t, p);
    if r.Done? {
      item.desc := item.desc + newItem.Span();
      item.GrownHolds(vs, P.ParseMember(t, p).value.value);
    }
  }

  /** The children of an object, linked up as they are read. */
  method ParseMembers(item: Node, t: string, start: nat)
    returns (r: Outcome, ghost ms: seq<Member>, ghost vs: seq<Json>)
    requires Blank(item) && start <= |t| && S.MembersSafe(t, start)
    modifies item`child, item`kids, item`desc
    ensures match P.ParseMembers(t, start)
            case Fail(at) => r == Failed(at)
            case Ok(ns, end) => r == Done(end) && ms == ns && Names(item, ms, vs)
    ensures fresh(item.desc)
    decreases |t| - start, 5
  {
    hide P.ParseMember, P.ParseMembers, S.MemberSafe, S.MembersSafe, Node.Linked, Node.Separate, Node.Denotes;
    ms, vs := [], [];
    FirstMember(t, start);
    MembersSafeStep(t, start);
    var child;
    child, r := ParseFirstMember(item, t, start);
    if r.Failed? {
      return;
    }
    ms := [P.ParseMember(t, start).value];
    vs := [ms[0].value];
    var value := r.end;
    while P.At(t, value) == ','
      invariant Names(item, ms, vs) && fresh(item.desc) && fresh(child)
      invariant vs != [] && child == item.kids[|vs| - 1]
      invariant start < value && MoreMembers(t, ms, value) == P.ParseMembers(t, start)
      invariant P.At(t, value) == ',' ==> S.MembersSafe(t, value + 1)
      decreases |t| - value
    {
      MoreMembersStep(t, ms, value);
      MembersSafeStep(t, value + 1);
      ghost var m := P.ParseMember(t, value + 1);
      child, r := ParseNextMember(item, child, t, value + 1, ms, vs);
      if r.Failed? {
        return;
      }
      ms, vs := ms + [m.value], vs + [m.value.value];
      value := r.end;
    }
    r := Done(value);
  }

  /** cJSON_ParseWithOpts: a new tree that denotes the parsed value, or null with the
      position of the error. */
  method ParseWithOpts(t: string, requireEnd: bool) returns (c: Node?, end: nat)
    requires S.TextSafe(t)
    ensures match P.Parse(t, requireEnd)
            case Fail(at) => c == null && end == at
            case Ok(v, e) => c != null && fresh(c) && fresh(c.desc) && c.Denotes(v) && end == e
  {
    var root := new Node();
    var value := Skip(t, 0);
    var r := ParseValue(root, t, value);
    if r.Failed? {
      return null, r.at;
    }
    end := r.end;
    if requireEnd {
      end := Skip(t, end);
      if P.At(t, end) != NUL {
        return null, end;
      }
    }
    c := root;
  }
}
