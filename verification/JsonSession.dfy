/** What a caller of cJSON observes when the heap operations are put together. */
module JsonSession {
  import opened JsonValue
  import opened JsonHeap
  import P = JsonParse
  import S = JsonSafe
  import RT = JsonRoundTrip
  import M = JsonMinify
  import Parser = JsonParser
  import Alloc = JsonPrintAlloc
  import Buffered = JsonPrintBuffered
  import JsonBuffer

  /** The two printers return the same text for every tree, format and initial size. */
  method PrintBoth(item: Node, prebuffer: nat, fmt: bool, ghost v: Json) returns (a: string, b: string)
    requires item.Denotes(v) && Printable(v) && |Print(v, 0, fmt)| + Buffered.SLACK <= JsonBuffer.INT_LIMIT
    ensures a == b == Print(v, 0, fmt)
  {
    hide Print, Node.Denotes, Printable;
    var x := Alloc.PrintValue(item, 0, fmt, v);
    var n := Alloc.StrLen(x, Print(v, 0, fmt));
    a := x[..n];
    var y, out := Buffered.PrintBuffered(item, prebuffer, fmt, v);
    b := y[out..out + n];
  }

  /** A tree printed and parsed again is a new tree that denotes the same value. */
  method Reparse(item: Node, fmt: bool, ghost v: Json) returns (c: Node?)
    requires item.Denotes(v) && Printable(v)
    ensures c != null && fresh(c) && c.Denotes(v) && item.Denotes(v)
  {
    hide Print, Printable, Node.Denotes, P.Parse, S.TextSafe;
    var x := Alloc.PrintValue(item, 0, fmt, v);
    var n := Alloc.StrLen(x, Print(v, 0, fmt));
    RT.RoundTrip(v, fmt);
    var end;
    c, end := Parser.ParseWithOpts(x[..n], true);
  }

  /** Minifying the formatted print in place leaves the unformatted print. */
  method PrintMinified(item: Node, ghost v: Json) returns (text: array<char>)
    requires item.Denotes(v) && Printable(v)
    ensures M.HoldsCString(text, Print(v, 0, false))
  {
    hide Print, Printable, Node.Denotes, M.Minified, M.Closes;
    text := Alloc.PrintValue(item, 0, true, v);
    M.MinifyPrint(v);
    M.Minify(text, Print(v, 0, true));
  }
}
