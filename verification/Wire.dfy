/** Bytes in a message: slices of it, and what stands at a position. */
module Wire {
  type byte = x: int | 0 <= x < 256

  /** A pointer into the message and a length. */
  datatype Slice = Slice(at: nat, len: nat)

  predicate Inside(b: seq<byte>, s: Slice) {
    s.at + s.len <= |b|
  }

  function Bytes(b: seq<byte>, s: Slice): seq<byte>
    requires Inside(b, s)
  {
    b[s.at..s.at + s.len]
  }

  /** w is in b at position p. */
  predicate Has(b: seq<byte>, p: nat, w: seq<byte>) {
    p + |w| <= |b| && forall i | 0 <= i < |w| :: b[p + i] == w[i]
  }

  lemma HasSplit(b: seq<byte>, p: nat, v: seq<byte>, w: seq<byte>)
    requires Has(b, p, v + w)
    ensures Has(b, p, v) && Has(b, p + |v|, w)
  {
    var vw := v + w;
    assert forall i | 0 <= i < |v| :: v[i] == vw[i];
    assert forall i | 0 <= i < |w| :: w[i] == vw[|v| + i];
  }

  lemma HasSlice(b: seq<byte>, p: nat, w: seq<byte>)
    requires Has(b, p, w)
    ensures b[p..p + |w|] == w
  {
  }

  /** Writing behind what is already there: a byte, and a copy of several. */
  method Put(buf: array<byte>, p: nat, b: byte, ghost done: seq<byte>) returns (q: nat)
    requires p < buf.Length && buf[..p] == done
    modifies buf
    ensures q == p + 1 && buf[..q] == done + [b]
  {
    buf[p] := b;
    q := p + 1;
  }

  method Copy(buf: array<byte>, p: nat, w: seq<byte>, ghost done: seq<byte>) returns (q: nat)
    requires p + |w| <= buf.Length && buf[..p] == done
    modifies buf
    ensures q == p + |w| && buf[..q] == done + w
  {
    forall i | 0 <= i < |w| {
      buf[p + i] := w[i];
    }
    q := p + |w|;
  }
}
