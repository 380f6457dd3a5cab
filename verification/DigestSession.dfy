/** Whole uses of the digest contexts: any split of a message into pieces gives the one-shot
    result, the two implementations agree, and a keyed context can be used again. */
module DigestSession {
  import opened Sha256Words
  import opened Sha256Stream
  import opened Hmac

  function Concat(pieces: seq<seq<byte>>): seq<byte> {
    if |pieces| == 0 then [] else Concat(pieces[..|pieces| - 1]) + pieces[|pieces| - 1]
  }

  predicate Short(pieces: seq<seq<byte>>) {
    forall i | 0 <= i < |pieces| :: |pieces[i]| < TWO32
  }

  lemma {:induction false} ConcatLength(pieces: seq<seq<byte>>, n: nat)
    requires n <= |pieces|
    ensures |Concat(pieces[..n])| <= |Concat(pieces)|
    decreases |pieces| - n
  {
    if n == |pieces| {
      assert pieces[..n] == pieces;
    } else {
      ConcatLength(pieces, n + 1);
      ConcatStep(pieces, n);
    }
  }

  lemma ConcatStep(pieces: seq<seq<byte>>, n: nat)
    requires n < |pieces|
    ensures Concat(pieces[..n + 1]) == Concat(pieces[..n]) + pieces[n]
  {
    assert pieces[..n + 1][..n] == pieces[..n];
  }

  /** Feeds pieces to a context that already holds `before`. */
  method FeedAll(ctx: Sha2Context, pieces: seq<seq<byte>>, ghost before: seq<byte>)
    requires Apart(ctx) && ctx.Valid() && ctx.msg == before
    requires Short(pieces) && |before| + |Concat(pieces)| < TWO61
    modifies ctx`total0, ctx`total1, ctx`state, ctx`msg, ctx.buffer
    ensures ctx.Valid() && ctx.msg == before + Concat(pieces)
  {
    hide ctx.Valid, ctx.Absorbed, ctx.Total, ctx.Accepts;
    for i := 0 to |pieces|
      invariant ctx.Valid() && ctx.msg == before + Concat(pieces[..i])
    {
      ConcatLength(pieces, i + 1);
      ConcatStep(pieces, i);
      ctx.Ready(|pieces[i]|);
      ctx.Update(pieces[i]);
    }
    assert pieces[..|pieces|] == pieces;
  }

  /** sha2_file: the pieces are what successive reads return. */
  method Sha2File(pieces: seq<seq<byte>>, is224: bool, output: array<byte>)
    requires Short(pieces) && |Concat(pieces)| < TWO61 && output.Length >= 32
    modifies output
    ensures output[..if is224 then 28 else 32] == Digest(is224, Concat(pieces))
  {
    hide Digest, Concat, Iv;
    var ctx := new Sha2Context();
    hide ctx.Valid, ctx.Absorbed, ctx.Total, ctx.Accepts;
    ctx.Starts(is224);
    FeedAll(ctx, pieces, []);
    assert [] + Concat(pieces) == Concat(pieces);
    ctx.Finish(output);
  }

  /** The same message through both implementations, each in its own pieces. */
  method Agree(pieces: seq<seq<byte>>, others: seq<seq<byte>>) returns (one: array<byte>, other: array<byte>)
    requires Short(pieces) && Short(others) && Concat(pieces) == Concat(others) && |Concat(pieces)| < TWO61
    ensures one.Length == 32 && one[..] == other[..]
  {
    hide Digest;
    one := new byte[32];
    Sha2File(pieces, false, one);
    var sc := new Sha256Context();
    for i := 0 to |others|
      invariant sc.Valid() && sc.msg == Concat(others[..i]) && fresh(sc) && fresh(sc.buffer)
      invariant one[..] == Digest(false, Concat(pieces))
      modifies sc, sc.buffer
    {
      ConcatStep(others, i);
      sc.Update(others[i]);
    }
    assert others[..|others|] == others;
    other := new byte[32];
    sc.Final(other);
  }

  /** Feed and finish, on a context as sha2_hmac_starts or sha2_hmac_reset leaves it. */
  method MacOf(ctx: Sha2Context, text: seq<seq<byte>>, output: array<byte>, ghost key: seq<byte>)
    requires Apart(ctx) && ctx.Valid() && |key| < TWO61 && Keyed(ctx, key) && ctx.msg == ctx.ipad[..]
    requires Short(text) && 64 + |Concat(text)| < TWO61
    requires output.Length >= 32 && output != ctx.buffer && output != ctx.ipad && output != ctx.opad
    modifies ctx, ctx.buffer, output
    ensures ctx.is224 == old(ctx.is224) && Keyed(ctx, key)
    ensures output[..if ctx.is224 then 28 else 32] == Mac(ctx.is224, key, Concat(text))
  {
    hide Mac, Concat, Masked, BlockKey, ctx.Valid, ctx.Absorbed, ctx.Total, ctx.Accepts;
    FeedAll(ctx, text, ctx.ipad[..]);
    HmacFinish(ctx, output, key, Concat(text));
  }

  /** Two texts under one key: start, feed, finish, reset, feed, finish. */
  method MacTwice(key: seq<byte>, is224: bool, text1: seq<seq<byte>>, text2: seq<seq<byte>>)
    returns (mac1: seq<byte>, mac2: seq<byte>)
    requires |key| < TWO32 && Short(text1) && Short(text2)
    requires 64 + |Concat(text1)| < TWO61 && 64 + |Concat(text2)| < TWO61
    ensures mac1 == Mac(is224, key, Concat(text1)) && mac2 == Mac(is224, key, Concat(text2))
  {
    hide Mac, Keyed, Concat;
    var ctx := new Sha2Context();
    hide ctx.Valid, ctx.Absorbed, ctx.Total, ctx.Accepts;
    var output := new byte[32];
    HmacStarts(ctx, key, is224);
    MacOf(ctx, text1, output, key);
    mac1 := output[..if is224 then 28 else 32];
    HmacReset(ctx, key);
    MacOf(ctx, text2, output, key);
    mac2 := output[..if is224 then 28 else 32];
  }
}
