/** HMAC over SHA-256 and SHA-224, as section 2 of RFC 2104 defines it, on the streaming context. */
module Hmac {
  import opened Sha256Words
  import opened Sha256Stream

  const IPAD: byte := 0x36
  const OPAD: byte := 0x5C

  /** The key of one block: hashed when longer than a block, then padded with zeros. */
  function BlockKey(is224: bool, key: seq<byte>): (k: seq<byte>)
    requires |key| < TWO61
    ensures |k| == 64
  {
    var short := if |key| > 64 then Digest(is224, key) else key;
    short + seq(64 - |short|, _ => 0)
  }

  function Masked(k: seq<byte>, mask: byte): (m: seq<byte>)
    ensures |m| == |k|
  {
    seq(|k|, i requires 0 <= i < |k| => k[i] ^ mask)
  }

  /** H(K xor opad, H(K xor ipad, text)). */
  function Mac(is224: bool, key: seq<byte>, text: seq<byte>): (d: seq<byte>)
    requires |key| < TWO61 && 64 + |text| < TWO61
    ensures |d| == if is224 then 28 else 32
  {
    var k := BlockKey(is224, key);
    Digest(is224, Masked(k, OPAD) + Digest(is224, Masked(k, IPAD) + text))
  }

  /** The two masked keys of the context belong to this key. */
  ghost predicate Keyed(ctx: Sha2Context, key: seq<byte>)
    requires |key| < TWO61
    reads ctx`is224, ctx.ipad, ctx.opad
  {
    var k := BlockKey(ctx.is224, key);
    ctx.ipad[..] == Masked(k, IPAD) && ctx.opad[..] == Masked(k, OPAD)
  }

  /** The parts of a context are four different objects. */
  ghost predicate Apart(ctx: Sha2Context) {
    && ctx.buffer.Length == ctx.ipad.Length == ctx.opad.Length == 64
    && ctx.buffer != ctx.ipad && ctx.buffer != ctx.opad && ctx.ipad != ctx.opad
  }

  method Sha2(input: seq<byte>, is224: bool, output: array<byte>)
    requires |input| < TWO32 && output.Length >= 32
    modifies output
    ensures output[..if is224 then 28 else 32] == Digest(is224, input)
  {
    hide Digest, Iv;
    var ctx := new Sha2Context();
    hide ctx.Valid, ctx.Absorbed, ctx.Total, ctx.Accepts;
    ctx.Starts(is224);
    ctx.Ready(|input|);
    ctx.Update(input);
    assert [] + input == input;
    ctx.Finish(output);
  }

  /** Masks a key into the two pads, which beyond it hold the bare masks. */
  method MaskKey(ipad: array<byte>, opad: array<byte>, key: seq<byte>)
    requires ipad.Length == opad.Length == 64 && ipad != opad && |key| <= 64
    modifies ipad, opad
    ensures ipad[..] == Masked(key + seq(64 - |key|, _ => 0), IPAD)
    ensures opad[..] == Masked(key + seq(64 - |key|, _ => 0), OPAD)
  {
    hide Digest;
    forall i | 0 <= i < 64 {
      ipad[i] := IPAD;
    }
    forall i | 0 <= i < 64 {
      opad[i] := OPAD;
    }
    for i := 0 to |key|
      invariant forall j | 0 <= j < i :: ipad[j] == IPAD ^ key[j] && opad[j] == OPAD ^ key[j]
      invariant forall j | i <= j < 64 :: ipad[j] == IPAD && opad[j] == OPAD
    {
      ipad[i] := ipad[i] ^ key[i];
      opad[i] := opad[i] ^ key[i];
    }
    ZeroMask(IPAD);
    ZeroMask(OPAD);
  }

  lemma ZeroMask(mask: byte)
    ensures 0 ^ mask == mask
  {
  }

  /** A key longer than a block is replaced by its digest. */
  method ShortKey(key: seq<byte>, is224: bool) returns (short: seq<byte>)
    requires |key| < TWO32
    ensures |short| <= 64 && BlockKey(is224, key) == short + seq(64 - |short|, _ => 0)
  {
    hide Digest;
    short := key;
    if |key| > 64 {
      var sum := new byte[32];
      Sha2(key, is224, sum);
      short := sum[..if is224 then 28 else 32];
    }
  }

  method HmacStarts(ctx: Sha2Context, key: seq<byte>, is224: bool)
    requires Apart(ctx) && |key| < TWO32
    modifies ctx, ctx.buffer, ctx.ipad, ctx.opad
    ensures ctx.Valid() && ctx.is224 == is224 && Keyed(ctx, key) && ctx.msg == ctx.ipad[..]
  {
    hide Masked, BlockKey, ctx.Valid, ctx.Absorbed, ctx.Total, ctx.Accepts;
    var short := ShortKey(key, is224);
    MaskKey(ctx.ipad, ctx.opad, short);
    ctx.Starts(is224);
    ctx.Ready(|ctx.ipad[..]|);
    ctx.Update(ctx.ipad[..]);
  }

  method HmacFinish(ctx: Sha2Context, output: array<byte>, ghost key: seq<byte>, ghost text: seq<byte>)
    requires Apart(ctx) && ctx.Valid() && |key| < TWO61 && Keyed(ctx, key)
    requires ctx.msg == ctx.ipad[..] + text && |ctx.msg| < TWO61
    requires output.Length >= 32 && output != ctx.buffer && output != ctx.ipad && output != ctx.opad
    modifies ctx, ctx.buffer, output
    ensures ctx.is224 == old(ctx.is224) && Keyed(ctx, key)
    ensures output[..if ctx.is224 then 28 else 32] == Mac(ctx.is224, key, text)
  {
    hide Digest, Masked, BlockKey, ctx.Valid, ctx.Absorbed, ctx.Total, ctx.Accepts;
    var is224 := ctx.is224;
    var hlen := if is224 then 28 else 32;
    var tmpbuf := new byte[32];
    ctx.Finish(tmpbuf);
    ctx.Starts(is224);
    ctx.Ready(|ctx.opad[..]|);
    ctx.Update(ctx.opad[..]);
    ctx.Ready(|tmpbuf[..hlen]|);
    ctx.Update(tmpbuf[..hlen]);
    assert ctx.msg == ctx.opad[..] + tmpbuf[..hlen];
    ctx.Finish(output);
  }

  /** Back to the state after HmacStarts, with the same key. */
  method HmacReset(ctx: Sha2Context, ghost key: seq<byte>)
    requires Apart(ctx) && |key| < TWO61 && Keyed(ctx, key)
    modifies ctx, ctx.buffer
    ensures ctx.Valid() && ctx.is224 == old(ctx.is224) && Keyed(ctx, key) && ctx.msg == ctx.ipad[..]
  {
    hide Masked, BlockKey, ctx.Valid, ctx.Absorbed, ctx.Total, ctx.Accepts, Digest;
    ctx.Starts(ctx.is224);
    ctx.Ready(|ctx.ipad[..]|);
    ctx.Update(ctx.ipad[..]);
  }
}
