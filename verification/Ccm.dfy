/** Counter mode with CBC-MAC: sections 2.2 to 2.4 of RFC 3610 with an 8-byte authentication field
    (M = 8) and a 2-byte length field (L = 2), and the loops of kernel/drivers/net/iwlwifi.c that
    compute it. The block cipher is a parameter. */
module Ccm {
  import opened Basics
  import opened Bytes

  type Block = b: seq<byte> | |b| == 16 witness seq(16, _ => 0)
  type Nonce = n: seq<byte> | |n| == 13 witness seq(13, _ => 0)
  type Cipher = (Block, Block) -> Block

  const M := 8
  const L := 2

  // ---------------------------------------------------------------- RFC 3610

  /** Block `i` of a string that is cut into blocks, the last one zero-filled. */
  function Chunk(s: seq<byte>, i: nat): Block
    requires 16 * i < |s|
  {
    if 16 * i + 16 <= |s| then s[16 * i..16 * i + 16]
    else s[16 * i..] + Zeros(16 * i + 16 - |s|)
  }

  function Chunks(s: seq<byte>): seq<Block> {
    seq((|s| + 15) / 16, i requires 0 <= i < (|s| + 15) / 16 => Chunk(s, i))
  }

  /** A number in two bytes, most significant first. */
  function Two(n: nat): (r: seq<byte>)
    ensures |r| == 2
  {
    [n / 256 % 256, n % 256]
  }

  function Four(n: nat): (r: seq<byte>)
    ensures |r| == 4
  {
    Two(n / 0x1_0000) + Two(n)
  }

  /** How the length of the additional data is written (section 2.2). */
  function LengthOf(n: nat): seq<byte> {
    if n < 0xff00 then Two(n)
    else if n < 0x1_0000_0000 then [0xff, 0xfe] + Four(n)
    else [0xff, 0xff] + Four(n / 0x1_0000_0000) + Four(n)
  }

  /** The blocks B_0, B_1, ... that are authenticated. */
  function Authenticated(nonce: Nonce, aad: seq<byte>, m: seq<byte>): (r: seq<Block>)
    ensures |r| > 0
  {
    var flags := (if aad == [] then 0 else 64) + 8 * ((M - 2) / 2) + (L - 1);
    var first: Block := [flags] + nonce + Two(|m|);
    [first] + (if aad == [] then [] else Chunks(LengthOf(|aad|) + aad)) + Chunks(m)
  }

  /** The last of the values X_1 = E(K, B_0), X_(i+1) = E(K, X_i xor B_i). */
  function Chain(aes: Cipher, k: Block, blocks: seq<Block>): Block
    requires |blocks| > 0
  {
    var n := |blocks| - 1;
    if n == 0 then aes(k, blocks[0]) else aes(k, XorSeq(Chain(aes, k, blocks[..n]), blocks[n]))
  }

  /** The authentication field T. */
  function Tag(aes: Cipher, k: Block, nonce: Nonce, aad: seq<byte>, m: seq<byte>): (t: seq<byte>)
    ensures |t| == M
  {
    Chain(aes, k, Authenticated(nonce, aad, m))[..M]
  }

  /** The counter block A_i and the key stream block S_i. */
  function CounterBlock(nonce: Nonce, i: nat): Block {
    [L - 1] + nonce + Two(i)
  }

  function Stream(aes: Cipher, k: Block, nonce: Nonce, i: nat): Block {
    aes(k, CounterBlock(nonce, i))
  }

  /** Byte `j` of a message, masked with the key stream that starts at S_i. */
  function MaskedByte(aes: Cipher, k: Block, nonce: Nonce, i: nat, m: seq<byte>, j: nat): byte
    requires j < |m|
  {
    Xor(m[j], Stream(aes, k, nonce, i + j / 16)[j % 16])
  }

  function Masked(aes: Cipher, k: Block, nonce: Nonce, i: nat, m: seq<byte>): (r: seq<byte>)
    ensures |r| == |m|
  {
    seq(|m|, j requires 0 <= j < |m| => MaskedByte(aes, k, nonce, i, m, j))
  }

  /** The encrypted message followed by the encrypted authentication value U. */
  function Encrypt(aes: Cipher, k: Block, nonce: Nonce, aad: seq<byte>, m: seq<byte>): (c: seq<byte>)
    ensures |c| == |m| + M
  {
    Masked(aes, k, nonce, 1, m) + XorSeq(Tag(aes, k, nonce, aad, m), Stream(aes, k, nonce, 0)[..M])
  }

  lemma MaskedUndo(aes: Cipher, k: Block, nonce: Nonce, i: nat, m: seq<byte>)
    ensures Masked(aes, k, nonce, i, Masked(aes, k, nonce, i, m)) == m
  {
    var c := Masked(aes, k, nonce, i, m);
    forall j | 0 <= j < |m| ensures Masked(aes, k, nonce, i, c)[j] == m[j] {
      XorUndo(m[j], Stream(aes, k, nonce, i + j / 16)[j % 16]);
    }
  }

  // ---------------------------------------------------------------- the loops

  /** What the driver feeds to the CBC-MAC: always the flag for additional data, and a length field
      of two bytes whatever the length. */
  function Fed(nonce: Nonce, aad: seq<byte>, m: seq<byte>): (r: seq<Block>)
    ensures |r| > 0
  {
    [FirstFed(nonce, m)] + (if aad == [] then [] else Chunks(Two(|aad|) + aad)) + Chunks(m)
  }

  function FirstFed(nonce: Nonce, m: seq<byte>): Block {
    [0x59] + nonce + Two(|m|)
  }

  /** For the lengths that the two-byte format is meant for, and no others, that is what the
      standard asks for. */
  lemma FedIsAuthenticated(nonce: Nonce, aad: seq<byte>, m: seq<byte>)
    requires |aad| < TWO_32
    ensures Fed(nonce, aad, m) == Authenticated(nonce, aad, m) <==> 0 < |aad| < 0xff00
  {
    if aad == [] {
      assert Fed(nonce, aad, m)[0][0] != Authenticated(nonce, aad, m)[0][0];
    } else if |aad| >= 0xff00 {
      LongDiffers(nonce, aad, m);
    }
  }

  lemma LongDiffers(nonce: Nonce, aad: seq<byte>, m: seq<byte>)
    requires 0xff00 <= |aad| < TWO_32
    ensures Fed(nonce, aad, m) != Authenticated(nonce, aad, m)
  {
    hide Chunk, Two, Four;
    var f, g := Two(|aad|) + aad, LengthOf(|aad|) + aad;
    if Two(|aad|) == [0xff, 0xfe] {
      OneChunkMore(|aad|);
      assert |Chunks(f)| < |Chunks(g)|;
    } else {
      ChunkHead(f, Two(|aad|));
      ChunkHead(g, [0xff, 0xfe]);
      assert Fed(nonce, aad, m)[1] == Chunk(f, 0) && Authenticated(nonce, aad, m)[1] == Chunk(g, 0);
      assert Fed(nonce, aad, m)[1][..2] != Authenticated(nonce, aad, m)[1][..2];
    }
  }

  lemma ChunkHead(s: seq<byte>, head: seq<byte>)
    requires |s| >= 16 && |head| == 2 && s[..2] == head
    ensures Chunk(s, 0)[..2] == head
  {
  }

  lemma OneChunkMore(n: nat)
    requires Two(n) == [0xff, 0xfe]
    ensures (n + 2 + 15) / 16 < (n + 6 + 15) / 16
  {
    assert n % 256 == 0xfe;
  }

  method XorBlock(dst: array<byte>, src: array<byte>)
    requires dst.Length == 16 && src.Length == 16 && dst != src
    modifies dst
    ensures dst[..] == XorSeq(old(dst[..]), src[..])
  {
    for i := 0 to 16
      invariant forall j :: i <= j < 16 ==> dst[j] == old(dst[j])
      invariant forall j :: 0 <= j < i ==> dst[j] == Xor(old(dst[j]), src[j])
    {
      dst[i] := Xor(dst[i], src[i]);
    }
  }

  /** A block of `take` bytes of `data` from `off` on, zero-filled. */
  method LoadBlock(block: array<byte>, at: nat, data: seq<byte>, off: nat, take: nat)
    requires block.Length == 16 && at + take <= 16 && off + take <= |data|
    modifies block
    ensures block[..] == Zeros(at) + data[off..off + take] + Zeros(16 - at - take)
  {
    for i := 0 to 16
      invariant forall j :: 0 <= j < i ==> block[j] == 0
    {
      block[i] := 0;
    }
    for i := 0 to take
      invariant forall j :: 0 <= j < at || at + i <= j < 16 ==> block[j] == 0
      invariant forall j :: at <= j < at + i ==> block[j] == data[off + j - at]
    {
      block[at + i] := data[off + i];
    }
  }

  method EncryptInPlace(aes: Cipher, k: Block, x: array<byte>)
    requires x.Length == 16
    modifies x
    ensures x[..] == aes(k, old(x[..]))
  {
    var y := aes(k, x[..]);
    for i := 0 to 16
      invariant x[..i] == y[..i]
    {
      x[i] := y[i];
    }
    assert x[..] == x[..16] && y == y[..16];
  }

  /** One more block through the cipher. */
  method Absorb(aes: Cipher, k: Block, x: array<byte>, block: array<byte>, ghost done: seq<Block>)
    requires x.Length == 16 && block.Length == 16 && x != block
    requires |done| > 0 && x[..] == Chain(aes, k, done)
    modifies x
    ensures x[..] == Chain(aes, k, done + [block[..]])
  {
    XorBlock(x, block);
    EncryptInPlace(aes, k, x);
    assert (done + [block[..]])[..|done|] == done;
  }

  /** The loop that both the additional data and the message go through, from `start` on; `prefix`
      is what came before `data` in the chunks that are being absorbed. */
  method AbsorbRest(aes: Cipher, k: Block, x: array<byte>, block: array<byte>, data: seq<byte>, start: nat,
                    ghost prefix: seq<byte>, ghost first: nat, ghost before: seq<Block>)
    requires x.Length == 16 && block.Length == 16 && x != block && start <= |data|
    requires |prefix| + start == 16 * first || (start == |data| && |Chunks(prefix + data)| == first)
    requires |before| > 0 && first <= |Chunks(prefix + data)|
    requires x[..] == Chain(aes, k, before + Chunks(prefix + data)[..first])
    modifies x, block
    ensures x[..] == Chain(aes, k, before + Chunks(prefix + data))
  {
    hide Chain, Chunk, Zeros;
    ghost var chunks := Chunks(prefix + data);
    var off := start;
    ghost var i := first;
    while off < |data|
      invariant off <= |data| && i <= |chunks|
      invariant if off < |data| then |prefix| + off == 16 * i else i == |chunks|
      invariant x[..] == Chain(aes, k, before + chunks[..i])
    {
      var take := if |data| - off > 16 then 16 else |data| - off;
      LoadBlock(block, 0, data, off, take);
      ChunkOf(prefix, data, off, take, i);
      Absorb(aes, k, x, block, before + chunks[..i]);
      Extend(before, chunks, i);
      off := off + take;
      i := i + 1;
    }
    assert chunks[..i] == chunks;
  }

  lemma ChunkOf(prefix: seq<byte>, data: seq<byte>, off: nat, take: nat, i: nat)
    requires |prefix| + off == 16 * i && off < |data|
    requires take == if |data| - off > 16 then 16 else |data| - off
    ensures i < |Chunks(prefix + data)|
    ensures Chunks(prefix + data)[i] == Zeros(0) + data[off..off + take] + Zeros(16 - take)
  {
    var s := prefix + data;
    assert Chunks(s)[i] == Chunk(s, i);
    if take == 16 {
      assert s[16 * i..16 * i + 16] == data[off..off + 16];
    } else {
      assert s[16 * i..] == data[off..] == data[off..off + take];
    }
  }

  lemma Extend(before: seq<Block>, chunks: seq<Block>, i: nat)
    requires i < |chunks|
    ensures before + chunks[..i] + [chunks[i]] == before + chunks[..i + 1]
  {
  }

  /** The driver's authentication value is the first half of the last chain value. */
  method CbcMac(aes: Cipher, tk: Block, nonce: Nonce, aad: seq<byte>, plain: seq<byte>) returns (mic: seq<byte>)
    ensures mic == Chain(aes, tk, Fed(nonce, aad, plain))[..8]
  {
    hide Chunk, Chunks, Chain, Fed, FirstFed, Two, XorSeq;
    var x := new byte[16](_ => 0);
    var block := new byte[16](_ => 0);
    ghost var first := FirstFed(nonce, plain);
    LoadBlock(block, 0, FirstFed(nonce, plain), 0, 16);
    FullBlock(first);
    assert x[..] == Zeros(16);
    XorBlock(x, block);
    XorZeros(first);
    EncryptInPlace(aes, tk, x);
    OneBlock(aes, tk, first);
    ghost var done: seq<Block> := [first];
    if |aad| > 0 {
      var take := AbsorbLength(aes, tk, x, block, aad, done);
      AbsorbRest(aes, tk, x, block, aad, take, Two(|aad|), 1, done);
      done := done + Chunks(Two(|aad|) + aad);
    }
    assert [] + plain == plain && done + Chunks(plain)[..0] == done;
    AbsorbRest(aes, tk, x, block, plain, 0, [], 0, done);
    FedIs(nonce, aad, plain);
    mic := x[..][..8];
  }

  lemma FullBlock(b: Block)
    ensures Zeros(0) + b[0..16] + Zeros(0) == b
  {
  }

  lemma OneBlock(aes: Cipher, k: Block, b: Block)
    ensures Chain(aes, k, [b]) == aes(k, b)
  {
  }

  lemma FedIs(nonce: Nonce, aad: seq<byte>, m: seq<byte>)
    ensures Fed(nonce, aad, m) == if |aad| > 0 then [FirstFed(nonce, m)] + Chunks(Two(|aad|) + aad) + Chunks(m) else [FirstFed(nonce, m)] + Chunks(m)
  {
    hide Chunks;
    assert [FirstFed(nonce, m)] + [] == [FirstFed(nonce, m)];
  }

  /** The block that starts with the length of the additional data. */
  method AbsorbLength(aes: Cipher, k: Block, x: array<byte>, block: array<byte>, aad: seq<byte>, ghost done: seq<Block>)
    returns (take: nat)
    requires x.Length == 16 && block.Length == 16 && x != block && |aad| > 0
    requires |done| > 0 && x[..] == Chain(aes, k, done)
    modifies x, block
    ensures take == if |aad| < 14 then |aad| else 14
    ensures |Chunks(Two(|aad|) + aad)| >= 1 && (take == |aad| ==> |Chunks(Two(|aad|) + aad)| == 1)
    ensures x[..] == Chain(aes, k, done + Chunks(Two(|aad|) + aad)[..1])
  {
    hide Chain, Chunks, Two, Zeros;
    take := if |aad| < 14 then |aad| else 14;
    LoadBlock(block, 2, aad, 0, take);
    ghost var loaded := block[..];
    block[0], block[1] := |aad| / 256 % 256, |aad| % 256;
    FirstChunk(aad, take, loaded, block[..]);
    Absorb(aes, k, x, block, done);
    ghost var chunks := Chunks(Two(|aad|) + aad);
    assert chunks[..1] == [chunks[0]];
  }

  /** The length in the two bytes that were left free makes the loaded block the first chunk. */
  lemma FirstChunk(aad: seq<byte>, take: nat, loaded: seq<byte>, block: seq<byte>)
    requires |aad| > 0 && take == (if |aad| < 14 then |aad| else 14) && |block| == 16
    requires loaded == Zeros(2) + aad[0..take] + Zeros(16 - 2 - take)
    requires block == loaded[0 := |aad| / 256 % 256][1 := |aad| % 256]
    ensures var chunks := Chunks(Two(|aad|) + aad);
      |chunks| >= 1 && (take == |aad| ==> |chunks| == 1) && block == chunks[0]
  {
  }

  lemma XorZeros(b: Block)
    ensures XorSeq(Zeros(16), b) == b
  {
    forall i | 0 <= i < 16 ensures XorSeq(Zeros(16), b)[i] == b[i] {
      XorUndo(0, b[i]);
    }
  }

  /** Counter mode over a buffer: `input` goes to `out` from `at` on. The driver's counter has 16
      bits; a counter block holds the low 16 bits of its number either way. */
  method CryptPayload(aes: Cipher, tk: Block, nonce: Nonce, input: seq<byte>, out: array<byte>, at: nat, first: nat)
    returns (n: nat)
    requires at + |input| <= out.Length && first < 0x1_0000
    modifies out
    ensures n == |input|
    ensures out[at..at + |input|] == Masked(aes, tk, nonce, first, input)
    ensures out[..at] == old(out[..at]) && out[at + |input|..] == old(out[at + |input|..])
  {
    hide MaskedByte, Xor, CounterBlock, Stream;
    var off := 0;
    var counter := first;
    ghost var i := 0;
    while off < |input|
      invariant off <= |input| && (off < |input| ==> off == 16 * i)
      invariant counter == (first + i) % 0x1_0000
      invariant forall j :: 0 <= j < at || at + off <= j < out.Length ==> out[j] == old(out[j])
      invariant forall j :: at <= j < at + off ==> out[j] == MaskedByte(aes, tk, nonce, first, input, j - at)
    {
      WrapCounter(nonce, first + i);
      var stream := aes(tk, CounterBlock(nonce, counter));
      NextCounter(first + i);
      counter := (counter + 1) % 0x1_0000;
      var take := if |input| - off > 16 then 16 else |input| - off;
      XorInto(stream, input, off, take, out, at);
      BlockBytes(aes, tk, nonce, first, input, i, off, take, stream);
      forall j | at <= j < at + off + take ensures out[j] == MaskedByte(aes, tk, nonce, first, input, j - at) {
        if j >= at + off {
          assert off <= j - at < off + take;
        }
      }
      off := off + take;
      i := i + 1;
    }
    n := off;
  }

  lemma NextCounter(c: nat)
    ensures (c % 0x1_0000 + 1) % 0x1_0000 == (c + 1) % 0x1_0000
  {
  }

  lemma BlockBytes(aes: Cipher, k: Block, nonce: Nonce, first: nat, m: seq<byte>, i: nat, off: nat, take: nat, stream: Block)
    requires off == 16 * i && take <= 16 && off + take <= |m|
    requires stream == aes(k, CounterBlock(nonce, first + i))
    ensures forall j :: off <= j < off + take ==> Xor(m[j], stream[j - off]) == MaskedByte(aes, k, nonce, first, m, j)
  {
    hide Xor, CounterBlock;
    forall j | off <= j < off + take ensures Xor(m[j], stream[j - off]) == MaskedByte(aes, k, nonce, first, m, j) {
      assert j / 16 == i && j % 16 == j - off;
    }
  }

  lemma WrapCounter(nonce: Nonce, i: nat)
    ensures CounterBlock(nonce, i % 0x1_0000) == CounterBlock(nonce, i)
  {
    var q, r := i / 0x1_0000, i % 0x1_0000;
    assert i == 256 * (256 * q) + r;
    assert i / 256 == 256 * q + r / 256;
  }

  method XorInto(stream: Block, input: seq<byte>, off: nat, take: nat, out: array<byte>, at: nat)
    requires take <= 16 && off + take <= |input| && at + |input| <= out.Length
    modifies out
    ensures forall j :: 0 <= j < at + off || at + off + take <= j < out.Length ==> out[j] == old(out[j])
    ensures forall j :: at + off <= j < at + off + take ==> out[j] == Xor(input[j - at], stream[j - at - off])
  {
    for i := 0 to take
      invariant forall j :: 0 <= j < at + off || at + off + i <= j < out.Length ==> out[j] == old(out[j])
      invariant forall j :: at + off <= j < at + off + i ==> out[j] == Xor(input[j - at], stream[j - at - off])
    {
      out[at + off + i] := Xor(input[off + i], stream[i]);
    }
  }
}
