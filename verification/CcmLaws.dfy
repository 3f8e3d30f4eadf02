/** What the protection of frames depends on: every block of the message and of the additional data
    counts, every block has a key stream of its own, and where each byte of a sealed frame comes from. */
module CcmLaws {
  import opened Bytes
  import opened Ccm
  import opened Ccmp

  // ---------------------------------------------------------------- the authentication value

  ghost predicate Injective(aes: Cipher, k: Block) {
    forall a: Block, b: Block :: aes(k, a) == aes(k, b) ==> a == b
  }

  lemma XorSeqCancels(a: seq<byte>, b: seq<byte>, c: seq<byte>)
    requires |a| == |b| == |c|
    ensures XorSeq(a, c) == XorSeq(b, c) ==> a == b
    ensures XorSeq(c, a) == XorSeq(c, b) ==> a == b
  {
    hide Xor;
    if XorSeq(a, c) == XorSeq(b, c) {
      forall i | 0 <= i < |a| ensures a[i] == b[i] {
        assert XorSeq(a, c)[i] == XorSeq(b, c)[i];
        XorCancels(a[i], b[i], c[i]);
      }
    }
    if XorSeq(c, a) == XorSeq(c, b) {
      forall i | 0 <= i < |a| ensures a[i] == b[i] {
        assert XorSeq(c, a)[i] == XorSeq(c, b)[i];
        XorCancels(a[i], b[i], c[i]);
      }
    }
  }

  lemma ChainStep(aes: Cipher, k: Block, xs: seq<Block>, y: Block)
    ensures Chain(aes, k, xs + [y]) == if xs == [] then aes(k, y) else aes(k, XorSeq(Chain(aes, k, xs), y))
  {
    assert (xs + [y])[..|xs|] == xs;
  }

  /** A chain in which one block is exchanged ends in another value. */
  lemma {:induction false} BlockCounts(aes: Cipher, k: Block, xs: seq<Block>, b: Block, c: Block, ys: seq<Block>)
    requires Injective(aes, k) && Chain(aes, k, xs + [b] + ys) == Chain(aes, k, xs + [c] + ys)
    ensures b == c
  {
    hide Chain, XorSeq;
    if ys == [] {
      assert xs + [b] + ys == xs + [b] && xs + [c] + ys == xs + [c];
      ChainStep(aes, k, xs, b);
      ChainStep(aes, k, xs, c);
      if xs != [] {
        XorSeqCancels(b, c, Chain(aes, k, xs));
      }
    } else {
      var n := |ys| - 1;
      var zs, y := ys[..n], ys[n];
      assert xs + [b] + ys == (xs + [b] + zs) + [y] && xs + [c] + ys == (xs + [c] + zs) + [y];
      ChainStep(aes, k, xs + [b] + zs, y);
      ChainStep(aes, k, xs + [c] + zs, y);
      XorSeqCancels(Chain(aes, k, xs + [b] + zs), Chain(aes, k, xs + [c] + zs), y);
      BlockCounts(aes, k, xs, b, c, zs);
    }
  }

  /** The strings differ at most in block `i`. */
  predicate OneBlockApart(s: seq<byte>, t: seq<byte>, i: nat) {
    |s| == |t| && 16 * i < |s| && forall j :: 0 <= j < |s| && !(16 * i <= j < 16 * i + 16) ==> s[j] == t[j]
  }

  lemma ChunksApart(s: seq<byte>, t: seq<byte>, i: nat)
    requires OneBlockApart(s, t, i)
    ensures |Chunks(s)| == |Chunks(t)| && i < |Chunks(s)|
    ensures Chunks(s) == Chunks(s)[..i] + [Chunk(s, i)] + Chunks(s)[i + 1..]
    ensures Chunks(t) == Chunks(s)[..i] + [Chunk(t, i)] + Chunks(s)[i + 1..]
    ensures Chunk(s, i) == Chunk(t, i) ==> s == t
  {
    forall n | 0 <= n < |Chunks(s)| && n != i ensures Chunk(s, n) == Chunk(t, n) {
      ChunkSame(s, t, n);
    }
    hide Chunk;
    if Chunk(s, i) == Chunk(t, i) {
      forall j | 16 * i <= j < 16 * i + 16 && j < |s| ensures s[j] == t[j] {
        ChunkAt(s, i, j);
        ChunkAt(t, i, j);
      }
    }
  }

  lemma ChunkSame(s: seq<byte>, t: seq<byte>, n: nat)
    requires |s| == |t| && 16 * n < |s| && forall j :: 16 * n <= j < 16 * n + 16 && j < |s| ==> s[j] == t[j]
    ensures Chunk(s, n) == Chunk(t, n)
  {
    hide Zeros;
  }

  lemma ChunkAt(s: seq<byte>, i: nat, j: nat)
    requires 16 * i <= j < 16 * i + 16 && j < |s|
    ensures Chunk(s, i)[j - 16 * i] == s[j]
  {
  }

  /** Two payloads of a length that differ in one block only never end in the same chain value. */
  lemma PayloadCounts(aes: Cipher, k: Block, nonce: Nonce, aad: seq<byte>, m: seq<byte>, m': seq<byte>, i: nat)
    requires Injective(aes, k) && OneBlockApart(m, m', i)
    requires Chain(aes, k, Fed(nonce, aad, m)) == Chain(aes, k, Fed(nonce, aad, m'))
    ensures m == m'
  {
    hide Chain, Chunk, Chunks;
    FedIs(nonce, aad, m);
    FedIs(nonce, aad, m');
    ChunksApart(m, m', i);
    var head := if |aad| > 0 then [FirstFed(nonce, m)] + Chunks(Two(|aad|) + aad) else [FirstFed(nonce, m)];
    var before, after := Chunks(m)[..i], Chunks(m)[i + 1..];
    Spliced(head, before, Chunk(m, i), after);
    Spliced(head, before, Chunk(m', i), after);
    BlockCounts(aes, k, head + before, Chunk(m, i), Chunk(m', i), after);
  }

  lemma Spliced(head: seq<Block>, before: seq<Block>, b: Block, after: seq<Block>)
    ensures head + (before + [b] + after) == head + before + [b] + after
  {
  }

  /** Neither do two additional data of a length that differ in one block only; their length fills the
      first two bytes of the first block. */
  lemma AadCounts(aes: Cipher, k: Block, nonce: Nonce, aad: seq<byte>, aad': seq<byte>, m: seq<byte>, i: nat)
    requires Injective(aes, k) && |aad| == |aad'| > 0 && OneBlockApart(Two(|aad|) + aad, Two(|aad|) + aad', i)
    requires Chain(aes, k, Fed(nonce, aad, m)) == Chain(aes, k, Fed(nonce, aad', m))
    ensures aad == aad'
  {
    hide Chain, Chunk, Chunks, Two;
    FedIs(nonce, aad, m);
    FedIs(nonce, aad', m);
    var s, t := Two(|aad|) + aad, Two(|aad|) + aad';
    ChunksApart(s, t, i);
    var head := [FirstFed(nonce, m)];
    var before, after := Chunks(s)[..i], Chunks(s)[i + 1..];
    Between(head, before, Chunk(s, i), after, Chunks(m));
    Between(head, before, Chunk(t, i), after, Chunks(m));
    BlockCounts(aes, k, head + before, Chunk(s, i), Chunk(t, i), after + Chunks(m));
    assert s[2..] == aad && t[2..] == aad';
  }

  lemma Between(head: seq<Block>, before: seq<Block>, b: Block, after: seq<Block>, rest: seq<Block>)
    ensures head + (before + [b] + after) + rest == head + before + [b] + (after + rest)
  {
  }

  /** Nor does one message under two nonces. */
  lemma NonceCounts(aes: Cipher, k: Block, nonce: Nonce, nonce': Nonce, aad: seq<byte>, m: seq<byte>)
    requires Injective(aes, k) && Chain(aes, k, Fed(nonce, aad, m)) == Chain(aes, k, Fed(nonce', aad, m))
    ensures nonce == nonce'
  {
    hide Chain, Chunk, Chunks;
    var rest := (if aad == [] then [] else Chunks(Two(|aad|) + aad)) + Chunks(m);
    var b, c := FirstFed(nonce, m), FirstFed(nonce', m);
    FedParts(nonce, aad, m, rest);
    FedParts(nonce', aad, m, rest);
    BlockCounts(aes, k, [], b, c, rest);
    assert b[1..14] == nonce && c[1..14] == nonce';
  }

  lemma FedParts(nonce: Nonce, aad: seq<byte>, m: seq<byte>, rest: seq<Block>)
    requires rest == (if aad == [] then [] else Chunks(Two(|aad|) + aad)) + Chunks(m)
    ensures Fed(nonce, aad, m) == [] + [FirstFed(nonce, m)] + rest
  {
    hide Chunks;
  }

  // ---------------------------------------------------------------- the key stream

  /** Two counter blocks agree exactly when nonce and counter, modulo 65536, do: no two blocks of a
      payload below a megabyte share key stream, nor does one share it with the authentication value. */
  lemma CountersAgree(nonce: Nonce, i: nat, nonce': Nonce, j: nat)
    ensures CounterBlock(nonce, i) == CounterBlock(nonce', j) <==> nonce == nonce' && i % 0x1_0000 == j % 0x1_0000
  {
    var a, b := CounterBlock(nonce, i), CounterBlock(nonce', j);
    assert a[1..14] == nonce && b[1..14] == nonce';
    assert a[14] == i / 256 % 256 && a[15] == i % 256 && b[14] == j / 256 % 256 && b[15] == j % 256;
    TwoDigits(i);
    TwoDigits(j);
    if i % 0x1_0000 == j % 0x1_0000 {
      WrapCounter(nonce, i);
      WrapCounter(nonce, j);
    }
  }

  lemma TwoDigits(i: nat)
    ensures i % 0x1_0000 == 256 * (i / 256 % 256) + i % 256
  {
    SplitMod(i, 256);
  }

  // ---------------------------------------------------------------- the bytes of a sealed frame

  /** Digit `i` of a packet number to the base 256. */
  function Digit(pn: nat, i: nat): byte {
    pn / Pow256(i) % 256
  }

  lemma DigitsAre(pn: nat)
    ensures Digits(pn) == [Digit(pn, 0), Digit(pn, 1), Digit(pn, 2), Digit(pn, 3), Digit(pn, 4), Digit(pn, 5)]
  {
    ToLeAt(pn, 6, 0);
    ToLeAt(pn, 6, 1);
    ToLeAt(pn, 6, 2);
    ToLeAt(pn, 6, 3);
    ToLeAt(pn, 6, 4);
    ToLeAt(pn, 6, 5);
  }

  /** The header stays but for the protected bit, and the packet number stands behind it. */
  lemma SealedHeader(aes: Cipher, tk: Block, plain: seq<byte>, pn: nat)
    requires |plain| > HEADER
    ensures var f := Sealed(aes, tk, plain, pn);
      && f[0] == plain[0] && f[1] == (if plain[1] % 128 >= 64 then plain[1] else plain[1] + 64) && f[2..24] == plain[2..24]
      && f[24..32] == [Digit(pn, 0), Digit(pn, 1), 0, 0x20, Digit(pn, 2), Digit(pn, 3), Digit(pn, 4), Digit(pn, 5)]
  {
    hide Masked, Mic, Aad, NonceFor, Digits, Digit;
    DigitsAre(pn);
    var f := Sealed(aes, tk, plain, pn);
    assert f[..24] == OutHeader(plain) && f[24..32] == CcmpHeader(pn);
    assert f[2..24] == f[..24][2..] && OutHeader(plain)[2..] == plain[2..24];
  }

  /** Each payload byte is masked with the cipher's output for the block that names sender, packet
      number and the place of the byte. */
  lemma SealedPayload(aes: Cipher, tk: Block, plain: seq<byte>, pn: nat, j: nat)
    requires |plain| > HEADER && HEADER + j < |plain|
    ensures var sender := plain[10..16];
      var c := 1 + j / 16;
      var a: Block := [1, 0] + sender + [Digit(pn, 5), Digit(pn, 4), Digit(pn, 3), Digit(pn, 2), Digit(pn, 1), Digit(pn, 0)]
        + [c / 256 % 256, c % 256];
      Sealed(aes, tk, plain, pn)[32 + j] == Xor(plain[24 + j], aes(tk, a)[j % 16])
  {
    hide Mic, Aad, CcmpHeader, Xor, Digits, Digit;
    CounterBytes(plain, pn, 1 + j / 16);
    var h := OutHeader(plain);
    var nonce := NonceFor(Sender(h), pn);
    var c := Masked(aes, tk, nonce, 1, plain[HEADER..]);
    assert Sealed(aes, tk, plain, pn)[32 + j] == c[j];
    assert plain[HEADER..][j] == plain[24 + j];
  }

  lemma CounterBytes(plain: seq<byte>, pn: nat, c: nat)
    requires |plain| > HEADER
    ensures CounterBlock(NonceFor(Sender(OutHeader(plain)), pn), c)
      == [1, 0] + plain[10..16] + [Digit(pn, 5), Digit(pn, 4), Digit(pn, 3), Digit(pn, 2), Digit(pn, 1), Digit(pn, 0)]
        + [c / 256 % 256, c % 256]
  {
    hide Digits, Digit;
    DigitsAre(pn);
    assert Sender(OutHeader(plain)) == plain[10..16];
  }

  /** The last eight bytes are the end of the chain, masked with the block of counter zero; the chain
      starts with flags, sender, packet number and length. */
  lemma SealedTag(aes: Cipher, tk: Block, plain: seq<byte>, pn: nat, i: nat)
    requires |plain| > HEADER && i < 8
    ensures var digits := [Digit(pn, 5), Digit(pn, 4), Digit(pn, 3), Digit(pn, 2), Digit(pn, 1), Digit(pn, 0)];
      var a: Block := [1, 0] + plain[10..16] + digits + [0, 0];
      var n := |plain| - 24;
      var b: Block := [0x59, 0] + plain[10..16] + digits + [n / 256 % 256, n % 256];
      var aad := Aad(OutHeader(plain), HEADER);
      Sealed(aes, tk, plain, pn)[|plain| + 8 + i]
        == Xor(Chain(aes, tk, [b] + Chunks(Two(|aad|) + aad) + Chunks(plain[24..]))[i], aes(tk, a)[i])
  {
    hide Masked, Aad, CcmpHeader, Xor, Digits, Digit, Chain, Chunks, Chunk, NonceFor;
    var h := OutHeader(plain);
    var nonce, aad := NonceFor(Sender(h), pn), Aad(h, HEADER);
    CounterBytes(plain, pn, 0);
    FirstBytes(plain, pn);
    AadLength(h);
    FedIs(nonce, aad, plain[HEADER..]);
    var mic := Mic(aes, tk, nonce, aad, plain[HEADER..]);
    assert Sealed(aes, tk, plain, pn)[|plain| + 8 + i] == mic[i];
  }

  lemma FirstBytes(plain: seq<byte>, pn: nat)
    requires |plain| > HEADER
    ensures var n := |plain| - 24;
      FirstFed(NonceFor(Sender(OutHeader(plain)), pn), plain[HEADER..])
      == [0x59, 0] + plain[10..16] + [Digit(pn, 5), Digit(pn, 4), Digit(pn, 3), Digit(pn, 2), Digit(pn, 1), Digit(pn, 0)]
        + [n / 256 % 256, n % 256]
  {
    hide Digits, Digit;
    DigitsAre(pn);
    assert Sender(OutHeader(plain)) == plain[10..16];
  }

  lemma AadLength(h: seq<byte>)
    requires |h| == HEADER
    ensures |Aad(h, HEADER)| == 22
  {
  }

  // ---------------------------------------------------------------- the additional data

  /** The additional data tell the kind of frame, the bits of the flags that are not left out, all
      three addresses and the fragment number, and nothing else. */
  lemma AadCovers(f: seq<byte>, g: seq<byte>)
    requires |f| >= HEADER && |g| >= HEADER
    ensures Aad(f, HEADER) == Aad(g, HEADER) <==>
      && f[0] == g[0] && f[1] % 8 == g[1] % 8 && f[1] / 128 == g[1] / 128
      && f[4..22] == g[4..22] && f[22] % 16 == g[22] % 16
  {
    FlagBits(f[1]);
    FlagBits(g[1]);
    hide WithoutFlags;
    var a, b := Aad(f, HEADER), Aad(g, HEADER);
    assert a[0] == f[0] && a[1] == WithoutFlags(f[1]) && a[2..20] == f[4..22] && a[20] == f[22] % 16;
    assert b[0] == g[0] && b[1] == WithoutFlags(g[1]) && b[2..20] == g[4..22] && b[20] == g[22] % 16;
  }

  lemma FlagBits(b: byte)
    ensures WithoutFlags(b) == b % 8 + 128 * (b / 128)
  {
  }
}
