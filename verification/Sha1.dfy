/** The hash core of kernel/lib/crypto.c: SHA-1 as sections 4.1.1, 5.1.1 and 6.1.2 of FIPS 180-4
    define it, the buffered form that the kernel computes, and HMAC (RFC 2104) and PBKDF2
    (section 5.2 of RFC 8018) on top. */
module Sha1 {
  import opened Basics
  import opened Bytes

  type Chunk = s: seq<byte> | |s| == 64 witness seq(64, _ => 0)
  type Digest = s: seq<byte> | |s| == 20 witness seq(20, _ => 0)

  // ---------------------------------------------------------------- words

  function Rotl(x: bv32, n: bv6): bv32
    requires 0 < n < 32
  {
    (x << n) | (x >> (32 - n))
  }

  /** Four bytes as a word, most significant first. */
  function Word(s: seq<byte>): bv32
    requires |s| == 4
  {
    ((s[0] as bv8 as bv32) << 24) | ((s[1] as bv8 as bv32) << 16) | ((s[2] as bv8 as bv32) << 8) | (s[3] as bv8 as bv32)
  }

  function WordBytes(v: bv32): (s: seq<byte>)
    ensures |s| == 4
  {
    [((v >> 24) & 0xff) as bv8 as int, ((v >> 16) & 0xff) as bv8 as int, ((v >> 8) & 0xff) as bv8 as int, (v & 0xff) as bv8 as int]
  }

  // ---------------------------------------------------------------- the compression step

  datatype State = State(a: bv32, b: bv32, c: bv32, d: bv32, e: bv32)

  const INITIAL := State(0x67452301, 0xefcdab89, 0x98badcfe, 0x10325476, 0xc3d2e1f0)

  function Ch(x: bv32, y: bv32, z: bv32): bv32 { (x & y) ^ (!x & z) }
  function Parity(x: bv32, y: bv32, z: bv32): bv32 { x ^ y ^ z }
  function Maj(x: bv32, y: bv32, z: bv32): bv32 { (x & y) ^ (x & z) ^ (y & z) }

  function F(t: nat, x: bv32, y: bv32, z: bv32): bv32 {
    if t < 20 then Ch(x, y, z)
    else if t < 40 then Parity(x, y, z)
    else if t < 60 then Maj(x, y, z)
    else Parity(x, y, z)
  }

  function K(t: nat): bv32 {
    if t < 20 then 0x5a827999
    else if t < 40 then 0x6ed9eba1
    else if t < 60 then 0x8f1bbcdc
    else 0xca62c1d6
  }

  function Mix(w3: bv32, w8: bv32, w14: bv32, w16: bv32): bv32 {
    Rotl(w3 ^ w8 ^ w14 ^ w16, 1)
  }

  /** Word `t` of the message schedule. */
  function W(block: Chunk, t: nat): bv32 {
    if t < 16 then Word(block[4 * t..4 * t + 4])
    else Mix(W(block, t - 3), W(block, t - 8), W(block, t - 14), W(block, t - 16))
  }

  function Next(a: bv32, f: bv32, e: bv32, k: bv32, w: bv32): bv32 {
    Rotl(a, 5) + f + e + k + w
  }

  function Round(s: State, t: nat, w: bv32): State {
    State(Next(s.a, F(t, s.b, s.c, s.d), s.e, K(t), w), s.a, Rotl(s.b, 30), s.c, s.d)
  }

  function Rounds(s: State, block: Chunk, t: nat): State {
    if t == 0 then s else Round(Rounds(s, block, t - 1), t - 1, W(block, t - 1))
  }

  function Plus(s: State, r: State): State {
    State(s.a + r.a, s.b + r.b, s.c + r.c, s.d + r.d, s.e + r.e)
  }

  function Compress(s: State, block: Chunk): State {
    Plus(s, Rounds(s, block, 80))
  }

  /** The compression of a whole number of blocks. */
  function Fold(s: State, data: seq<byte>): State
    requires |data| % 64 == 0
  {
    if data == [] then s else
    var n := |data| - 64;
    Compress(Fold(s, data[..n]), data[n..])
  }

  // ---------------------------------------------------------------- padding and digest

  /** The low `n` bytes of `v`, most significant first. */
  function ToBe(v: nat, n: nat): (s: seq<byte>)
    ensures |s| == n
  {
    if n == 0 then [] else ToBe(v / 256, n - 1) + [v % 256]
  }

  /** How many zero bytes bring the message, the byte 0x80 and them to 56 modulo 64. */
  function Gap(n: nat): nat {
    if n % 64 < 56 then 55 - n % 64 else 119 - n % 64
  }

  lemma GapFits(n: nat)
    ensures (n + 1 + Gap(n) + 8) % 64 == 0
  {
  }

  function Padding(n: nat): (r: seq<byte>)
    ensures (n + |r|) % 64 == 0
  {
    GapFits(n);
    [0x80] + seq(Gap(n), _ => 0) + ToBe(8 * n, 8)
  }

  function Hash(m: seq<byte>): Digest {
    var h := Fold(INITIAL, m + Padding(|m|));
    WordBytes(h.a) + WordBytes(h.b) + WordBytes(h.c) + WordBytes(h.d) + WordBytes(h.e)
  }

  // ---------------------------------------------------------------- the kernel's round functions

  lemma ChOr(x: bv32, y: bv32, z: bv32)
    ensures (x & y) | (!x & z) == (x & y) ^ (!x & z)
  {
  }

  lemma MajOr(x: bv32, y: bv32, z: bv32)
    ensures (x & y) | (x & z) | (y & z) == (x & y) ^ (x & z) ^ (y & z)
  {
  }

  /** The kernel writes both functions with inclusive or. */
  function ChCode(x: bv32, y: bv32, z: bv32): (f: bv32)
    ensures f == Ch(x, y, z)
  {
    ChOr(x, y, z);
    (x & y) | (!x & z)
  }

  function MajCode(x: bv32, y: bv32, z: bv32): (f: bv32)
    ensures f == Maj(x, y, z)
  {
    MajOr(x, y, z);
    (x & y) | (x & z) | (y & z)
  }

  method RoundFunction(i: nat, b: bv32, c: bv32, d: bv32) returns (f: bv32, k: bv32)
    requires i < 80
    ensures f == F(i, b, c, d) && k == K(i)
  {
    hide Ch, Maj, ChCode, MajCode, Parity;
    if i < 20 {
      f, k := ChCode(b, c, d), 0x5a827999;
    } else if i < 40 {
      f, k := Parity(b, c, d), 0x6ed9eba1;
    } else if i < 60 {
      f, k := MajCode(b, c, d), 0x8f1bbcdc;
    } else {
      f, k := Parity(b, c, d), 0xca62c1d6;
    }
  }

  method Schedule(block: Chunk) returns (w: array<bv32>)
    ensures fresh(w) && w.Length == 80
    ensures forall t :: 0 <= t < 80 ==> w[t] == W(block, t)
  {
    hide Word, Mix;
    w := new bv32[80](_ => 0);
    for i := 0 to 16
      invariant forall t :: 0 <= t < i ==> w[t] == W(block, t)
    {
      w[i] := Word(block[4 * i..4 * i + 4]);
    }
    for i := 16 to 80
      invariant forall t :: 0 <= t < i ==> w[t] == W(block, t)
    {
      w[i] := Mix(w[i - 3], w[i - 8], w[i - 14], w[i - 16]);
    }
  }

  method Transform(h: State, block: Chunk) returns (r: State)
    ensures r == Compress(h, block)
  {
    hide Rotl, F, K, W, Next, Plus;
    var w := Schedule(block);
    var a, b, c, d, e := h.a, h.b, h.c, h.d, h.e;
    for i := 0 to 80
      invariant forall t :: 0 <= t < 80 ==> w[t] == W(block, t)
      invariant State(a, b, c, d, e) == Rounds(h, block, i)
    {
      var f, k := RoundFunction(i, b, c, d);
      var t := Next(a, f, e, k, w[i]);
      e := d;
      d := c;
      c := Rotl(b, 30);
      b := a;
      a := t;
    }
    r := Plus(h, State(a, b, c, d, e));
  }

  // ---------------------------------------------------------------- the buffered form

  /** The part of a message that fills whole blocks. */
  function Whole(m: seq<byte>): (r: seq<byte>)
    ensures |r| % 64 == 0
  {
    m[..|m| / 64 * 64]
  }

  /** The rest, which waits in the buffer. */
  function Tail(m: seq<byte>): (r: seq<byte>)
    ensures |r| == |m| % 64
  {
    m[|m| / 64 * 64..]
  }

  /** The state of a hash that has taken in the message `m`. */
  ghost predicate Holds(h: State, tail: seq<byte>, m: seq<byte>) {
    h == Fold(INITIAL, Whole(m)) && tail == Tail(m)
  }

  /** Putting bytes into the buffer, up to and including the one that fills it. */
  lemma Fill(h: State, tail: seq<byte>, m: seq<byte>, d: seq<byte>)
    requires Holds(h, tail, m) && |tail| + |d| <= 64
    ensures |tail| + |d| < 64 ==> Holds(h, tail + d, m + d)
    ensures |tail| + |d| == 64 ==> Holds(Compress(h, tail + d), [], m + d)
  {
    hide Fold, Compress;
    assert m == Whole(m) + tail;
    Parts(Whole(m), tail + d, m + d);
    if |tail| + |d| == 64 {
      FoldOne(Whole(m), tail + d);
    }
  }

  lemma Parts(w: seq<byte>, t: seq<byte>, m: seq<byte>)
    requires |w| % 64 == 0 && m == w + t && |t| <= 64
    ensures |t| < 64 ==> Whole(m) == w && Tail(m) == t
    ensures |t| == 64 ==> Whole(m) == m && Tail(m) == []
  {
  }

  lemma FoldOne(w: seq<byte>, block: Chunk)
    requires |w| % 64 == 0
    ensures (|w| + 64) % 64 == 0
    ensures Compress(Fold(INITIAL, w), block) == Fold(INITIAL, w + block)
  {
    hide Compress;
    assert (w + block)[..|w|] == w && (w + block)[|w|..] == block;
  }

  lemma TailLength(h: State, tail: seq<byte>, m: seq<byte>)
    requires Holds(h, tail, m)
    ensures |tail| == |m| % 64
  {
  }

  /** The running hash: `message` is all that has been put in so far. */
  lemma MorePut(before: seq<byte>, data: seq<byte>, p: nat, n: nat)
    requires p + n <= |data|
    ensures before + data[..p] + data[p..p + n] == before + data[..p + n]
  {
    assert data[..p + n] == data[..p] + data[p..p + n];
  }

  class Context {
    var h: State
    var bytes: nat
    const block: array<byte>
    var used: nat
    ghost var message: seq<byte>

    ghost predicate Valid()
      reads this, block
    {
      && block.Length == 64
      && bytes == |message| % TWO_64
      && used < 64
      && Holds(h, block[..used], message)
    }

    constructor ()
      ensures Valid() && message == [] && fresh(block)
    {
      h := INITIAL;
      bytes := 0;
      block := new byte[64](_ => 0);
      used := 0;
      message := [];
    }

    /** Take in more of the message. */
    method Update(data: seq<byte>)
      requires Valid()
      modifies this, block
      ensures Valid() && message == old(message) + data && used == |message| % 64
    {
      hide Holds;
      bytes := (bytes + |data|) % TWO_64;
      var p := 0;
      while p < |data|
        invariant p <= |data| && message == old(message) + data[..p]
        invariant bytes == (old(|message|) + |data|) % TWO_64
        invariant block.Length == 64 && used < 64 && Holds(h, block[..used], message)
      {
        var n := if 64 - used > |data| - p then |data| - p else 64 - used;
        Take(data[p..p + n]);
        MorePut(old(message), data, p, n);
        p := p + n;
      }
      assert data[..p] == data;
      assert |block[..used]| == used;
      TailLength(h, block[..used], message);
    }

    /** Copy bytes into the block and compress it when it is full. */
    method Take(d: seq<byte>)
      requires block.Length == 64 && used < 64 && Holds(h, block[..used], message)
      requires 0 < |d| <= 64 - used
      modifies this, block
      ensures bytes == old(bytes) && message == old(message) + d
      ensures used < 64 && Holds(h, block[..used], message)
    {
      hide Holds, Compress;
      ghost var tail := block[..used];
      for i := 0 to |d|
        invariant used == old(used) && message == old(message) && h == old(h) && bytes == old(bytes)
        invariant block[..used + i] == tail + d[..i]
      {
        block[used + i] := d[i];
      }
      assert d[..|d|] == d;
      Fill(h, tail, message, d);
      message := message + d;
      used := used + |d|;
      if used == 64 {
        assert block[..used] == block[..];
        h := Transform(h, block[..]);
        used := 0;
      }
    }

    /** Pad with one set bit, zeros and the length, and hand out the state. The number of zero bytes
        is the one that the standard asks for, so the loop ends. */
    method Final() returns (out: Digest)
      requires Valid()
      modifies this, block
      ensures out == Hash(old(message))
    {
      hide Holds, ToBe, Fold, Gap;
      ghost var m := message;
      var bits := bytes * 8 % TWO_64;
      PadTo56();
      var length := StoreBe64(bits);
      LengthField(|m|);
      Update(length);
      assert message == m + Padding(|m|);
      AllFolded(h, block[..used], message);
      out := WordBytes(h.a) + WordBytes(h.b) + WordBytes(h.c) + WordBytes(h.d) + WordBytes(h.e);
    }

    method PadTo56()
      requires Valid()
      modifies this, block
      ensures Valid() && message == old(message) + [0x80] + seq(Gap(old(|message|)), _ => 0)
    {
      hide Holds, Gap, Distance;
      ghost var m := message;
      Update([0x80]);
      ghost var i := 0;
      FirstDistance(|m|);
      while used != 56
        invariant Valid() && used == (|m| + 1 + i) % 64
        invariant message == m + [0x80] + seq(i, _ => 0)
        invariant i + Distance(used) == Gap(|m|)
        decreases Distance(used)
      {
        NextDistance(|m| + 1 + i);
        Update([0]);
        i := i + 1;
      }
      NoDistance();
    }
  }

  lemma FirstDistance(n: nat)
    ensures Distance((n + 1) % 64) == Gap(n)
  {
  }

  lemma NextDistance(n: nat)
    requires n % 64 != 56
    ensures Distance((n + 1) % 64) == Distance(n % 64) - 1
  {
  }

  lemma NoDistance()
    ensures Distance(56) == 0
  {
  }

  /** How far the buffer is from having 56 bytes. */
  function Distance(used: nat): nat
    requires used < 64
  {
    if used <= 56 then 56 - used else 120 - used
  }

  lemma AllFolded(h: State, tail: seq<byte>, m: seq<byte>)
    requires Holds(h, tail, m) && |m| % 64 == 0
    ensures h == Fold(INITIAL, m)
  {
    hide Fold;
    assert Whole(m) == m;
  }

  lemma {:induction false} ToBeLow(v: nat, n: nat)
    ensures ToBe(v % Pow256(n), n) == ToBe(v, n)
  {
    if n > 0 {
      var p := Pow256(n - 1);
      SplitMod(v, p);
      var low := v % (256 * p);
      assert low % 256 == v % 256 && low / 256 == v / 256 % p;
      ToBeLow(v / 256, n - 1);
    }
  }

  lemma LengthField(n: nat)
    ensures ToBe(n % TWO_64 * 8 % TWO_64, 8) == ToBe(8 * n, 8)
  {
    Pow256Words();
    ToBeLow(8 * n, 8);
    TimesEight(n);
  }

  lemma TimesEight(n: nat)
    ensures n % TWO_64 * 8 % TWO_64 == 8 * n % TWO_64
  {
    var k, r := n / TWO_64, n % TWO_64;
    assert 8 * n == 8 * r + TWO_64 * (8 * k);
    Shifted(8 * r, 8 * k);
  }

  lemma Shifted(x: nat, k: nat)
    ensures (x + TWO_64 * k) % TWO_64 == x % TWO_64
  {
  }

  method StoreBe64(value: nat) returns (r: seq<byte>)
    ensures r == ToBe(value, 8)
  {
    var p := new byte[8](_ => 0);
    var v := value;
    var i := 7;
    while i >= 0
      invariant -1 <= i <= 7
      invariant ToBe(v, i + 1) + p[i + 1..] == ToBe(value, 8)
    {
      p[i] := v % 256;
      v := v / 256;
      i := i - 1;
    }
    r := p[..];
  }

  // ---------------------------------------------------------------- what the padding is for

  /** The number that big-endian bytes denote. */
  function Be(s: seq<byte>): nat {
    if s == [] then 0 else 256 * Be(s[..|s| - 1]) + s[|s| - 1]
  }

  lemma {:induction false} BeOfToBe(v: nat, n: nat)
    requires v < Pow256(n)
    ensures Be(ToBe(v, n)) == v
  {
    if n > 0 {
      BeOfToBe(v / 256, n - 1);
      assert ToBe(v, n)[..n - 1] == ToBe(v / 256, n - 1);
    }
  }

  /** Different messages of the lengths that the standard allows never look the same once padded. */
  lemma PaddingInjective(m: seq<byte>, m': seq<byte>)
    requires |m| < 0x2000_0000_0000_0000 && |m'| < 0x2000_0000_0000_0000
    requires m + Padding(|m|) == m' + Padding(|m'|)
    ensures m == m'
  {
    hide Padding, ToBe;
    LengthBack(m);
    LengthBack(m');
    assert (m + Padding(|m|))[..|m|] == m && (m' + Padding(|m'|))[..|m'|] == m';
  }

  /** The last eight bytes of the padded message hold its length in bits. */
  lemma LengthBack(m: seq<byte>)
    requires |m| < 0x2000_0000_0000_0000
    ensures var p := m + Padding(|m|); |p| >= 8 && Be(p[|p| - 8..]) == 8 * |m|
  {
    hide Gap, ToBe, Be;
    var p := m + Padding(|m|);
    assert p[|p| - 8..] == ToBe(8 * |m|, 8);
    Pow256Words();
    BeOfToBe(8 * |m|, 8);
  }

  // ---------------------------------------------------------------- one call, and any pieces

  function Joined(pieces: seq<seq<byte>>): seq<byte> {
    if pieces == [] then [] else Joined(pieces[..|pieces| - 1]) + pieces[|pieces| - 1]
  }

  /** However a message is cut up, its digest is the same. */
  method HashPieces(pieces: seq<seq<byte>>) returns (out: Digest)
    ensures out == Hash(Joined(pieces))
  {
    hide Hash, Holds;
    var ctx := new Context();
    for i := 0 to |pieces|
      invariant fresh(ctx) && fresh(ctx.block) && ctx.Valid()
      invariant ctx.message == Joined(pieces[..i])
    {
      ctx.Update(pieces[i]);
      assert pieces[..i + 1][..i] == pieces[..i];
    }
    assert pieces[..|pieces|] == pieces;
    out := ctx.Final();
  }

  method Sha1(data: seq<byte>) returns (out: Digest)
    ensures out == Hash(data)
  {
    hide Hash, Holds;
    var ctx := new Context();
    ctx.Update(data);
    assert [] + data == data;
    out := ctx.Final();
  }

  // ---------------------------------------------------------------- HMAC and PBKDF2

  /** The key brought to the length of a block. */
  function BlockKey(key: seq<byte>): Chunk {
    if |key| > 64 then Hash(key) + Zeros(44) else key + Zeros(64 - |key|)
  }

  function XorByte(s: seq<byte>, b: byte): (r: seq<byte>)
    ensures |r| == |s|
  {
    seq(|s|, i requires 0 <= i < |s| => Xor(s[i], b))
  }

  function Hmac(key: seq<byte>, text: seq<byte>): Digest {
    Hash(XorByte(BlockKey(key), 0x5c) + Hash(XorByte(BlockKey(key), 0x36) + text))
  }

  method Pad(k0: array<byte>, b: byte) returns (r: seq<byte>)
    ensures r == XorByte(k0[..], b)
  {
    var pad := new byte[k0.Length](_ => 0);
    ghost var key := k0[..];
    for i := 0 to k0.Length
      invariant k0[..] == key && forall j :: 0 <= j < i ==> pad[j] == Xor(k0[j], b)
    {
      pad[i] := Xor(k0[i], b);
    }
    r := pad[..];
  }

  method HmacSha1(key: seq<byte>, data: seq<byte>) returns (out: Digest)
    ensures out == Hmac(key, data)
  {
    hide Hash, Xor;
    var k0 := new byte[64](_ => 0);
    var prefix := key;
    if |key| > 64 {
      prefix := Sha1(key);
    }
    for i := 0 to |prefix|
      invariant k0[..] == prefix[..i] + Zeros(64 - i)
    {
      k0[i] := prefix[i];
    }
    assert k0[..] == BlockKey(key);
    var pads := Pad(k0, 0x36);
    var outer := Pad(k0, 0x5c);
    var inner := HashTwo(pads, data);
    out := HashTwo(outer, inner);
  }

  method HashTwo(first: seq<byte>, second: seq<byte>) returns (out: Digest)
    ensures out == Hash(first + second)
  {
    hide Hash, Holds;
    var ctx := new Context();
    ctx.Update(first);
    ctx.Update(second);
    assert [] + first + second == first + second;
    out := ctx.Final();
  }

  /** U_n: the HMAC applied `n` times. */
  function Iterate(password: seq<byte>, salted: seq<byte>, n: nat): Digest
    requires n > 0
  {
    if n == 1 then Hmac(password, salted) else Hmac(password, Iterate(password, salted, n - 1))
  }

  /** U_1 xor ... xor U_n. */
  function Sum(password: seq<byte>, salted: seq<byte>, n: nat): Digest
    requires n > 0
  {
    if n == 1 then Iterate(password, salted, 1)
    else XorSeq(Sum(password, salted, n - 1), Iterate(password, salted, n))
  }

  /** T_i of RFC 8018. */
  function Part(password: seq<byte>, salt: seq<byte>, count: nat, i: nat): Digest
    requires count > 0
  {
    Sum(password, salt + ToBe(i, 4), count)
  }

  /** T_1 || T_2 || ... || T_n */
  function Parts20(password: seq<byte>, salt: seq<byte>, count: nat, n: nat): (r: seq<byte>)
    requires count > 0
    ensures |r| == 20 * n
  {
    if n == 0 then [] else Parts20(password, salt, count, n - 1) + Part(password, salt, count, n)
  }

  function DerivedKey(password: seq<byte>, salt: seq<byte>, count: nat, length: nat): (r: seq<byte>)
    requires count > 0
    ensures |r| == length
  {
    Parts20(password, salt, count, (length + 19) / 20)[..length]
  }

  method PartOf(password: seq<byte>, salted: seq<byte>, iterations: nat) returns (t: Digest)
    ensures t == Sum(password, salted, if iterations == 0 then 1 else iterations)
  {
    hide Hmac, XorSeq;
    var u := HmacSha1(password, salted);
    t := u;
    var i := 1;
    while i < iterations
      invariant i == 1 || i <= iterations
      invariant u == Iterate(password, salted, i) && t == Sum(password, salted, i)
    {
      u := HmacSha1(password, u);
      t := XorSeq(t, u);
      i := i + 1;
    }
  }

  /** Key stretching; an iteration count of zero is taken as one. */
  method Pbkdf2(password: seq<byte>, ssid: seq<byte>, iterations: nat, length: nat) returns (out: seq<byte>)
    requires |ssid| <= 32
    ensures out == DerivedKey(password, ssid, if iterations == 0 then 1 else iterations, length)
  {
    hide Sum;
    ghost var count := if iterations == 0 then 1 else iterations;
    out := [];
    var block := 1;
    while |out| < length
      invariant |out| <= length && block >= 1
      invariant |out| < length ==> out == Parts20(password, ssid, count, block - 1)
      invariant |out| == length ==> out == DerivedKey(password, ssid, count, length)
    {
      BlockNumber(block);
      var t := PartOf(password, ssid + ToBe(block % TWO_32, 4), iterations);
      var take := if length - |out| > 20 then 20 else length - |out|;
      assert take < 20 || |out| + take == length ==> (length + 19) / 20 == block;
      out := out + t[..take];
      block := block + 1;
    }
  }

  /** The block number is a 32-bit word. */
  lemma BlockNumber(i: nat)
    ensures ToBe(i % TWO_32, 4) == ToBe(i, 4)
  {
    Pow256Words();
    ToBeLow(i, 4);
  }
}
