/** The data protection of the wireless driver (kernel/drivers/net/iwlwifi.c): frames sealed with
    CCM under a packet number that goes up by one with every frame. */
module Ccmp {
  import opened Basics
  import opened Bytes
  import opened Wrappers
  import opened Ccm

  const HEADER := 24
  const TWO_48 := 0x1_0000_0000_0000

  // ---------------------------------------------------------------- fields of a frame

  /** `b | 0x40` */
  function Protected(b: byte): byte {
    if b / 64 % 2 == 1 then b else b + 64
  }

  /** `b & ~0x78` */
  function WithoutFlags(b: byte): byte {
    b - b / 8 % 16 * 8
  }

  /** The six low bytes of the packet number, least significant first. */
  function Digits(pn: nat): (d: seq<byte>)
    ensures |d| == 6
  {
    ToLe(pn, 6)
  }

  function CcmpHeader(pn: nat): (h: seq<byte>)
    ensures |h| == 8
  {
    var d := Digits(pn);
    [d[0], d[1], 0, 0x20, d[2], d[3], d[4], d[5]]
  }

  /** The packet number that a CCMP header carries. */
  function PacketNumber(h: seq<byte>): nat
    requires |h| == 8
  {
    Le([h[0], h[1], h[4], h[5], h[6], h[7]])
  }

  function Sender(frame: seq<byte>): seq<byte>
    requires |frame| >= 16
  {
    frame[10..16]
  }

  function NonceFor(sender: seq<byte>, pn: nat): Nonce
    requires |sender| == 6
  {
    var d := Digits(pn);
    [0] + sender + [d[5], d[4], d[3], d[2], d[1], d[0]]
  }

  function Aad(frame: seq<byte>, hdrLen: nat): seq<byte>
    requires hdrLen <= |frame|
  {
    if hdrLen < HEADER then []
    else [frame[0], WithoutFlags(frame[1])] + frame[4..22] + [frame[22] % 16, 0]
  }

  // ---------------------------------------------------------------- sealing and opening

  /** The driver's CCM: the ciphertext and the masked authentication value. */
  function Mic(aes: Cipher, tk: Block, nonce: Nonce, aad: seq<byte>, m: seq<byte>): (r: seq<byte>)
    ensures |r| == 8
  {
    XorSeq(Chain(aes, tk, Fed(nonce, aad, m))[..8], Stream(aes, tk, nonce, 0)[..8])
  }

  /** With additional data and a message of the lengths CCM is defined for, the driver computes CCM. */
  lemma DriverIsCcm(aes: Cipher, tk: Block, nonce: Nonce, aad: seq<byte>, m: seq<byte>)
    requires 0 < |aad| < 0xff00
    ensures Masked(aes, tk, nonce, 1, m) + Mic(aes, tk, nonce, aad, m) == Encrypt(aes, tk, nonce, aad, m)
  {
    FedIsAuthenticated(nonce, aad, m);
  }

  function OutHeader(plain: seq<byte>): (h: seq<byte>)
    requires |plain| >= HEADER
    ensures |h| == HEADER
  {
    plain[..HEADER][1 := Protected(plain[1])]
  }

  /** The protected form of a frame. */
  function Sealed(aes: Cipher, tk: Block, plain: seq<byte>, pn: nat): (r: seq<byte>)
    requires |plain| > HEADER
    ensures |r| == |plain| + 16
  {
    var h := OutHeader(plain);
    var nonce := NonceFor(Sender(h), pn);
    h + CcmpHeader(pn) + Masked(aes, tk, nonce, 1, plain[HEADER..]) + Mic(aes, tk, nonce, Aad(h, HEADER), plain[HEADER..])
  }

  function FrameNonce(frame: seq<byte>, hdrLen: nat): Nonce
    requires |frame| >= hdrLen + 16
  {
    NonceFor(Sender(frame), PacketNumber(frame[hdrLen..hdrLen + 8]))
  }

  /** The payload of a protected frame, if it is authentic. */
  function Opened(aes: Cipher, tk: Block, frame: seq<byte>, hdrLen: nat): Option<seq<byte>> {
    if |frame| < hdrLen + 16 then None else
    var nonce := FrameNonce(frame, hdrLen);
    var p := Masked(aes, tk, nonce, 1, frame[hdrLen + 8..|frame| - 8]);
    if Mic(aes, tk, nonce, Aad(frame, hdrLen), p) == frame[|frame| - 8..] then Some(p) else None
  }

  // ---------------------------------------------------------------- packet numbers

  /** Two nonces agree exactly when the senders and the low 48 bits of the packet numbers do. */
  lemma NoncesAgree(a: seq<byte>, p: nat, b: seq<byte>, q: nat)
    requires |a| == 6 && |b| == 6
    ensures NonceFor(a, p) == NonceFor(b, q) <==> a == b && p % TWO_48 == q % TWO_48
  {
    Pow256Words();
    assert Pow256(6) == 0x1_0000 * Pow256(4);
    ToLeMod(p, 6);
    ToLeMod(q, 6);
    var x, y := NonceFor(a, p), NonceFor(b, q);
    if x == y {
      assert a == x[1..7] && b == y[1..7];
      assert Digits(p) == [x[12], x[11], x[10], x[9], x[8], x[7]];
      assert Digits(q) == [y[12], y[11], y[10], y[9], y[8], y[7]];
    }
    if p % TWO_48 == q % TWO_48 {
      SameDigits(p, q);
    }
  }

  lemma SameDigits(p: nat, q: nat)
    requires p % TWO_48 == q % TWO_48
    ensures Digits(p) == Digits(q)
  {
    Pow256Words();
    assert Pow256(6) == 0x1_0000 * Pow256(4);
    ToLeMod(p, 6);
    ToLeMod(q, 6);
    ToLeOfLe(Digits(p));
    ToLeOfLe(Digits(q));
  }

  lemma HeaderDigits(pn: nat)
    ensures Digits(PacketNumber(CcmpHeader(pn))) == Digits(pn)
  {
    var h := CcmpHeader(pn);
    assert [h[0], h[1], h[4], h[5], h[6], h[7]] == Digits(pn);
    ToLeOfLe(Digits(pn));
  }

  // ---------------------------------------------------------------- the round trips

  /** Opening undoes sealing, for every key, frame and packet number. */
  lemma OpenUndoesSeal(aes: Cipher, tk: Block, plain: seq<byte>, pn: nat)
    requires |plain| > HEADER
    ensures Opened(aes, tk, Sealed(aes, tk, plain, pn), HEADER) == Some(plain[HEADER..])
  {
    hide Masked, Mic, CcmpHeader, PacketNumber, Digits, WithoutFlags, Protected;
    var f, h, m := Sealed(aes, tk, plain, pn), OutHeader(plain), plain[HEADER..];
    var nonce := NonceFor(Sender(h), pn);
    var c, t := Masked(aes, tk, nonce, 1, m), Mic(aes, tk, nonce, Aad(h, HEADER), m);
    assert f == h + CcmpHeader(pn) + c + t;
    assert f[HEADER..HEADER + 8] == CcmpHeader(pn);
    assert f[HEADER + 8..|f| - 8] == c && f[|f| - 8..] == t;
    HeaderDigits(pn);
    assert Sender(f) == Sender(h);
    assert FrameNonce(f, HEADER) == nonce;
    assert Aad(f, HEADER) == Aad(h, HEADER);
    MaskedUndo(aes, tk, nonce, 1, m);
  }

  /** What sealing makes of the payload that a frame opened to. */
  lemma SealedAgain(aes: Cipher, tk: Block, frame: seq<byte>)
    requires Opened(aes, tk, frame, HEADER).Some? && |frame| > HEADER + 16
    ensures var p := Opened(aes, tk, frame, HEADER).value;
      var nonce := FrameNonce(frame, HEADER);
      var h := frame[..HEADER][1 := Protected(frame[1])];
      Sealed(aes, tk, frame[..HEADER] + p, PacketNumber(frame[HEADER..HEADER + 8]))
      == h + frame[HEADER..HEADER + 8][2 := 0][3 := 0x20] + frame[HEADER + 8..|frame| - 8] + Mic(aes, tk, nonce, Aad(h, HEADER), p)
  {
    hide Masked, Mic, Digits, WithoutFlags, Protected, NonceFor, PacketNumber, CcmpHeader, Aad;
    var p := Opened(aes, tk, frame, HEADER).value;
    var plain := frame[..HEADER] + p;
    var ch := frame[HEADER..HEADER + 8];
    HeaderOf(ch);
    assert plain[HEADER..] == p && OutHeader(plain) == frame[..HEADER][1 := Protected(frame[1])];
    assert Sender(OutHeader(plain)) == Sender(frame);
    MaskedUndo(aes, tk, FrameNonce(frame, HEADER), 1, frame[HEADER + 8..|frame| - 8]);
  }

  /** A frame that opens is the sealed form of what it opens to, if the bits that sealing fixes are
      as sealing leaves them. */
  lemma SealUndoesOpen(aes: Cipher, tk: Block, frame: seq<byte>)
    requires Opened(aes, tk, frame, HEADER).Some?
    requires |frame| > HEADER + 16
    ensures var p := Opened(aes, tk, frame, HEADER).value;
      Sealed(aes, tk, frame[..HEADER] + p, PacketNumber(frame[HEADER..HEADER + 8])) == frame <==>
      Protected(frame[1]) == frame[1] && frame[26] == 0 && frame[27] == 0x20
  {
    SealedAgain(aes, tk, frame);
    CheckedTag(aes, tk, frame);
    hide Masked, Mic, Digits, WithoutFlags, Protected, NonceFor, PacketNumber, CcmpHeader, Sealed, Opened, FrameNonce, Aad;
    var p := Opened(aes, tk, frame, HEADER).value;
    var h := frame[..HEADER][1 := Protected(frame[1])];
    var ch, c := frame[HEADER..HEADER + 8], frame[HEADER + 8..|frame| - 8];
    var tag := Mic(aes, tk, FrameNonce(frame, HEADER), Aad(h, HEADER), p);
    SameFrame(frame, h, ch[2 := 0][3 := 0x20], c, tag);
    if Protected(frame[1]) == frame[1] {
      assert h == frame[..HEADER];
      SameAad(frame);
    } else {
      assert h[1] != frame[1];
    }
  }

  lemma CheckedTag(aes: Cipher, tk: Block, frame: seq<byte>)
    requires Opened(aes, tk, frame, HEADER).Some?
    ensures Mic(aes, tk, FrameNonce(frame, HEADER), Aad(frame, HEADER), Opened(aes, tk, frame, HEADER).value) == frame[|frame| - 8..]
  {
    hide Mic, Masked, FrameNonce, Aad;
  }

  lemma SameAad(frame: seq<byte>)
    requires |frame| >= HEADER
    ensures Aad(frame[..HEADER], HEADER) == Aad(frame, HEADER)
  {
    assert frame[..HEADER][4..22] == frame[4..22];
  }

  /** A frame equals its parts exactly when each part is the one in its place. */
  lemma SameFrame(frame: seq<byte>, h: seq<byte>, ch: seq<byte>, c: seq<byte>, tag: seq<byte>)
    requires |frame| > HEADER + 16 && |h| == HEADER && |ch| == 8 && |tag| == 8
    requires c == frame[HEADER + 8..|frame| - 8]
    requires ch == frame[HEADER..HEADER + 8][2 := 0][3 := 0x20]
    ensures h + ch + c + tag == frame <==>
      h == frame[..HEADER] && frame[26] == 0 && frame[27] == 0x20 && tag == frame[|frame| - 8..]
  {
    var s := h + ch + c + tag;
    assert s[26] == 0 && s[27] == 0x20;
    assert s[..HEADER] == h && s[|s| - 8..] == tag;
    if h == frame[..HEADER] && frame[26] == 0 && frame[27] == 0x20 && tag == frame[|frame| - 8..] {
      assert ch == frame[HEADER..HEADER + 8];
      assert frame == frame[..HEADER] + frame[HEADER..HEADER + 8] + c + frame[|frame| - 8..];
    }
  }

  lemma HeaderOf(ch: seq<byte>)
    requires |ch| == 8
    ensures CcmpHeader(PacketNumber(ch)) == ch[2 := 0][3 := 0x20]
  {
    ToLeOfLe([ch[0], ch[1], ch[4], ch[5], ch[6], ch[7]]);
  }

  // ---------------------------------------------------------------- the driver's state

  /** Every nonce is the one for its place in the order of sending, modulo 2^48. */
  ghost predicate Numbered(nonces: seq<Nonce>) {
    forall i :: 0 <= i < |nonces| ==>
      exists sender: seq<byte> :: |sender| == 6 && nonces[i] == NonceFor(sender, i + 1)
  }

  lemma OneMore(nonces: seq<Nonce>, sender: seq<byte>)
    requires Numbered(nonces) && |sender| == 6
    ensures Numbered(nonces + [NonceFor(sender, |nonces| + 1)])
  {
    hide NonceFor;
  }

  /** Since the last reset of the counter, no two frames within 2^48 of each other share a nonce. */
  lemma NoncesDistinct(nonces: seq<Nonce>)
    requires Numbered(nonces)
    ensures forall i, j :: 0 <= i < j < |nonces| && j - i < TWO_48 ==> nonces[i] != nonces[j]
  {
    hide NonceFor;
    forall i, j | 0 <= i < j < |nonces| && j - i < TWO_48 ensures nonces[i] != nonces[j] {
      var a: seq<byte> :| |a| == 6 && nonces[i] == NonceFor(a, i + 1);
      var b: seq<byte> :| |b| == 6 && nonces[j] == NonceFor(b, j + 1);
      CloseDiffer(a, i + 1, b, j + 1);
    }
  }

  lemma CloseDiffer(a: seq<byte>, p: nat, b: seq<byte>, q: nat)
    requires |a| == 6 && |b| == 6 && p < q < p + TWO_48
    ensures NonceFor(a, p) != NonceFor(b, q)
  {
    hide NonceFor;
    NoncesAgree(a, p, b, q);
    SmallStep(p, q);
  }

  lemma SmallStep(p: nat, q: nat)
    requires p < q < p + TWO_48
    ensures p % TWO_48 != q % TWO_48
  {
  }

  /** The same sender's nonce comes back after exactly 2^48 frames. */
  lemma NonceReturns(sender: seq<byte>, pn: nat)
    requires |sender| == 6
    ensures NonceFor(sender, pn + TWO_48) == NonceFor(sender, pn)
  {
    NoncesAgree(sender, pn + TWO_48, sender, pn);
  }

  class Station {
    var ptk: seq<byte>
    var ptkReady: bool
    var txPn: nat
    ghost var nonces: seq<Nonce>

    /** The counter holds the number of frames sealed since it was last reset, modulo 2^64. */
    ghost predicate Valid()
      reads this
    {
      |ptk| == 64 && txPn == |nonces| % TWO_64 && Numbered(nonces)
    }

    constructor ()
      ensures Valid() && !ptkReady && nonces == []
    {
      ptk := Zeros(64);
      ptkReady := false;
      txPn := 0;
      nonces := [];
    }

    /** The handshake derives a pairwise key; packet numbers go on from where they were. */
    method DeriveKey(key: seq<byte>)
      requires Valid() && |key| == 64
      modifies `ptk, `ptkReady
      ensures Valid() && ptkReady && ptk == key
    {
      ptk := key;
      ptkReady := true;
    }

    /** Once the key is installed, packet numbers start again. */
    method ResetCounter()
      requires Valid()
      modifies `txPn, `nonces
      ensures Valid() && txPn == 0 && nonces == []
    {
      txPn := 0;
      nonces := [];
    }

    function TemporalKey(): Block
      requires |ptk| == 64
      reads this
    {
      ptk[32..48]
    }

    /** Seal a frame into `out`; zero means that nothing was done and no packet number was used. */
    method EncryptFrame(aes: Cipher, plain: seq<byte>, out: array<byte>) returns (n: nat)
      requires Valid()
      modifies this, out
      ensures Valid() && ptk == old(ptk) && ptkReady == old(ptkReady)
      ensures n == 0 <==> |plain| <= HEADER || |plain| + 16 > out.Length || !ptkReady
      ensures n == 0 ==> out[..] == old(out[..]) && nonces == old(nonces)
      ensures n > 0 ==>
        && n == |plain| + 16
        && out[..n] == Sealed(aes, TemporalKey(), plain, |nonces|)
        && out[n..] == old(out[n..])
        && nonces == old(nonces) + [NonceFor(Sender(plain), |nonces|)]
    {
      hide Sealed, NonceFor, Numbered, Digits;
      if |plain| <= HEADER || |plain| + 16 > out.Length || !ptkReady {
        return 0;
      }
      txPn := (txPn + 1) % TWO_64;
      var pn := txPn;
      OneMore(nonces, Sender(plain));
      nonces := nonces + [NonceFor(Sender(plain), |nonces| + 1)];
      n := Seal(aes, TemporalKey(), plain, pn, out);
      SamePacketNumber(Sender(plain), pn, |nonces|);
      SealedSame(aes, TemporalKey(), plain, pn, |nonces|);
    }

    method DecryptPayload(aes: Cipher, frame: seq<byte>, hdrLen: nat, plain: array<byte>) returns (len: Option<nat>)
      requires Valid()
      modifies plain
      ensures len.Some? <==>
        ptkReady && |frame| <= plain.Length + hdrLen + 16 && Opened(aes, TemporalKey(), frame, hdrLen).Some?
      ensures len.Some? ==>
        len.value <= plain.Length && plain[..len.value] == Opened(aes, TemporalKey(), frame, hdrLen).value
    {
      hide Opened;
      if !ptkReady {
        return None;
      }
      len := Open(aes, TemporalKey(), frame, hdrLen, plain);
    }
  }

  /** Check and open `frame` into `plain`. A frame that fails the check still leaves its unchecked
      payload in the buffer. */
  method Open(aes: Cipher, tk: Block, frame: seq<byte>, hdrLen: nat, plain: array<byte>) returns (len: Option<nat>)
    modifies plain
    ensures len == (
      if plain.Length + hdrLen + 16 < |frame| || Opened(aes, tk, frame, hdrLen).None? then None
      else Some(|frame| - hdrLen - 16))
    ensures len.Some? ==> plain[..len.value] == Opened(aes, tk, frame, hdrLen).value
    ensures var m := if hdrLen + 16 <= |frame| <= plain.Length + hdrLen + 16 then |frame| - hdrLen - 16 else 0;
      plain[m..] == old(plain[m..])
  {
    hide Masked, Aad, Chain, NonceFor, CounterBlock, Fed, XorSeq, PacketNumber;
    if |frame| < hdrLen + 16 {
      return None;
    }
    var m := |frame| - hdrLen - 16;
    if m > plain.Length {
      return None;
    }
    var nonce := NonceFor(Sender(frame), PacketNumber(frame[hdrLen..hdrLen + 8]));
    var _ := CryptPayload(aes, tk, nonce, frame[hdrLen + 8..|frame| - 8], plain, 0, 1);
    assert plain[0..m] == plain[..m];
    var mic := CbcMac(aes, tk, nonce, Aad(frame, hdrLen), plain[..m]);
    mic := XorSeq(mic, aes(tk, CounterBlock(nonce, 0))[..8]);
    if mic != frame[|frame| - 8..] {
      return None;
    }
    return Some(m);
  }

  lemma SamePacketNumber(sender: seq<byte>, pn: nat, count: nat)
    requires |sender| == 6 && pn % TWO_64 == count % TWO_64
    ensures NonceFor(sender, pn) == NonceFor(sender, count) && Digits(pn) == Digits(count)
  {
    Narrow(pn);
    Narrow(count);
    SameDigits(pn, count);
  }

  lemma Narrow(v: nat)
    ensures v % TWO_48 == v % TWO_64 % TWO_48
  {
    var q := v / TWO_64;
    assert v == 0x1_0000 * q * TWO_48 + v % TWO_64;
  }

  lemma SealedSame(aes: Cipher, tk: Block, plain: seq<byte>, pn: nat, count: nat)
    requires |plain| > HEADER && Digits(pn) == Digits(count)
    ensures Sealed(aes, tk, plain, pn) == Sealed(aes, tk, plain, count)
  {
  }

  method Seal(aes: Cipher, tk: Block, plain: seq<byte>, pn: nat, out: array<byte>) returns (n: nat)
    requires HEADER < |plain| && |plain| + 16 <= out.Length
    modifies out
    ensures n == |plain| + 16
    ensures out[..n] == Sealed(aes, tk, plain, pn)
    ensures out[n..] == old(out[n..])
  {
    hide Masked, Aad, CcmpHeader, Chain, Over, NonceFor, CounterBlock, Fed, XorSeq;
    ghost var was := out[..];
    Copy(out, 0, OutHeader(plain));
    Copy(out, HEADER, CcmpHeader(pn));
    var payload := plain[HEADER..];
    HeadOver(was, OutHeader(plain), CcmpHeader(pn));
    var nonce := NonceFor(Sender(out[..HEADER]), pn);
    var mic := CbcMac(aes, tk, nonce, Aad(out[..HEADER], HEADER), payload);
    mic := XorSeq(mic, aes(tk, CounterBlock(nonce, 0))[..8]);
    ghost var before := out[..];
    var _ := CryptPayload(aes, tk, nonce, payload, out, HEADER + 8, 1);
    OverIs(before, out[..], HEADER + 8, Masked(aes, tk, nonce, 1, payload));
    FourOver(was, OutHeader(plain), CcmpHeader(pn), Masked(aes, tk, nonce, 1, payload), mic);
    Copy(out, HEADER + 8 + |payload|, mic);
    n := HEADER + 8 + |payload| + |mic|;
  }

  method Copy(out: array<byte>, at: nat, data: seq<byte>)
    requires at + |data| <= out.Length
    modifies out
    ensures out[..] == Over(old(out[..]), at, data)
  {
    for i := 0 to |data|
      invariant forall j :: 0 <= j < at || at + |data| <= j < out.Length ==> out[j] == old(out[j])
      invariant forall j :: at <= j < at + i ==> out[j] == data[j - at]
    {
      out[at + i] := data[i];
    }
  }

  lemma OverAfter(s: seq<byte>, p: seq<byte>, d: seq<byte>)
    requires |p| + |d| <= |s| && s[..|p|] == p
    ensures Over(s, |p|, d)[..|p| + |d|] == p + d
    ensures Over(s, |p|, d)[|p| + |d|..] == s[|p| + |d|..]
  {
  }

  lemma FourOver(s: seq<byte>, a: seq<byte>, b: seq<byte>, c: seq<byte>, d: seq<byte>)
    requires |a| + |b| + |c| + |d| <= |s|
    ensures var n := |a| + |b| + |c| + |d|;
      var r := Over(Over(Over(Over(s, 0, a), |a|, b), |a| + |b|, c), |a| + |b| + |c|, d);
      r[..n] == a + b + c + d && r[n..] == s[n..]
  {
    hide Over;
    assert s[..0] == [] && [] + a == a && a + b + c + d == (a + b) + c + d;
    TwoOver(s, [], a, b);
    var t := Over(Over(s, 0, a), |a|, b);
    TwoOver(t, a + b, c, d);
    SameTail(s, t, |a| + |b|, |a| + |b| + |c| + |d|);
  }

  lemma TwoOver(s: seq<byte>, p: seq<byte>, c: seq<byte>, d: seq<byte>)
    requires |p| + |c| + |d| <= |s| && s[..|p|] == p
    ensures var r := Over(Over(s, |p|, c), |p| + |c|, d);
      r[..|p| + |c| + |d|] == p + c + d && r[|p| + |c| + |d|..] == s[|p| + |c| + |d|..]
  {
    hide Over;
    OverAfter(s, p, c);
    OverAfter(Over(s, |p|, c), p + c, d);
    SameTail(s, Over(s, |p|, c), |p| + |c|, |p| + |c| + |d|);
  }

  lemma SameTail(s: seq<byte>, r: seq<byte>, i: nat, j: nat)
    requires i <= j <= |s| == |r| && s[i..] == r[i..]
    ensures s[j..] == r[j..]
  {
    assert s[j..] == s[i..][j - i..] && r[j..] == r[i..][j - i..];
  }

  lemma OverIs(s: seq<byte>, r: seq<byte>, at: nat, data: seq<byte>)
    requires at + |data| <= |s| == |r|
    requires r[..at] == s[..at] && r[at..at + |data|] == data && r[at + |data|..] == s[at + |data|..]
    ensures r == Over(s, at, data)
  {
  }

  lemma HeadOver(s: seq<byte>, a: seq<byte>, b: seq<byte>)
    requires |a| + |b| <= |s|
    ensures Over(Over(s, 0, a), |a|, b)[..|a|] == a
  {
  }
}
