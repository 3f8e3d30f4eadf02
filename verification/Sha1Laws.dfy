/** HMAC and PBKDF2 of kernel/lib/crypto.c byte by byte, and what the padding of SHA-1 is. */
module Sha1Laws {
  import opened Bytes
  import opened Sha1

  // ---------------------------------------------------------------- padding

  /** No fewer zero bytes would do. */
  lemma GapLeast(n: nat, z: nat)
    requires z < Gap(n)
    ensures (n + 1 + z + 8) % 64 != 0
  {
  }

  /** The padded message is the message, the byte 0x80, zeros, and the number of bits in eight bytes. */
  lemma PaddingParts(n: nat, k: nat)
    requires k < |Padding(n)|
    ensures 9 <= |Padding(n)| <= 72
    ensures Padding(n)[k] ==
      if k == 0 then 0x80 else if k < |Padding(n)| - 8 then 0 else 8 * n / Pow256(|Padding(n)| - 1 - k) % 256
  {
    hide ToBe, Pow256;
    var g := Gap(n);
    if k >= g + 1 {
      ToBeAt(8 * n, 8, k - g - 1);
    }
  }

  /** Byte `i` of a big-endian number. */
  lemma {:induction false} ToBeAt(v: nat, n: nat, i: nat)
    requires i < n
    ensures ToBe(v, n)[i] == v / Pow256(n - 1 - i) % 256
  {
    if i < n - 1 {
      ToBeAt(v / 256, n - 1, i);
      DivideTwice(v, 256, Pow256(n - 2 - i));
    }
  }

  // ---------------------------------------------------------------- HMAC

  /** Byte `j` of the key, which is hashed if it is longer than a block and filled up with zeros. */
  function KeyByte(key: seq<byte>, j: nat): byte {
    var k := if |key| <= 64 then key else Hash(key);
    if j < |k| then k[j] else 0
  }

  /** RFC 2104 byte by byte: the hash of the outer pad and the hash of the inner pad and the text. */
  lemma HmacBytes(key: seq<byte>, text: seq<byte>, inner: seq<byte>, outer: seq<byte>)
    requires |inner| == 64 && forall j :: 0 <= j < 64 ==> inner[j] == Xor(KeyByte(key, j), 0x36)
    requires |outer| == 64 && forall j :: 0 <= j < 64 ==> outer[j] == Xor(KeyByte(key, j), 0x5c)
    ensures Hmac(key, text) == Hash(outer + Hash(inner + text))
  {
    hide Hash, Xor;
    assert forall j :: 0 <= j < 64 ==> BlockKey(key)[j] == KeyByte(key, j);
    assert inner == XorByte(BlockKey(key), 0x36) && outer == XorByte(BlockKey(key), 0x5c);
  }

  // ---------------------------------------------------------------- PBKDF2

  /** Every iteration counts: what it adds is the HMAC of the iteration before. */
  lemma IterationCounts(password: seq<byte>, salted: seq<byte>, n: nat)
    requires n > 0
    ensures XorSeq(Sum(password, salted, n + 1), Sum(password, salted, n)) == Hmac(password, Iterate(password, salted, n))
    ensures Sum(password, salted, 1) == Iterate(password, salted, 1) == Hmac(password, salted)
  {
    hide Hmac, Xor;
    var a, b := Sum(password, salted, n), Iterate(password, salted, n + 1);
    forall i | 0 <= i < 20 ensures XorSeq(XorSeq(a, b), a)[i] == b[i] {
      XorSwap(a[i], b[i]);
      XorUndo(b[i], a[i]);
    }
  }

  lemma XorSwap(a: byte, b: byte)
    ensures Xor(a, b) == Xor(b, a)
  {
    XorBitsSwap(a, b, 8);
  }

  /** Byte `j` of the derived key comes from the part of that number, which starts from the salt and the
      number in four bytes. */
  lemma DerivedAt(password: seq<byte>, salt: seq<byte>, count: nat, length: nat, j: nat)
    requires count > 0 && j < length
    ensures var i := 1 + j / 20;
      DerivedKey(password, salt, count, length)[j]
        == Sum(password, salt + [i / Pow256(3) % 256, i / Pow256(2) % 256, i / Pow256(1) % 256, i / Pow256(0) % 256], count)[j % 20]
  {
    hide Sum, ToBe, Pow256;
    var i := 1 + j / 20;
    PartsAt(password, salt, count, (length + 19) / 20, j);
    ToBeAt(i, 4, 0);
    ToBeAt(i, 4, 1);
    ToBeAt(i, 4, 2);
    ToBeAt(i, 4, 3);
    assert ToBe(i, 4) == [i / Pow256(3) % 256, i / Pow256(2) % 256, i / Pow256(1) % 256, i / Pow256(0) % 256];
  }

  lemma {:induction false} PartsAt(password: seq<byte>, salt: seq<byte>, count: nat, n: nat, j: nat)
    requires count > 0 && j < 20 * n
    ensures Parts20(password, salt, count, n)[j] == Part(password, salt, count, 1 + j / 20)[j % 20]
  {
    hide Part;
    if j < 20 * (n - 1) {
      PartsAt(password, salt, count, n - 1, j);
    } else {
      assert j / 20 == n - 1 && j % 20 == j - 20 * (n - 1);
    }
  }

  /** A longer key from the same password only adds bytes. */
  lemma DerivedPrefix(password: seq<byte>, salt: seq<byte>, count: nat, m: nat, n: nat)
    requires count > 0 && m <= n
    ensures DerivedKey(password, salt, count, m) == DerivedKey(password, salt, count, n)[..m]
  {
    hide Parts20, Part;
    forall j | 0 <= j < m ensures DerivedKey(password, salt, count, m)[j] == DerivedKey(password, salt, count, n)[j] {
      PartsAt(password, salt, count, (m + 19) / 20, j);
      PartsAt(password, salt, count, (n + 19) / 20, j);
    }
  }
}
