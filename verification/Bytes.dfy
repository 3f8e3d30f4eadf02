/** Bytes and little-endian words, as the kernel structures and the disk images store them. */
module Bytes {
  import opened Basics

  type byte = b: int | 0 <= b < 256

  /** A string of `n` bytes holds the values below Pow256(n). */
  function Pow256(n: nat): (p: nat)
    ensures p > 0
  {
    if n == 0 then 1 else 256 * Pow256(n - 1)
  }

  lemma Pow256Words()
    ensures Pow256(2) == 0x1_0000 && Pow256(4) == TWO_32 && Pow256(8) == TWO_64
  {
    assert Pow256(2) == 0x1_0000;
    assert Pow256(4) == 0x1_0000 * Pow256(2);
    assert Pow256(6) == 0x1_0000 * Pow256(4);
    assert Pow256(8) == 0x1_0000 * Pow256(6);
  }

  /** The number a little-endian byte string denotes. */
  function Le(s: seq<byte>): (v: nat)
    ensures v < Pow256(|s|)
  {
    if s == [] then 0 else s[0] + 256 * Le(s[1..])
  }

  /** The `n` low bytes of `v`, least significant first. */
  function ToLe(v: nat, n: nat): (s: seq<byte>)
    ensures |s| == n
  {
    if n == 0 then [] else [v % 256] + ToLe(v / 256, n - 1)
  }

  lemma {:induction false} LeToLe(v: nat, n: nat)
    requires v < Pow256(n)
    ensures Le(ToLe(v, n)) == v
  {
    if n > 0 {
      LeToLe(v / 256, n - 1);
      assert ToLe(v, n)[1..] == ToLe(v / 256, n - 1);
    }
  }

  lemma {:induction false} ToLeOfLe(s: seq<byte>)
    ensures ToLe(Le(s), |s|) == s
  {
    if s != [] {
      ToLeOfLe(s[1..]);
      assert Le(s) % 256 == s[0] && Le(s) / 256 == Le(s[1..]);
    }
  }

  lemma {:induction false} ToLeMod(v: nat, n: nat)
    ensures Le(ToLe(v, n)) == v % Pow256(n)
  {
    if n > 0 {
      ToLeMod(v / 256, n - 1);
      assert ToLe(v, n)[1..] == ToLe(v / 256, n - 1);
      SplitMod(v, Pow256(n - 1));
    }
  }

  lemma SplitMod(v: nat, p: nat)
    requires p > 0
    ensures v % (256 * p) == v % 256 + 256 * (v / 256 % p)
  {
    var q, r := v / 256 / p, v / 256 % p;
    var low := v % 256 + 256 * r;
    assert v / 256 == p * q + r;
    assert v == 256 * p * q + low by {
      assert 256 * (p * q + r) == 256 * p * q + 256 * r;
    }
    assert low < 256 * p;
    Remainder(v, 256 * p, q, low);
  }

  lemma Remainder(v: nat, d: nat, q: nat, r: nat)
    requires d > 0 && v == d * q + r && r < d
    ensures v % d == r
  {
    var k := v / d - q;
    assert d * (v / d) == d * q + d * k;
    assert v % d == r - d * k;
  }

  /** Byte `i` of a little-endian word. */
  lemma {:induction false} ToLeAt(v: nat, n: nat, i: nat)
    requires i < n
    ensures ToLe(v, n)[i] == v / Pow256(i) % 256
  {
    if i > 0 {
      ToLeAt(v / 256, n - 1, i - 1);
      DivideTwice(v, 256, Pow256(i - 1));
    }
  }

  lemma DivideTwice(v: nat, a: nat, b: nat)
    requires a > 0 && b > 0
    ensures v / a / b == v / (a * b)
  {
    var q, r := v / a / b, v / a % b;
    assert v / a == b * q + r;
    assert v == a * (b * q + r) + v % a;
    assert a * (b * q + r) == (a * b) * q + a * r;
    assert a * r + v % a < a * b by {
      assert a * r <= a * (b - 1);
    }
    Remainder(v, a * b, q, a * r + v % a);
    SameQuotient(v, a * b, q, a * r + v % a);
  }

  lemma SameQuotient(v: nat, d: nat, q: nat, r: nat)
    requires d > 0 && v == d * q + r && r < d && v % d == r
    ensures v / d == q
  {
    assert d * (v / d) == d * q;
  }

  // ---------------------------------------------------------------- exclusive or

  /** The exclusive or of the low `n` bits of two numbers. */
  function XorBits(a: nat, b: nat, n: nat): nat {
    if n == 0 then 0 else (a + b) % 2 + 2 * XorBits(a / 2, b / 2, n - 1)
  }

  function Pow2(n: nat): nat {
    if n == 0 then 1 else 2 * Pow2(n - 1)
  }

  lemma {:induction false} XorBitsUndo(a: nat, b: nat, n: nat)
    requires a < Pow2(n)
    ensures XorBits(a, b, n) < Pow2(n)
    ensures XorBits(XorBits(a, b, n), b, n) == a
  {
    if n > 0 {
      var rest := XorBits(a / 2, b / 2, n - 1);
      XorBitsUndo(a / 2, b / 2, n - 1);
      var x := (a + b) % 2 + 2 * rest;
      assert x / 2 == rest && x % 2 == (a + b) % 2;
      assert (x + b) % 2 == a % 2 by {
        ParityUndo(a, b, x);
      }
    }
  }

  lemma ParityUndo(a: nat, b: nat, x: nat)
    requires x % 2 == (a + b) % 2
    ensures (x + b) % 2 == a % 2
  {
  }

  lemma {:induction false} XorBitsZero(b: nat, n: nat)
    requires b < Pow2(n)
    ensures XorBits(0, b, n) == b
  {
    if n > 0 {
      XorBitsZero(b / 2, n - 1);
    }
  }

  function Xor(a: byte, b: byte): byte {
    assert Pow2(8) == 256;
    XorBitsUndo(a, b, 8);
    XorBits(a, b, 8)
  }

  lemma XorUndo(a: byte, b: byte)
    ensures Xor(Xor(a, b), b) == a && Xor(0, b) == b
  {
    assert Pow2(8) == 256;
    XorBitsUndo(a, b, 8);
    XorBitsZero(b, 8);
  }

  lemma {:induction false} XorBitsSwap(a: nat, b: nat, n: nat)
    ensures XorBits(a, b, n) == XorBits(b, a, n)
  {
    if n > 0 {
      XorBitsSwap(a / 2, b / 2, n - 1);
    }
  }

  /** Whichever side is kept, the result tells the other side. */
  lemma XorCancels(a: byte, b: byte, c: byte)
    ensures Xor(a, c) == Xor(b, c) ==> a == b
    ensures Xor(c, a) == Xor(c, b) ==> a == b
  {
    hide XorBits;
    XorUndo(a, c);
    XorUndo(b, c);
    XorBitsSwap(a, c, 8);
    XorBitsSwap(b, c, 8);
  }

  function XorSeq(a: seq<byte>, b: seq<byte>): (r: seq<byte>)
    requires |a| <= |b|
    ensures |r| == |a|
  {
    seq(|a|, i requires 0 <= i < |a| => Xor(a[i], b[i]))
  }

  function Zeros(n: nat): (r: seq<byte>)
    ensures |r| == n && forall i :: 0 <= i < n ==> r[i] == 0
  {
    seq(n, _ => 0)
  }

  // ---------------------------------------------------------------- writing into a buffer

  /** `s` with `data` written over it at `at`. */
  function Over(s: seq<byte>, at: nat, data: seq<byte>): (r: seq<byte>)
    requires at + |data| <= |s|
    ensures |r| == |s|
  {
    s[..at] + data + s[at + |data|..]
  }

  /** A slice of a slice. */
  lemma Nested(s: seq<byte>, a: nat, t: seq<byte>, lo: nat, hi: nat, e: seq<byte>)
    requires a + |t| <= |s| && s[a..a + |t|] == t
    requires lo <= hi <= |t| && t[lo..hi] == e
    ensures s[a + lo..a + hi] == e
  {
    forall k | 0 <= k < hi - lo ensures s[a + lo..a + hi][k] == e[k] {
      assert s[a + lo + k] == s[a..a + |t|][lo + k] == t[lo + k] == t[lo..hi][k];
    }
  }

  /** `s` holds `part` at `at`. */
  predicate At(s: seq<byte>, at: nat, part: seq<byte>) {
    at + |part| <= |s| && s[at..at + |part|] == part
  }

  lemma OverInside(s: seq<byte>, at: nat, data: seq<byte>)
    requires at + |data| <= |s|
    ensures At(Over(s, at, data), at, data)
  {
  }

  lemma OverOutside(s: seq<byte>, at: nat, data: seq<byte>, i: nat, part: seq<byte>)
    requires at + |data| <= |s| && At(s, i, part)
    requires i + |part| <= at || at + |data| <= i
    ensures At(Over(s, at, data), i, part)
  {
    var r := Over(s, at, data);
    forall k | i <= k < i + |part| ensures r[k] == s[k] {
    }
    assert r[i..i + |part|] == s[i..i + |part|];
  }
}
