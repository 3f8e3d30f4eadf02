/** The Internet checksum of kernel/drivers/net/net.c: RFC 1071, as section 3.1 of RFC 791 uses it. */
module Checksum {
  import opened Basics
  import opened Bytes

  /** The sum of the 16-bit big-endian words, an odd last byte counting as the high half of one. */
  function Sum(data: seq<byte>): nat {
    if data == [] then 0
    else if |data| == 1 then data[0] * 256
    else data[0] * 256 + data[1] + Sum(data[2..])
  }

  /** The one's complement value of a sum: between 1 and 65535, or 0 for 0. */
  function Folded(sum: nat): (f: nat)
    ensures f < 0x1_0000
  {
    if sum == 0 then 0 else 1 + (sum - 1) % 0xffff
  }

  function ChecksumOf(data: seq<byte>): (c: nat)
    ensures c < 0x1_0000
  {
    0xffff - Folded(Sum(data))
  }

  lemma {:induction false} SumBound(data: seq<byte>)
    ensures Sum(data) <= (|data| + 1) / 2 * 0xffff
  {
    if |data| > 1 {
      SumBound(data[2..]);
    }
  }

  /** Carrying the high half round keeps the folded value. */
  lemma CarryRound(sum: nat)
    requires sum >= 0x1_0000
    ensures Folded(sum % 0x1_0000 + sum / 0x1_0000) == Folded(sum)
    ensures 0 < sum % 0x1_0000 + sum / 0x1_0000 < sum
  {
    var low, high := sum % 0x1_0000, sum / 0x1_0000;
    assert sum - 1 == low + high - 1 + 0xffff * high;
    SameRest(low + high - 1, high);
  }

  lemma SameRest(x: nat, k: nat)
    ensures (x + 0xffff * k) % 0xffff == x % 0xffff
  {
  }

  /** The driver's two loops. The checksum is the right one for every buffer of at most 131074 bytes,
      and for a longer one exactly when what its 32-bit sum lost makes no difference. */
  method InetChecksum(data: seq<byte>) returns (c: nat)
    ensures |data| <= 131074 ==> c == ChecksumOf(data)
    ensures c == ChecksumOf(data) <==> Harmless(Sum(data))
  {
    var sum := AddWords(data);
    LostCarries(Sum(data));
    SumBound(data);
    hide Sum, Folded;
    while sum / 0x1_0000 != 0
      invariant Folded(sum) == Folded(Sum(data) % TWO_32)
      decreases sum
    {
      CarryRound(sum);
      sum := sum % 0x1_0000 + sum / 0x1_0000;
    }
    SmallFolded(sum);
    c := 0xffff - sum;
  }

  /** Nothing was lost, or a multiple of 65535 carries and something was left. */
  predicate Harmless(sum: nat) {
    sum < TWO_32 || (sum / TWO_32 % 0xffff == 0 && sum % TWO_32 != 0)
  }

  lemma LostCarries(sum: nat)
    ensures Folded(sum % TWO_32) == Folded(sum) <==> Harmless(sum)
  {
    var low, high := sum % TWO_32, sum / TWO_32;
    if high > 0 && low > 0 {
      assert sum - 1 == low - 1 + high + 0xffff * (0x1_0001 * high);
      SameRest(low - 1 + high, 0x1_0001 * high);
      SumOfRests(low - 1, high);
    }
  }

  lemma SumOfRests(x: nat, y: nat)
    ensures (x + y) % 0xffff == x % 0xffff <==> y % 0xffff == 0
  {
    var a, b := x % 0xffff, y % 0xffff;
    assert x + y == a + b + 0xffff * (x / 0xffff + y / 0xffff);
    SameRest(a + b, x / 0xffff + y / 0xffff);
  }

  lemma SmallFolded(sum: nat)
    requires sum < 0x1_0000
    ensures Folded(sum) == sum
  {
  }

  method AddWords(data: seq<byte>) returns (sum: nat)
    ensures sum == Sum(data) % TWO_32
  {
    hide Sum;
    var p := 0;
    sum := 0;
    SumEnd();
    assert data[p..] == data;
    while |data| - p > 1
      invariant p <= |data| && sum < TWO_32 && (sum + Sum(data[p..])) % TWO_32 == Sum(data) % TWO_32
    {
      SumStep(data[p..]);
      assert data[p..][2..] == data[p + 2..];
      var high: nat, low: nat := data[p], data[p + 1];
      Wrapped(sum, high * 256 + low, Sum(data[p + 2..]));
      sum := (sum + (high * 256 + low)) % TWO_32;
      p := p + 2;
    }
    if |data| - p == 1 {
      assert data[p..] == [data[p]];
      SumLast(data[p]);
      var high: nat := data[p];
      sum := (sum + high * 256) % TWO_32;
    } else {
      assert data[p..] == [];
    }
  }

  lemma Wrapped(sum: nat, word: nat, rest: nat)
    ensures ((sum + word) % TWO_32 + rest) % TWO_32 == (sum + (word + rest)) % TWO_32
  {
    var q := (sum + word) / TWO_32;
    assert sum + (word + rest) == (sum + word) % TWO_32 + rest + TWO_32 * q;
  }

  lemma SumEnd()
    ensures Sum([]) == 0
  {
  }

  lemma SumLast(b: byte)
    ensures Sum([b]) == b * 256
  {
  }

  lemma SumStep(data: seq<byte>)
    requires |data| > 1
    ensures Sum(data) == data[0] * 256 + data[1] + Sum(data[2..])
  {
  }

  // ---------------------------------------------------------------- what the checksum is

  /** Each byte counts by its place: 256-fold at an even one, in an odd last place too, singly at an odd
      one; zeros do not count. */
  lemma {:induction false} ByteCounts(data: seq<byte>, k: nat, b: byte)
    requires k < |data|
    ensures Sum(data[k := b]) == Sum(data) + (b - data[k]) * (if k % 2 == 0 then 256 else 1)
  {
    var r := data[k := b];
    if k < 2 {
      if |data| > 1 {
        SumStep(data);
        SumStep(r);
        assert r[2..] == data[2..];
      }
    } else {
      SumStep(data);
      SumStep(r);
      assert r[2..] == data[2..][k - 2 := b];
      ByteCounts(data[2..], k - 2, b);
    }
  }

  lemma {:induction false} ZerosSum(n: nat)
    ensures Sum(Zeros(n)) == 0
  {
    if n > 1 {
      assert Zeros(n)[2..] == Zeros(n - 2);
      ZerosSum(n - 2);
    }
  }

  /** The checksum and the sum add up to a multiple of 65535; it is 65535 for zeros only. */
  lemma ChecksumCompletes(data: seq<byte>)
    ensures (Sum(data) + ChecksumOf(data)) % 0xffff == 0
    ensures ChecksumOf(data) == 0xffff <==> Sum(data) == 0
  {
    hide Sum;
    var s := Sum(data);
    if s > 0 {
      var q := (s - 1) / 0xffff;
      assert s + ChecksumOf(data) == 0xffff * (q + 1);
    }
  }

  // ---------------------------------------------------------------- checksums in headers

  /** `put16` at an even place. */
  function Put(data: seq<byte>, at: nat, value: nat): (r: seq<byte>)
    requires at + 2 <= |data| && value < 0x1_0000
    ensures |r| == |data|
  {
    data[at := value / 256][at + 1 := value % 256]
  }

  lemma {:induction false} SumPut(data: seq<byte>, at: nat, value: nat)
    requires at % 2 == 0 && at + 2 <= |data| && value < 0x1_0000
    ensures Sum(Put(data, at, value)) == Sum(Put(data, at, 0)) + value
  {
    var r, z := Put(data, at, value), Put(data, at, 0);
    SumStep(r);
    SumStep(z);
    if at == 0 {
      assert r[2..] == data[2..] && z[2..] == data[2..];
    } else {
      assert r[2..] == Put(data[2..], at - 2, value) && z[2..] == Put(data[2..], at - 2, 0);
      SumPut(data[2..], at - 2, value);
    }
  }

  /** Putting the checksum of the buffer with a zero field into that field makes the checksum of the
      whole zero. Besides it only 0xffff does, in place of 0. */
  lemma FieldVerifies(data: seq<byte>, at: nat, value: nat)
    requires at % 2 == 0 && at + 2 <= |data| && value < 0x1_0000
    ensures var c := ChecksumOf(Put(data, at, 0));
      ChecksumOf(Put(data, at, value)) == 0 <==> value == c || (c == 0 && value == 0xffff)
  {
    SumPut(data, at, value);
    FoldedPlus(Sum(Put(data, at, 0)), value);
  }

  lemma FoldedPlus(s: nat, value: nat)
    requires value < 0x1_0000
    ensures Folded(s + value) == 0xffff <==> value == 0xffff - Folded(s) || (Folded(s) == 0xffff && value == 0xffff)
  {
    if s == 0 {
      if value > 0 {
        assert (value - 1) % 0xffff == if value == 0xffff then 0xfffe else value - 1;
      }
    } else {
      var f := Folded(s);
      var k := (s - 1) / 0xffff;
      assert s == f + 0xffff * k;
      assert s + value - 1 == f + value - 1 + 0xffff * k;
      SameRest(f + value - 1, k);
    }
  }
}
