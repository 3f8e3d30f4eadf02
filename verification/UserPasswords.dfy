/** What the password hash of kernel/security/user.c tells apart, a known value of it, and how
    a secret is stored. */
module UserPasswords {
  import opened Basics
  import opened NumberText
  import opened UserDb
  import opened UserTable

  /** Multiplying by the inverse of the factor, which is odd. */
  function Back(x: bv64): bv64 {
    x * 0xce965057aff6957b
  }

  lemma Undone(x: bv64)
    ensures Back(x * 1099511628211) == x
  {
  }

  lemma Mixed(x: bv64, y: bv64, c: bv64)
    ensures x ^ c == y ^ c ==> x == y
    ensures c ^ x == c ^ y ==> x == y
  {
  }

  lemma TimesIs(x: bv64)
    ensures Times(x) == x * 1099511628211
  {
  }

  lemma UndoneTimes(x: bv64)
    ensures Back(Times(x)) == x
  {
    hide Back, Times;
    TimesIs(x);
    Undone(x);
  }

  lemma TimesApart(x: bv64, y: bv64)
    requires Times(x) == Times(y)
    ensures x == y
  {
    hide Back, Times;
    UndoneTimes(x);
    UndoneTimes(y);
  }

  lemma DigitsApart(x: bv4, y: bv4, x': bv4, y': bv4)
    requires (x as bv64 << 4) | y as bv64 == (x' as bv64 << 4) | y' as bv64
    ensures x == x' && y == y'
  {
  }

  lemma ByteDigits(n: int)
    ensures n % 256 == n / 16 % 16 * 16 + n % 16
  {
  }

  lemma BytesApart(c: char, d: char)
    requires ByteOf(c) == ByteOf(d)
    ensures c as int % 256 == d as int % 256
  {
    var m, n, m', n' := c as int / 16 % 16, c as int % 16, d as int / 16 % 16, d as int % 16;
    DigitsApart(m as bv4, n as bv4, m' as bv4, n' as bv4);
    DigitBack(m);
    DigitBack(n);
    DigitBack(m');
    DigitBack(n');
    ByteDigits(c as int);
    ByteDigits(d as int);
  }

  /** A step loses nothing of the state before it. */
  lemma StirStates(h: bv64, h': bv64, c: char)
    requires Stir(h, c) == Stir(h', c)
    ensures h == h'
  {
    hide Times, ByteOf;
    TimesApart(h ^ ByteOf(c), h' ^ ByteOf(c));
    Mixed(h, h', ByteOf(c));
  }

  /** Nor of the character. */
  lemma StirCharacters(h: bv64, c: char, d: char)
    requires Stir(h, c) == Stir(h, d)
    ensures c as int % 256 == d as int % 256
  {
    hide Times, ByteOf;
    TimesApart(h ^ ByteOf(c), h ^ ByteOf(d));
    Mixed(ByteOf(c), ByteOf(d), h);
    BytesApart(c, d);
  }

  lemma TakenFirst(h: bv64, s: string)
    requires s != ""
    ensures Fnv(h, s) == Fnv(Stir(h, s[0]), s[1..])
  {
    hide Stir;
  }

  lemma NothingTaken(h: bv64)
    ensures Fnv(h, "") == h
  {
    hide Stir;
  }

  lemma {:induction false} FnvConcat(h: bv64, s: string, t: string)
    ensures Fnv(h, s + t) == Fnv(Fnv(h, s), t)
    decreases |s|
  {
    hide Fnv, Stir;
    if s == "" {
      assert s + t == t;
      NothingTaken(h);
    } else {
      TakenFirst(h, s);
      TakenFirst(h, s + t);
      assert (s + t)[1..] == s[1..] + t;
      FnvConcat(Stir(h, s[0]), s[1..], t);
    }
  }

  /** Different states stay different, whatever is taken in. */
  lemma {:induction false} StatesApart(h: bv64, h': bv64, s: string)
    requires Fnv(h, s) == Fnv(h', s)
    ensures h == h'
    decreases |s|
  {
    hide Fnv, Stir;
    if s == "" {
      NothingTaken(h);
      NothingTaken(h');
    } else {
      TakenFirst(h, s);
      TakenFirst(h', s);
      StatesApart(Stir(h, s[0]), Stir(h', s[0]), s[1..]);
      StirStates(h, h', s[0]);
    }
  }

  /** Texts that differ in one character have different hashes. */
  lemma OneCharacter(h: bv64, a: string, c: char, d: char, b: string)
    requires Fnv(h, a + [c] + b) == Fnv(h, a + [d] + b)
    ensures c as int % 256 == d as int % 256
  {
    hide Fnv, Stir;
    var g := Fnv(h, a);
    assert a + [c] + b == a + ([c] + b) && a + [d] + b == a + ([d] + b);
    assert ([c] + b)[1..] == b && ([d] + b)[1..] == b;
    FnvConcat(h, a, [c] + b);
    FnvConcat(h, a, [d] + b);
    TakenFirst(g, [c] + b);
    TakenFirst(g, [d] + b);
    StatesApart(Stir(g, c), Stir(g, d), b);
    StirCharacters(g, c, d);
  }

  /** Under one salt, passwords that differ in one character never have the same hash. */
  lemma PasswordsApart(salt: nat, a: string, c: char, d: char, b: string)
    requires HashPassword(salt, a + [c] + b) == HashPassword(salt, a + [d] + b)
    ensures c as int % 256 == d as int % 256
  {
    hide Fnv, Digits;
    var head := SCHEME + Digits(salt, 16) + "$";
    assert head + (a + [c] + b) == head + a + [c] + b && head + (a + [d] + b) == head + a + [d] + b;
    NumbersApart(Fnv(1469598103934665603, head + a + [c] + b), Fnv(1469598103934665603, head + a + [d] + b));
    OneCharacter(1469598103934665603, head + a, c, d, b);
  }

  lemma NumberBack(x: bv64)
    ensures Number(x) as bv64 == x
  {
  }

  lemma NumbersApart(x: bv64, y: bv64)
    requires Number(x) == Number(y)
    ensures x == y
  {
    hide Number;
    NumberBack(x);
    NumberBack(y);
  }

  /** Once a password is set, one of the same length that differs from it in one character is refused. */
  lemma OtherRefused(users: seq<Record>, name: string, a: string, c: char, d: char, b: string)
    requires Find(users, name) < |users| && c as int % 256 != d as int % 256
    ensures var i := Find(users, name);
      var after := users[i := WithPassword(users[i], name, a + [c] + b)];
      Accepts(after, name, a + [c] + b) && !Accepts(after, name, a + [d] + b)
  {
    hide MakeSalt, HashPassword, Xor32, Find, Accepts;
    var i, password := Find(users, name), a + [c] + b;
    SetAccepts(users, i, name, password);
    var after := users[i := WithPassword(users[i], name, password)];
    WithPasswordIs(users[i], name, password);
    if HashPassword(after[i].salt, a + [d] + b) == after[i].hash {
      PasswordsApart(after[i].salt, a, c, d, b);
    }
    AcceptsIs(users, after, i, name, a + [d] + b);
  }

  lemma WithPasswordIs(u: Record, name: string, password: string)
    requires password != ""
    ensures var w := WithPassword(u, name, password);
      w.passwordSet && w.hash == HashPassword(w.salt, password) && w.name == u.name
  {
    hide MakeSalt, HashPassword, Xor32;
  }

  lemma AcceptsIs(users: seq<Record>, after: seq<Record>, i: nat, name: string, p: string)
    requires |after| == |users| && i < |users| && i == Find(users, name) && after[i].passwordSet
    requires forall j :: 0 <= j < |users| ==> after[j].name == users[j].name
    ensures Accepts(after, name, p) <==> HashPassword(after[i].salt, p) == after[i].hash
  {
    hide HashPassword, Find;
    SameNames(users, after, name);
  }

  // ---------------------------------------------------------------- known values

  lemma StirIs(h: bv64, c: char, b: bv64, r: bv64)
    requires ByteOf(c) == b && r == (h ^ b) * 1099511628211
    ensures Stir(h, c) == r
  {
    hide ByteOf, Times;
    TimesIs(h ^ b);
  }

  lemma LetterR()
    ensures ByteOf('r') == 0x72
  {
  }

  lemma LetterO()
    ensures ByteOf('o') == 0x6f
  {
  }

  lemma LetterT()
    ensures ByteOf('t') == 0x74
  {
  }

  /** The secret of a shadow line, character by character: the scheme, eight hexadecimal digits that
      are the salt, sixteen that are the hash, and the fixed rest. */
  lemma SecretLayout(u: Record)
    requires u.salt < TWO_32 && u.hash < TWO_64
    ensures var s := Secret(u);
      && |s| == 45 && s[..5] == "tnu1$" && s[13] == '$' && s[30..] == ":0:0:99999:7:::"
      && ValueFrom(s[5..13], 16, 0) == u.salt && ValueFrom(s[14..30], 16, 0) == u.hash
      && forall k :: (5 <= k < 13 || 14 <= k < 30) ==> IsDigit(s[k], 16)
  {
    hide Digits, ZeroPadded, ValueFrom, DigitValue;
    SecretDigits(u.salt, 8);
    SecretDigits(u.hash, 16);
    var s, a, b := Secret(u), ZeroPadded(Digits(u.salt, 16), 8), ZeroPadded(Digits(u.hash, 16), 16);
    assert s[5..13] == a && s[14..30] == b;
    assert forall k :: 0 <= k < 8 ==> s[5 + k] == a[k];
    assert forall k :: 0 <= k < 16 ==> s[14 + k] == b[k];
  }

  lemma SecretDigits(v: nat, width: nat)
    requires (width == 8 && v < TWO_32) || (width == 16 && v < TWO_64)
    ensures var s := ZeroPadded(Digits(v, 16), width);
      |s| == width && ValueFrom(s, 16, 0) == v && forall k :: 0 <= k < width ==> IsDigit(s[k], 16)
  {
    hide Digits, ValueFrom;
    SixteenPowers();
    DigitCount16(v, width);
    ReadPadded(v, 16, width, "");
    assert ZeroPadded(Digits(v, 16), width) + "" == ZeroPadded(Digits(v, 16), width);
  }

  lemma SixteenPowers()
    ensures Pow16(8) == TWO_32 && Pow16(16) == TWO_64
  {
    assert Pow16(4) == 65536;
    assert Pow16(8) == 65536 * Pow16(4);
    assert Pow16(12) == 65536 * Pow16(8);
    assert Pow16(16) == 65536 * Pow16(12);
  }

  /** The hash of "root" from the usual start. */
  lemma RootHash()
    ensures Fnv(1469598103934665603, "root") == 0x7deb83379609c65f
  {
    hide Fnv, Stir, ByteOf;
    LetterR();
    LetterO();
    LetterT();
    var s := "root";
    TakenFirst(1469598103934665603, s);
    TakenFirst(0x44bd99d473cdb283, s[1..]);
    TakenFirst(0x9bdf5000c6870704, s[2..]);
    TakenFirst(0x637c5c5157719ad1, s[3..]);
    NothingTaken(0x7deb83379609c65f);
    StirIs(1469598103934665603, 'r', 0x72, 0x44bd99d473cdb283);
    StirIs(0x44bd99d473cdb283, 'o', 0x6f, 0x9bdf5000c6870704);
    StirIs(0x9bdf5000c6870704, 'o', 0x6f, 0x637c5c5157719ad1);
    StirIs(0x637c5c5157719ad1, 't', 0x74, 0x7deb83379609c65f);
    assert s[1..][1..] == s[2..] && s[2..][1..] == s[3..] && s[3..][1..] == "";
  }

  /** The salt that root starts with. */
  lemma RootSalt()
    ensures MakeSalt("root", 0) == 0xa624102f
  {
    hide Fnv;
    RootHash();
  }
}
