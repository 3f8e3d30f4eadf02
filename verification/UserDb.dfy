/** The user table and its two text files (kernel/security/user.c): what is written to /etc/passwd
    and /etc/shadow, and what users_init makes of them. */
module UserDb {
  import opened Basics
  import opened NumberText

  const MAX_USERS := 32
  const NAME_MAX := 31
  const HOME_MAX := 127
  const SHELL_MAX := 127
  const FILE_MAX := 2048
  const SCHEME := "tnu1$"
  const SHADOW_REST := ":0:0:99999:7:::"

  datatype Record = Record(name: string, uid: nat, gid: nat, home: string, shell: string, salt: nat, hash: nat, passwordSet: bool)

  // ---------------------------------------------------------------- hashing

  /** The character as an unsigned byte, from its two hexadecimal digits. */
  function ByteOf(c: char): bv64 {
    ((c as int / 16 % 16) as bv4 as bv64 << 4) | (c as int % 16) as bv4 as bv64
  }

  function Times(x: bv64): bv64 {
    x * 1099511628211
  }

  function Stir(h: bv64, c: char): bv64 {
    Times(h ^ ByteOf(c))
  }

  function Fnv(h: bv64, s: string): bv64
    decreases |s|
  {
    if s == "" then h else Fnv(Stir(h, s[0]), s[1..])
  }

  function MakeSalt(name: string, uid: nat): nat {
    var h := (Fnv(1469598103934665603, name) ^ (uid % TWO_32) as bv64) * 1099511628211;
    var k := h ^ 0x544e_5531;
    (k ^ (k >> 32)) as nat % TWO_32
  }

  function Number(x: bv64): (n: nat)
    ensures n < TWO_64
  {
    x as nat
  }

  function HashPassword(salt: nat, password: string): (h: nat)
    ensures h < TWO_64
  {
    Number(Fnv(1469598103934665603, SCHEME + Digits(salt, 16) + "$" + password))
  }

  // ---------------------------------------------------------------- text files

  /** The place of the first `c`, or the length. */
  function IndexOf(s: string, c: char): (i: nat)
    ensures i <= |s| && c !in s[..i] && (i < |s| ==> s[i] == c)
  {
    if s == "" || s[0] == c then 0 else
    var j := IndexOf(s[1..], c);
    assert s[..1 + j] == [s[0]] + s[1..][..j];
    1 + j
  }

  lemma IndexIs(a: string, c: char, rest: string)
    requires c !in a
    ensures IndexOf(a + [c] + rest, c) == |a|
  {
    IndexUnique(a + [c] + rest, c, |a|);
  }

  lemma IndexUnique(s: string, c: char, i: nat)
    requires i <= |s| && c !in s[..i] && (i < |s| ==> s[i] == c)
    ensures IndexOf(s, c) == i
  {
    var j := IndexOf(s, c);
    assert forall k :: 0 <= k < i ==> s[..i][k] == s[k];
    assert forall k :: 0 <= k < j ==> s[..j][k] == s[k];
  }

  /** The pieces between line ends. */
  function LinesOf(s: string): seq<string> {
    var i := IndexOf(s, '\n');
    if i == |s| then [s] else [s[..i]] + LinesOf(s[i + 1..])
  }

  /** Colon-separated fields, at most `n`; the last one takes all that is left. */
  function Fields(s: string, n: nat): seq<string>
    requires n > 0
  {
    var i := IndexOf(s, ':');
    if n == 1 || i == |s| then [s] else [s[..i]] + Fields(s[i + 1..], n - 1)
  }

  /** What `ksnprintf` leaves of a line in a buffer. */
  function Cut(s: string, size: nat): string
    requires size > 0
  {
    if |s| < size then s else s[..size - 1]
  }

  /** Lines one after the other, leaving out those that the buffer has no room for. */
  function Gathered(lines: seq<string>): string {
    if lines == [] then "" else
    var before, last := Gathered(lines[..|lines| - 1]), lines[|lines| - 1];
    if |before| + |last| < FILE_MAX then before + last else before
  }

  /** The part of a file that is read: up to 2047 characters and no further than a null character. */
  function ReadPart(file: string): string {
    var s := Clip(file, FILE_MAX - 1);
    s[..IndexOf(s, '\0')]
  }

  // ---------------------------------------------------------------- writing

  /** The seven fields of a line, without its end. */
  function PasswdBody(u: Record): string {
    u.name + ":" + ("x:" + (Digits(u.uid, 10) + ":" + (Digits(u.gid, 10) + ":" + (u.name + ":" + (u.home + ":" + u.shell)))))
  }

  function PasswdLine(u: Record): string {
    PasswdBody(u) + "\n"
  }

  function ShadowBody(u: Record): string {
    u.name + ":" + if u.passwordSet then Secret(u) else SHADOW_REST
  }

  /** The second field of a shadow line, and what follows. */
  function Secret(u: Record): string {
    SCHEME + (ZeroPadded(Digits(u.salt, 16), 8) + "$" + (ZeroPadded(Digits(u.hash, 16), 16) + SHADOW_REST))
  }

  function ShadowLine(u: Record): string {
    ShadowBody(u) + "\n"
  }

  function PasswdLines(users: seq<Record>): (r: seq<string>)
    ensures |r| == |users|
  {
    seq(|users|, i requires 0 <= i < |users| => Cut(PasswdLine(users[i]), 256))
  }

  function ShadowLines(users: seq<Record>): (r: seq<string>)
    ensures |r| == |users|
  {
    seq(|users|, i requires 0 <= i < |users| => Cut(ShadowLine(users[i]), 192))
  }

  // ---------------------------------------------------------------- reading

  function NewRecord(name: string, uid: nat, gid: nat, home: string, shell: string): Record {
    Record(Clip(name, NAME_MAX), uid, gid, Clip(home, HOME_MAX), Clip(shell, SHELL_MAX), MakeSalt(name, uid), 0, false)
  }

  function Added(users: seq<Record>, u: Record): seq<Record> {
    if |users| >= MAX_USERS then users else users + [u]
  }

  function PasswdRead(users: seq<Record>, line: string): seq<Record> {
    var f := Fields(line, 7);
    if |f| < 7 then users
    else Added(users, NewRecord(f[0], Signed(f[2]) % TWO_32, Signed(f[3]) % TWO_32, f[5], f[6]))
  }

  /** The first record with the name, or the number of records. */
  function Find(users: seq<Record>, name: string): (i: nat)
    ensures i <= |users| && (i < |users| ==> users[i].name == name)
    ensures forall j :: 0 <= j < i ==> users[j].name != name
  {
    if users == [] || users[0].name == name then 0 else 1 + Find(users[1..], name)
  }

  function ShadowRead(users: seq<Record>, line: string): seq<Record> {
    var colon := IndexOf(line, ':');
    if colon == |line| || colon + 1 == |line| then users
    else WithSecret(users, Find(users, line[..colon]), line[colon + 1..])
  }

  /** Record `i` with the password that the second field describes, if it is one of ours. */
  function WithSecret(users: seq<Record>, i: nat, rest: string): seq<Record>
    requires i <= |users|
  {
    if i == |users| || !(SCHEME <= rest) then users else
    var salted := rest[|SCHEME|..];
    var dollar := IndexOf(salted, '$');
    if dollar == |salted| then users else
    users[i := users[i].(salt := ValueFrom(salted[..dollar], 16, 0) % TWO_64 % TWO_32,
      hash := ValueFrom(salted[dollar + 1..], 16, 0) % TWO_64, passwordSet := true)]
  }

  /** One line of either file. */
  function LineRead(shadow: bool, users: seq<Record>, line: string): seq<Record> {
    if line == "" then users else if shadow then ShadowRead(users, line) else PasswdRead(users, line)
  }

  function AllRead(shadow: bool, users: seq<Record>, lines: seq<string>): seq<Record> {
    if lines == [] then users
    else LineRead(shadow, AllRead(shadow, users, lines[..|lines| - 1]), lines[|lines| - 1])
  }

  const ROOT := NewRecord("root", 0, 0, "/root", "/bin/tsh")

  /** The table that users_init builds from the two files. */
  function Loaded(passwd: string, shadow: string): seq<Record> {
    var users := AllRead(false, [], LinesOf(ReadPart(passwd)));
    var rooted := if Find(users, "root") == |users| then [ROOT] else users;
    AllRead(true, rooted, LinesOf(ReadPart(shadow)))
  }

  // ---------------------------------------------------------------- tables that survive

  predicate Flat(s: string) {
    '\n' !in s && '\0' !in s
  }

  predicate Plain(s: string) {
    ':' !in s && '\n' !in s && '\0' !in s
  }

  /** A record whose fields fit and hold no delimiters; the shell may hold colons, since the last field of
      a line takes all that is left. */
  predicate Clean(u: Record) {
    && Plain(u.name) && Plain(u.home) && Flat(u.shell)
    && |u.name| <= NAME_MAX && |u.home| <= HOME_MAX && |u.shell| <= SHELL_MAX
    && u.uid < TWO_32 && u.gid < TWO_32 && u.salt < TWO_32 && u.hash < TWO_64
    && (!u.passwordSet ==> u.hash == 0)
  }

  /** The line fits its 256-byte buffer with its end. */
  predicate Short(u: Record) {
    |PasswdLine(u)| < 256
  }

  /** Every line but the last keeps its end; the last may do without. */
  predicate Unbroken(users: seq<Record>) {
    && (forall i :: 0 <= i < |users| - 1 ==> Short(users[i]))
    && (users != [] ==> |PasswdLine(users[|users| - 1])| <= 256)
  }

  /** Of users who share a name only the first, who is the one that is found, has a password. */
  predicate SecretsFirst(users: seq<Record>) {
    forall i :: 0 <= i < |users| && users[i].passwordSet ==> Find(users, users[i].name) == i
  }

  function TotalLength(lines: seq<string>): nat {
    if lines == [] then 0 else TotalLength(lines[..|lines| - 1]) + |lines[|lines| - 1]|
  }

  predicate Storable(users: seq<Record>) {
    && |users| <= MAX_USERS
    && (forall i :: 0 <= i < |users| ==> Clean(users[i]))
    && SecretsFirst(users)
    && Find(users, "root") < |users|
  }

  // ---------------------------------------------------------------- reading back whole lines

  /** Text made of whole lines. */
  predicate WholeLines(t: string) {
    t == "" || t[|t| - 1] == '\n'
  }

  lemma FirstLine(line: string, rest: string)
    requires '\n' !in line
    ensures LinesOf(line + ['\n'] + rest) == [line] + LinesOf(rest)
  {
    var s := line + ['\n'] + rest;
    IndexIs(line, '\n', rest);
    assert s[..|line|] == line && s[|line| + 1..] == rest;
  }

  /** Text behind whole lines is split by itself. */
  lemma {:induction false} LinesOfConcat(t: string, x: string)
    requires WholeLines(t)
    ensures LinesOf(t) != []
    ensures var n := |LinesOf(t)| - 1;
      LinesOf(t)[n] == "" && LinesOf(t + x) == LinesOf(t)[..n] + LinesOf(x)
  {
    hide LinesOf;
    if t == "" {
      assert t + x == x;
      NoLines();
    } else {
      var i := FirstEnd(t);
      var line, rest := t[..i], t[i + 1..];
      LinesOfConcat(rest, x);
      FirstLine(line, rest);
      FirstLine(line, rest + x);
      Regroup(t, line, rest, x);
      OneLineBefore(LinesOf(rest), line, LinesOf(x), LinesOf(rest + x));
    }
  }

  lemma Regroup(t: string, line: string, rest: string, x: string)
    requires |line| < |t| && line == t[..|line|] && t[|line|] == '\n' && rest == t[|line| + 1..]
    ensures t == line + ['\n'] + rest && t + x == line + ['\n'] + (rest + x)
  {
  }

  lemma OneLineBefore(ls: seq<string>, line: string, xs: seq<string>, more: seq<string>)
    requires ls != [] && ls[|ls| - 1] == "" && more == ls[..|ls| - 1] + xs
    ensures var all := [line] + ls; var n := |all| - 1;
      all[n] == "" && [line] + more == all[..n] + xs
  {
  }

  lemma NoLines()
    ensures LinesOf("") == [""]
  {
  }

  lemma FirstEnd(t: string) returns (i: nat)
    requires t != "" && WholeLines(t)
    ensures i < |t| && t[i] == '\n' && '\n' !in t[..i] && WholeLines(t[i + 1..])
  {
    i := IndexOf(t, '\n');
    assert t[..|t|] == t && t[|t| - 1] in t;
  }

  /** Reading text with one more line reads that line last, with or without its end. */
  lemma ReadOneMore(shadow: bool, users: seq<Record>, t: string, body: string)
    requires WholeLines(t) && '\n' !in body
    ensures AllRead(shadow, users, LinesOf(t + body + "\n")) == LineRead(shadow, AllRead(shadow, users, LinesOf(t)), body)
    ensures AllRead(shadow, users, LinesOf(t + body)) == LineRead(shadow, AllRead(shadow, users, LinesOf(t)), body)
  {
    hide LinesOf, LineRead;
    LinesOfConcat(t, body + "\n");
    LinesOfConcat(t, body);
    OneLine(body);
    assert t + (body + "\n") == t + body + "\n";
    var ls := LinesOf(t);
    var n := |ls| - 1;
    ReadLast(shadow, users, ls[..n], body);
    ReadLast(shadow, users, ls[..n] + [body], "");
    ReadLast(shadow, users, ls[..n], "");
    assert ls[..n] + [body, ""] == ls[..n] + [body] + [""];
    assert ls == ls[..n] + [""];
    NothingInLine(shadow, AllRead(shadow, users, ls[..n]));
    NothingInLine(shadow, AllRead(shadow, users, ls[..n] + [body]));
  }

  lemma ReadLast(shadow: bool, users: seq<Record>, ls: seq<string>, line: string)
    ensures AllRead(shadow, users, ls + [line]) == LineRead(shadow, AllRead(shadow, users, ls), line)
  {
    hide LineRead;
    assert (ls + [line])[..|ls|] == ls;
  }

  lemma NothingInLine(shadow: bool, users: seq<Record>)
    ensures LineRead(shadow, users, "") == users
  {
  }

  lemma OneLine(body: string)
    requires '\n' !in body
    ensures LinesOf(body) == [body] && LinesOf(body + "\n") == [body, ""]
  {
    assert body + "\n" == body + ['\n'] + "";
    FirstLine(body, "");
    NoLines();
    assert body[..|body|] == body;
    IndexUnique(body, '\n', |body|);
  }

  // ---------------------------------------------------------------- one line of each file

  /** What a passwd line alone brings back. */
  function Blank(u: Record): Record {
    u.(salt := MakeSalt(u.name, u.uid), hash := 0, passwordSet := false)
  }

  function Blanks(users: seq<Record>): (r: seq<Record>)
    ensures |r| == |users|
  {
    hide Blank;
    seq(|users|, i requires 0 <= i < |users| => Blank(users[i]))
  }

  lemma FieldsStep(a: string, rest: string, n: nat)
    requires ':' !in a && n > 1
    ensures Fields(a + ":" + rest, n) == [a] + Fields(rest, n - 1)
  {
    var s := a + ":" + rest;
    IndexIs(a, ':', rest);
    assert s[..|a|] == a && s[|a| + 1..] == rest;
  }

  lemma DigitsPlain(v: nat, base: nat)
    requires IsBase(base)
    ensures Plain(Digits(v, base)) && '$' !in Digits(v, base)
  {
  }

  lemma PasswdFields(u: Record)
    requires Clean(u)
    ensures Fields(PasswdBody(u), 7) == [u.name, "x", Digits(u.uid, 10), Digits(u.gid, 10), u.name, u.home, u.shell]
  {
    hide Fields, MakeSalt, Digits;
    DigitsPlain(u.uid, 10);
    DigitsPlain(u.gid, 10);
    var f6 := u.home + ":" + u.shell;
    var f5 := u.name + ":" + f6;
    var f4 := Digits(u.gid, 10) + ":" + f5;
    var f3 := Digits(u.uid, 10) + ":" + f4;
    assert "x:" + f3 == "x" + ":" + f3;
    FieldsStep(u.name, "x:" + f3, 7);
    FieldsStep("x", f3, 6);
    FieldsStep(Digits(u.uid, 10), f4, 5);
    FieldsStep(Digits(u.gid, 10), f5, 4);
    FieldsStep(u.name, f6, 3);
    FieldsStep(u.home, u.shell, 2);
    OneField(u.shell);
  }

  lemma OneField(s: string)
    ensures Fields(s, 1) == [s]
  {
  }

  lemma NumberBack(v: nat)
    requires v < TWO_32
    ensures Signed(Digits(v, 10)) % TWO_32 == v
  {
    ReadSigned(v, "");
    assert Digits(v, 10) + "" == Digits(v, 10);
  }

  lemma PasswdBack(users: seq<Record>, u: Record)
    requires Clean(u) && |users| < MAX_USERS
    ensures LineRead(false, users, PasswdBody(u)) == users + [Blank(u)]
  {
    hide MakeSalt, Digits, Signed, Fields, PasswdBody;
    PasswdFields(u);
    NumberBack(u.uid);
    NumberBack(u.gid);
    NotEmpty(u);
  }

  lemma NotEmpty(u: Record)
    ensures PasswdBody(u) != "" && ShadowBody(u) != ""
  {
  }

  lemma ShadowBack(users: seq<Record>, u: Record, i: nat)
    requires Clean(u) && i < |users| && Find(users, u.name) == i
    ensures LineRead(true, users, ShadowBody(u)) ==
      if u.passwordSet then users[i := users[i].(salt := u.salt, hash := u.hash, passwordSet := true)] else users
  {
    hide MakeSalt, Find, Secret, WithSecret, IndexOf, Clean;
    NotEmpty(u);
    var rest := if u.passwordSet then Secret(u) else SHADOW_REST;
    SplitShadow(u, rest);
    if u.passwordSet {
      SecretBack(u);
      SecretSet(users, u, i);
    } else {
      NoSecret(users, i);
    }
  }

  lemma SplitShadow(u: Record, rest: string)
    requires Clean(u) && rest == if u.passwordSet then Secret(u) else SHADOW_REST
    ensures var line := ShadowBody(u); var colon := IndexOf(line, ':');
      colon == |u.name| && line[..colon] == u.name && line[colon + 1..] == rest && colon + 1 <= |line|
  {
    hide MakeSalt, Secret;
    var line := ShadowBody(u);
    assert line == u.name + [':'] + rest;
    IndexIs(u.name, ':', rest);
  }

  lemma NoSecret(users: seq<Record>, i: nat)
    requires i <= |users|
    ensures WithSecret(users, i, SHADOW_REST) == users
  {
    assert SHADOW_REST[0] == ':';
  }

  lemma SecretSet(users: seq<Record>, u: Record, i: nat)
    requires Clean(u) && i < |users|
    ensures WithSecret(users, i, Secret(u)) == users[i := users[i].(salt := u.salt, hash := u.hash, passwordSet := true)]
  {
    hide MakeSalt, Secret, ValueFrom, IndexOf;
    SecretBack(u);
  }

  lemma SecretBack(u: Record)
    requires Clean(u)
    ensures SCHEME <= Secret(u) && Secret(u) != ""
    ensures var salted := Secret(u)[|SCHEME|..];
      var dollar := IndexOf(salted, '$');
      && dollar < |salted|
      && ValueFrom(salted[..dollar], 16, 0) % TWO_64 % TWO_32 == u.salt
      && ValueFrom(salted[dollar + 1..], 16, 0) % TWO_64 == u.hash
  {
    hide MakeSalt, Digits, ValueFrom, ZeroPadded, IndexOf, Secret;
    var a, b := ZeroPadded(Digits(u.salt, 16), 8), ZeroPadded(Digits(u.hash, 16), 16) + SHADOW_REST;
    var salted := a + ['$'] + b;
    SecretParts(u);
    PaddedPlain(u.salt, 8);
    IndexIs(a, '$', b);
    assert salted[..|a|] == a && salted[|a| + 1..] == b;
    ReadPadded(u.salt, 16, 8, "");
    assert a + "" == a;
    ReadPadded(u.hash, 16, 16, SHADOW_REST);
  }

  lemma SecretParts(u: Record)
    ensures SCHEME <= Secret(u) && Secret(u) != ""
    ensures Secret(u)[|SCHEME|..] == ZeroPadded(Digits(u.salt, 16), 8) + ['$'] + (ZeroPadded(Digits(u.hash, 16), 16) + SHADOW_REST)
  {
    hide Digits, ZeroPadded;
  }

  lemma PaddedPlain(v: nat, width: nat)
    ensures Plain(ZeroPadded(Digits(v, 16), width)) && '$' !in ZeroPadded(Digits(v, 16), width)
  {
    hide Digits;
    DigitsPlain(v, 16);
  }

  // ---------------------------------------------------------------- whole files

  /** The buffer still has room for line `i`. */
  predicate Room(lines: seq<string>, i: nat)
    requires i < |lines|
  {
    |Gathered(lines[..i])| + |lines[i]| < FILE_MAX
  }

  /** The users whose passwd lines were written. */
  function Kept(users: seq<Record>): (r: seq<Record>)
    ensures |r| <= |users|
  {
    if users == [] then [] else
    var n := |users| - 1;
    if Room(PasswdLines(users), n) then Kept(users[..n]) + [users[n]] else Kept(users[..n])
  }

  lemma GatheredStep(lines: seq<string>, n: nat)
    requires n < |lines|
    ensures Gathered(lines[..n + 1]) == if Room(lines, n) then Gathered(lines[..n]) + lines[n] else Gathered(lines[..n])
  {
    assert lines[..n + 1][..n] == lines[..n];
  }

  lemma PasswdLineIs(users: seq<Record>, n: nat)
    requires n < |users| && Clean(users[n])
    ensures var body := PasswdBody(users[n]);
      && PasswdLines(users)[n] == (if Short(users[n]) then body + "\n" else body[..255])
      && (Short(users[n]) <==> |body| < 255)
      && '\n' !in body && '\0' !in body
  {
    BodyPlain(users[n]);
    hide PasswdBody;
    var body := PasswdBody(users[n]);
    if |body| >= 255 {
      assert (body + "\n")[..255] == body[..255];
    }
  }

  lemma BodyPlain(u: Record)
    requires Clean(u)
    ensures '\n' !in PasswdBody(u) && '\0' !in PasswdBody(u)
  {
    hide Digits, MakeSalt;
    DigitsPlain(u.uid, 10);
    DigitsPlain(u.gid, 10);
  }

  lemma PrefixLines(users: seq<Record>, n: nat)
    requires n <= |users|
    ensures PasswdLines(users[..n]) == PasswdLines(users)[..n]
    ensures ShadowLines(users[..n]) == ShadowLines(users)[..n]
  {
  }

  /** Text that is read as it was written: whole lines, short enough, without null characters. */
  predicate Readable(t: string) {
    WholeLines(t) && |t| < FILE_MAX && '\0' !in t
  }

  lemma ReadableMore(t: string, body: string)
    requires Readable(t) && |t| + |body| + 1 < FILE_MAX && '\0' !in body
    ensures Readable(t + body + "\n")
  {
  }

  lemma ReadableRead(t: string)
    requires Readable(t)
    ensures ReadPart(t) == t
  {
    assert t[..|t|] == t;
    IndexUnique(t, '\0', |t|);
  }

  /** Reading back short lines gives the users whose lines were written, in order. */
  lemma {:induction false} ShortRoundTrip(users: seq<Record>)
    requires |users| <= MAX_USERS && forall i :: 0 <= i < |users| ==> Clean(users[i]) && Short(users[i])
    ensures var text := Gathered(PasswdLines(users));
      Readable(text) && AllRead(false, [], LinesOf(text)) == Blanks(Kept(users))
  {
    hide Digits, MakeSalt, LineRead, AllRead, LinesOf, PasswdBody, Clean, Blank, Blanks, Readable, PasswdLine, PasswdLines, Gathered, Short;
    if users == [] {
      NoLines();
      EmptyLine();
      NothingBack();
    } else {
      var n := |users| - 1;
      var lines := PasswdLines(users);
      ShortRoundTrip(users[..n]);
      PrefixLines(users, n);
      PasswdLineIs(users, n);
      GatheredStep(lines, n);
      assert lines[..n + 1] == lines;
      if Room(lines, n) {
        PasswdStep(Gathered(lines[..n]), Kept(users[..n]), users[n]);
        assert Gathered(lines) == Gathered(lines[..n]) + PasswdBody(users[n]) + "\n";
      }
    }
  }

  lemma NothingBack()
    ensures Blanks([]) == [] && Readable("") && Gathered([]) == ""
  {
  }

  lemma PasswdStep(t: string, kept: seq<Record>, u: Record)
    requires Readable(t) && AllRead(false, [], LinesOf(t)) == Blanks(kept) && |kept| < MAX_USERS
    requires Clean(u) && '\n' !in PasswdBody(u) && '\0' !in PasswdBody(u) && |t| + |PasswdBody(u)| + 1 < FILE_MAX
    ensures Readable(t + PasswdBody(u) + "\n")
    ensures AllRead(false, [], LinesOf(t + PasswdBody(u) + "\n")) == Blanks(kept + [u])
  {
    hide Digits, MakeSalt, LineRead, AllRead, LinesOf, PasswdBody, Clean, Blank;
    ReadOneMore(false, [], t, PasswdBody(u));
    ReadableMore(t, PasswdBody(u));
    PasswdBack(Blanks(kept), u);
    assert Blanks(kept + [u]) == Blanks(kept) + [Blank(u)];
  }

  lemma EmptyLine()
    ensures forall shadow, users :: AllRead(shadow, users, [""]) == users
  {
    forall shadow, users ensures AllRead(shadow, users, [""]) == users {
      assert [""][..0] == [];
    }
  }

  /** User `i` after the first `k` shadow lines were read: as it was if it has a password and its line
      was written. */
  function Restored(users: seq<Record>, k: nat): (r: seq<Record>)
    requires k <= |users|
    ensures |r| == |users|
  {
    seq(|users|, i requires 0 <= i < |users| =>
      if i < k && users[i].passwordSet && Room(ShadowLines(users), i) then users[i] else Blank(users[i]))
  }

  /** A user without a password comes back with the salt that its stored name gives. */
  function Settled(users: seq<Record>): (r: seq<Record>)
    ensures |r| == |users|
  {
    hide Blank;
    seq(|users|, i requires 0 <= i < |users| => if users[i].passwordSet then users[i] else Blank(users[i]))
  }

  lemma ShadowLineIs(users: seq<Record>, n: nat)
    requires n < |users| && Clean(users[n])
    ensures ShadowLines(users)[n] == ShadowBody(users[n]) + "\n"
    ensures '\n' !in ShadowBody(users[n]) && '\0' !in ShadowBody(users[n])
  {
    var u := users[n];
    ShadowLength(u);
    hide Digits, MakeSalt, Secret;
    SecretPlain(u);
  }

  lemma SecretPlain(u: Record)
    ensures '\n' !in Secret(u) && '\0' !in Secret(u)
  {
    hide Digits, ZeroPadded;
    PaddedPlain(u.salt, 8);
    PaddedPlain(u.hash, 16);
  }

  lemma ShadowLength(u: Record)
    requires Clean(u)
    ensures |ShadowLine(u)| < 192
  {
    hide Digits, MakeSalt;
    DigitCount16(u.salt, 8);
    DigitCount16(u.hash, 16);
  }

  function Pow16(n: nat): nat {
    if n == 0 then 1 else 16 * Pow16(n - 1)
  }

  lemma {:induction false} DigitCount16(v: nat, n: nat)
    requires n > 0 && v < Pow16(n)
    ensures |Digits(v, 16)| <= n
  {
    if v >= 16 {
      DigitCount16(v / 16, n - 1);
    }
  }

  /** Reading the shadow file back over the blank users restores those whose lines were written. */
  lemma {:induction false} ShadowRoundTrip(users: seq<Record>, k: nat)
    requires k <= |users| && SecretsFirst(users) && forall i :: 0 <= i < |users| ==> Clean(users[i])
    ensures var text := Gathered(ShadowLines(users)[..k]);
      Readable(text) && AllRead(true, Blanks(users), LinesOf(text)) == Restored(users, k)
  {
    hide Digits, MakeSalt, LineRead, AllRead, LinesOf, ShadowBody, Clean, Readable, ShadowLine, Restored, Blanks, Gathered;
    var lines := ShadowLines(users);
    if k == 0 {
      assert lines[..0] == [];
      NoLines();
      EmptyLine();
      NothingBack();
      NothingRestored(users);
    } else {
      var n := k - 1;
      ShadowRoundTrip(users, n);
      ShadowLineIs(users, n);
      GatheredStep(lines, n);
      if Room(lines, n) {
        assert Gathered(lines[..k]) == Gathered(lines[..n]) + ShadowBody(users[n]) + "\n";
        ShadowStep(Gathered(lines[..n]), users, n);
      } else {
        NotRestored(users, n);
      }
    }
  }

  lemma NothingRestored(users: seq<Record>)
    ensures Restored(users, 0) == Blanks(users)
  {
  }

  lemma NotRestored(users: seq<Record>, n: nat)
    requires n < |users| && !Room(ShadowLines(users), n)
    ensures Restored(users, n + 1) == Restored(users, n)
  {
    hide Room, ShadowLines;
  }

  lemma ShadowStep(t: string, users: seq<Record>, n: nat)
    requires n < |users| && SecretsFirst(users) && forall i :: 0 <= i < |users| ==> Clean(users[i])
    requires Readable(t) && AllRead(true, Blanks(users), LinesOf(t)) == Restored(users, n)
    requires Room(ShadowLines(users), n) && |t| + |ShadowBody(users[n])| + 1 < FILE_MAX
    ensures Readable(t + ShadowBody(users[n]) + "\n")
    ensures AllRead(true, Blanks(users), LinesOf(t + ShadowBody(users[n]) + "\n")) == Restored(users, n + 1)
  {
    hide Digits, MakeSalt, LineRead, AllRead, LinesOf, ShadowBody, Readable, ShadowLine, Room, ShadowLines, Blanks, Clean;
    ShadowLineIs(users, n);
    ReadOneMore(true, Blanks(users), t, ShadowBody(users[n])) by { ReadableWhole(t); }
    ReadableMore(t, ShadowBody(users[n]));
    FoundAt(users, n);
    ShadowBack(Restored(users, n), users[n], Find(Restored(users, n), users[n].name));
    OneRestored(users, n);
  }

  lemma ReadableWhole(t: string)
    requires Readable(t)
    ensures WholeLines(t)
  {
  }

  /** Restoring leaves the names alone, so a user is found in its own place. */
  lemma FoundAt(users: seq<Record>, n: nat)
    requires n < |users| && SecretsFirst(users)
    ensures Find(Restored(users, n), users[n].name) < |users|
    ensures users[n].passwordSet ==> Find(Restored(users, n), users[n].name) == n
  {
    hide Room, ShadowLines, MakeSalt;
    var r := Restored(users, n);
    assert forall j :: 0 <= j < |users| ==> r[j].name == users[j].name;
    SameNames(users, r, users[n].name);
  }

  predicate SameUsers(users: seq<Record>, r: seq<Record>) {
    |r| == |users| && forall j :: 0 <= j < |users| ==> r[j].name == users[j].name
  }

  lemma {:induction false} SameNames(users: seq<Record>, r: seq<Record>, name: string)
    requires SameUsers(users, r)
    ensures Find(r, name) == Find(users, name)
  {
    if users != [] && users[0].name != name {
      SameNames(users[1..], r[1..], name);
    }
  }

  lemma OneRestored(users: seq<Record>, n: nat)
    requires n < |users| && Room(ShadowLines(users), n) && Clean(users[n])
    ensures var u := users[n]; var r := Restored(users, n);
      Restored(users, n + 1) ==
      if u.passwordSet then r[n := r[n].(salt := u.salt, hash := u.hash, passwordSet := true)] else r
  {
    hide Room, ShadowLines, MakeSalt;
  }

  // ---------------------------------------------------------------- the whole round trip

  lemma NoLength()
    ensures TotalLength(PasswdLines([])) == 0
  {
  }

  lemma TotalStep(lines: seq<string>, n: nat)
    requires |lines| == n + 1
    ensures TotalLength(lines) == TotalLength(lines[..n]) + |lines[n]|
  {
  }

  lemma {:induction false} KeptAll(users: seq<Record>)
    ensures |Gathered(PasswdLines(users))| <= TotalLength(PasswdLines(users))
    ensures TotalLength(PasswdLines(users)) < FILE_MAX ==>
      Kept(users) == users && |Gathered(PasswdLines(users))| == TotalLength(PasswdLines(users))
    ensures Kept(users) == users ==> TotalLength(PasswdLines(users)) < FILE_MAX
  {
    hide PasswdLine, PasswdLines, Gathered, TotalLength, Cut;
    if users == [] {
      NothingBack();
      NoLength();
    } else {
      var n := |users| - 1;
      KeptAll(users[..n]);
      PrefixLines(users, n);
      var lines := PasswdLines(users);
      assert lines[..n + 1] == lines && users[..n] + [users[n]] == users;
      GatheredStep(lines, n);
      TotalStep(lines, n);
    }
  }

  /** Blank users have the same names, so they are found in the same places. */
  lemma BlankNames(users: seq<Record>, name: string)
    ensures Find(Blanks(users), name) == Find(users, name)
  {
    hide MakeSalt;
    var i, j := Find(users, name), Find(Blanks(users), name);
    assert forall k :: 0 <= k < |users| ==> Blanks(users)[k].name == users[k].name;
  }

  lemma {:induction false} ShortLines(users: seq<Record>)
    ensures TotalLength(PasswdLines(users)) <= 255 * |users|
  {
    hide PasswdLine;
    if users != [] {
      var n := |users| - 1;
      PrefixLines(users, n);
      ShortLines(users[..n]);
    }
  }

  lemma {:induction false} KeptFewer(users: seq<Record>)
    ensures |Kept(users)| == |users| ==> Kept(users) == users
  {
    hide Room, PasswdLines;
    if users != [] {
      var n := |users| - 1;
      KeptFewer(users[..n]);
      assert users[..n] + [users[n]] == users;
    }
  }

  lemma RestoredAll(users: seq<Record>)
    ensures Restored(users, |users|) == Settled(users) <==>
      forall i :: 0 <= i < |users| && users[i].passwordSet ==> Room(ShadowLines(users), i)
  {
    hide MakeSalt, Room, ShadowLines;
    if Restored(users, |users|) == Settled(users) {
      forall i | 0 <= i < |users| && users[i].passwordSet ensures Room(ShadowLines(users), i) {
        assert Restored(users, |users|)[i] == Settled(users)[i];
      }
    }
  }

  // ---------------------------------------------------------------- lines that are too long

  /** Line ends in a text. */
  function Ends(t: string): nat {
    multiset(t)['\n']
  }

  lemma {:induction false} LinesCount(t: string)
    ensures |LinesOf(t)| == Ends(t) + 1
    decreases |t|
  {
    hide LinesOf, IndexOf;
    var i := IndexOf(t, '\n');
    if i == |t| {
      assert t[..i] == t;
      OneLine(t);
    } else {
      LinesCount(t[i + 1..]);
      assert t == t[..i] + ['\n'] + t[i + 1..];
      FirstLine(t[..i], t[i + 1..]);
    }
  }

  /** No more users are read than there are lines with something in them. */
  lemma {:induction false} ReadAtMost(ls: seq<string>)
    ensures |AllRead(false, [], ls)| <= |ls|
    ensures ls != [] && ls[|ls| - 1] == "" ==> |AllRead(false, [], ls)| <= |ls| - 1
  {
    hide Fields, NewRecord, Signed;
    if ls != [] {
      ReadAtMost(ls[..|ls| - 1]);
    }
  }

  lemma {:induction false} KeptInit(users: seq<Record>)
    requires users != [] && Kept(users) == users
    ensures var n := |users| - 1; Room(PasswdLines(users), n) && Kept(users[..n]) == users[..n]
    ensures var lines, n := PasswdLines(users), |users| - 1;
      Gathered(lines) == Gathered(PasswdLines(users[..n])) + lines[n] && |Gathered(lines)| < FILE_MAX
  {
    hide Room, PasswdLines;
    var n := |users| - 1;
    KeptFewer(users[..n]);
    PrefixLines(users, n);
    GatheredStep(PasswdLines(users), n);
    assert PasswdLines(users)[..n + 1] == PasswdLines(users);
    assert Room(PasswdLines(users), n);
    RoomGathered(PasswdLines(users), n);
  }

  lemma RoomGathered(lines: seq<string>, n: nat)
    requires n < |lines| && Room(lines, n)
    ensures |Gathered(lines[..n]) + lines[n]| < FILE_MAX
  {
    hide Gathered;
  }

  /** The lines that keep their end. */
  function Closed(users: seq<Record>): nat {
    if users == [] then 0
    else Closed(users[..|users| - 1]) + if Short(users[|users| - 1]) then 1 else 0
  }

  lemma {:induction false} ClosedAtMost(users: seq<Record>)
    ensures Closed(users) <= |users|
    ensures (exists i :: 0 <= i < |users| && !Short(users[i])) ==> Closed(users) < |users|
  {
    hide Short;
    if users != [] {
      ClosedAtMost(users[..|users| - 1]);
    }
  }

  /** In the text, only those lines have ends. */
  lemma {:induction false} WrittenEnds(users: seq<Record>)
    requires Kept(users) == users && forall i :: 0 <= i < |users| ==> Clean(users[i])
    ensures var text := Gathered(PasswdLines(users));
      && Ends(text) == Closed(users) && |text| < FILE_MAX && '\0' !in text
      && (users != [] ==> (WholeLines(text) <==> Short(users[|users| - 1])))
  {
    hide PasswdLine, Clean, Kept, Gathered, Short, Ends, PasswdBody, WholeLines;
    if users == [] {
      NothingBack();
      NoEnds();
    } else {
      var n := |users| - 1;
      KeptInit(users);
      WrittenEnds(users[..n]);
      PasswdLineIs(users, n);
      LineEnds(Gathered(PasswdLines(users[..n])), PasswdBody(users[n]), PasswdLines(users)[n], Short(users[n]));
    }
  }

  lemma NoEnds()
    ensures Ends("") == 0
  {
  }

  lemma LineEnds(before: string, body: string, line: string, whole: bool)
    requires '\n' !in body && '\0' !in body && '\0' !in before && (!whole ==> |body| >= 255)
    requires line == if whole then body + "\n" else body[..255]
    ensures Ends(before + line) == Ends(before) + (if whole then 1 else 0)
    ensures '\0' !in before + line && (WholeLines(before + line) <==> whole)
  {
    if !whole {
      assert body == body[..255] + body[255..];
      assert '\n' !in body[..255];
    }
  }

  /** At most the written users are read back, and fewer when a line in front of another lost its end. */
  lemma FewerRead(users: seq<Record>)
    requires Kept(users) == users && forall i :: 0 <= i < |users| ==> Clean(users[i])
    ensures var back := AllRead(false, [], LinesOf(Gathered(PasswdLines(users))));
      |back| <= |users| && ((exists i :: 0 <= i < |users| - 1 && !Short(users[i])) ==> |back| < |users|)
  {
    hide PasswdLine, Clean, Kept, Gathered, Short, Ends, LinesOf, AllRead, PasswdLines, WholeLines;
    var text := Gathered(PasswdLines(users));
    WrittenEnds(users);
    LinesCount(text);
    ReadAtMost(LinesOf(text));
    if users == [] {
      NothingBack();
      NoLines();
      EmptyLine();
    } else {
      var n := |users| - 1;
      ClosedAtMost(users);
      ClosedAtMost(users[..n]);
      if Short(users[n]) {
        LinesOfConcat(text, "");
      } else if i :| 0 <= i < n && !Short(users[i]) {
        assert users[..n][i] == users[i];
      }
    }
  }

  /** Cutting a line off in its last field changes that field, or leaves too few fields. */
  lemma {:induction false} PrefixFields(s: string, t: string, n: nat)
    requires n > 0 && |s| <= |t| && s == t[..|s|] && |Fields(s, n)| == n
    ensures |Fields(t, n)| == n && |Fields(t, n)[n - 1]| - |Fields(s, n)[n - 1]| == |t| - |s|
  {
    hide Fields;
    if n == 1 {
      OneField(s);
      OneField(t);
    } else {
      FewFields(s, n);
      var i := IndexOf(s, ':');
      assert t[..i] == s[..i] && t[i] == s[i];
      FieldsCut(s, i, n);
      FieldsCut(t, i, n);
      assert s[i + 1..] == t[i + 1..][..|s| - i - 1];
      PrefixFields(s[i + 1..], t[i + 1..], n - 1);
    }
  }

  lemma FewFields(s: string, n: nat)
    requires n > 1 && |Fields(s, n)| == n
    ensures IndexOf(s, ':') < |s|
  {
  }

  lemma FieldsCut(s: string, i: nat, n: nat)
    requires i < |s| && s[i] == ':' && ':' !in s[..i] && n > 1
    ensures Fields(s, n) == [s[..i]] + Fields(s[i + 1..], n - 1)
  {
    IndexUnique(s, ':', i);
  }

  lemma CutBack(users: seq<Record>, u: Record)
    requires Clean(u) && |users| < MAX_USERS && |PasswdLine(u)| > 256
    ensures var back := LineRead(false, users, PasswdBody(u)[..255]);
      back == users || (back[..|users|] == users && |back| == |users| + 1 && |back[|users|].shell| < |u.shell|)
  {
    hide MakeSalt, Digits, Signed, Fields, PasswdBody;
    var body := PasswdBody(u);
    PasswdFields(u);
    if |Fields(body[..255], 7)| == 7 {
      PrefixFields(body[..255], body, 7);
    }
    FieldsAtMost(body[..255], 7);
  }

  lemma {:induction false} FieldsAtMost(s: string, n: nat)
    requires n > 0
    ensures |Fields(s, n)| <= n
  {
    var i := IndexOf(s, ':');
    if n > 1 && i < |s| {
      FieldsAtMost(s[i + 1..], n - 1);
    }
  }

  /** What is read of a table whose lines were all written: exactly its users when only the last line
      may have lost its end, and otherwise something that differs by more than passwords. */
  lemma WrittenBack(users: seq<Record>)
    requires Kept(users) == users && |users| <= MAX_USERS && forall i :: 0 <= i < |users| ==> Clean(users[i])
    ensures var back := AllRead(false, [], LinesOf(Gathered(PasswdLines(users))));
      if Unbroken(users) then back == Blanks(users) else Blanks(back) != Blanks(users)
  {
    hide PasswdLine, Clean, Kept, Gathered, LinesOf, AllRead, PasswdLines, Blank, PasswdBody, Readable, LineRead;
    hide Unbroken, Short, Blanks;
    if users == [] {
      ShortRoundTrip(users);
      assert Unbroken(users) by { NoneBroken(users); }
    } else if i :| 0 <= i < |users| - 1 && !Short(users[i]) {
      FewerRead(users);
      BrokenAt(users, i);
      assert |Blanks(AllRead(false, [], LinesOf(Gathered(PasswdLines(users)))))| < |Blanks(users)|;
    } else {
      LastBack(users, |users| - 1);
    }
  }

  lemma NoneBroken(users: seq<Record>)
    requires users == []
    ensures Unbroken(users)
  {
  }

  lemma BrokenAt(users: seq<Record>, i: nat)
    requires i < |users| - 1 && !Short(users[i])
    ensures !Unbroken(users)
  {
  }

  lemma UnbrokenLast(users: seq<Record>, n: nat)
    requires |users| == n + 1 && forall i :: 0 <= i < n ==> Short(users[i])
    ensures Unbroken(users) <==> |PasswdLine(users[n])| <= 256
    ensures Short(users[n]) ==> Unbroken(users)
    ensures !Short(users[n]) ==> |PasswdLine(users[n])| >= 256
  {
  }

  lemma LastBack(users: seq<Record>, n: nat)
    requires Kept(users) == users && |users| == n + 1 <= MAX_USERS && forall i :: 0 <= i <= n ==> Clean(users[i])
    requires forall i :: 0 <= i < n ==> Short(users[i])
    ensures var back := AllRead(false, [], LinesOf(Gathered(PasswdLines(users))));
      if Unbroken(users) then back == Blanks(users) else Blanks(back) != Blanks(users)
  {
    hide PasswdLine, Clean, Kept, Gathered, LinesOf, AllRead, PasswdLines, Blank, Blanks, Unbroken, Short, Readable;
    UnbrokenLast(users, n);
    if Short(users[n]) {
      ShortRoundTrip(users);
    } else {
      LastCut(users, n);
    }
  }

  lemma LastCut(users: seq<Record>, n: nat)
    requires Kept(users) == users && |users| == n + 1 <= MAX_USERS && forall i :: 0 <= i <= n ==> Clean(users[i])
    requires (forall i :: 0 <= i < n ==> Short(users[i])) && !Short(users[n])
    ensures var back := AllRead(false, [], LinesOf(Gathered(PasswdLines(users))));
      if |PasswdLine(users[n])| == 256 then back == Blanks(users) else Blanks(back) != Blanks(users)
  {
    hide Clean, Kept, Gathered, LinesOf, AllRead, PasswdLines, PasswdBody, LineRead, Readable, Blank, WholeLines;
    var before, body := Gathered(PasswdLines(users[..n])), PasswdBody(users[n]);
    KeptInit(users);
    ShortRoundTrip(users[..n]);
    ReadableWhole(before);
    PasswdLineIs(users, n);
    assert '\n' !in body[..255] by { assert body == body[..255] + body[255..]; }
    ReadOneMore(false, [], before, body[..255]);
    assert users[..n] + [users[n]] == users;
    if |body| == 255 {
      assert body[..255] == body;
      PasswdBack(Blanks(users[..n]), users[n]);
      assert Blanks(users) == Blanks(users[..n]) + [Blank(users[n])];
    } else {
      CutBack(Blanks(users[..n]), users[n]);
      ShellDiffers(users, LineRead(false, Blanks(users[..n]), body[..255]), n);
    }
  }

  lemma ShellDiffers(users: seq<Record>, back: seq<Record>, n: nat)
    requires |users| == n + 1 && (|back| == n + 1 ==> back[n].shell != users[n].shell)
    ensures Blanks(back) != Blanks(users)
  {
    hide MakeSalt;
    if |back| == n + 1 {
      assert Blanks(back)[n].shell != Blanks(users)[n].shell;
    }
  }

  /** Reading the passwd file back gives exactly the users whose lines were written, in order, if and
      only if none of these lines but the last lost its end, and the last no more than that. */
  lemma PasswdRoundTrip(users: seq<Record>)
    requires |users| <= MAX_USERS && forall i :: 0 <= i < |users| ==> Clean(users[i])
    ensures var text := Gathered(PasswdLines(users));
      ReadPart(text) == text && (AllRead(false, [], LinesOf(text)) == Blanks(Kept(users)) <==> Unbroken(Kept(users)))
  {
    hide Clean, Gathered, LinesOf, AllRead, PasswdLines, Unbroken, Blanks, Kept;
    KeptKept(users);
    assert forall u :: u in users ==> Clean(u);
    assert forall i :: 0 <= i < |Kept(users)| ==> Kept(users)[i] in users;
    WrittenEnds(Kept(users));
    WrittenBack(Kept(users));
    TextRead(Gathered(PasswdLines(users)));
    BlanksTwice(Kept(users));
  }

  lemma BlanksTwice(users: seq<Record>)
    ensures Blanks(Blanks(users)) == Blanks(users)
  {
    hide MakeSalt;
  }

  lemma TextRead(t: string)
    requires |t| < FILE_MAX && '\0' !in t
    ensures ReadPart(t) == t
  {
    assert t[..|t|] == t;
    IndexUnique(t, '\0', |t|);
  }

  /** The users whose lines were written give the same text. */
  lemma {:induction false} KeptKept(users: seq<Record>)
    ensures Kept(Kept(users)) == Kept(users)
    ensures Gathered(PasswdLines(Kept(users))) == Gathered(PasswdLines(users))
    ensures forall u :: u in Kept(users) ==> u in users
  {
    hide PasswdLine, Cut, Gathered, PasswdLines, Room;
    if users != [] {
      var n := |users| - 1;
      var ks := Kept(users[..n]);
      KeptKept(users[..n]);
      PrefixLines(users, n);
      var lines := PasswdLines(users);
      GatheredStep(lines, n);
      assert lines[..n + 1] == lines;
      if Room(lines, n) {
        var more := ks + [users[n]];
        assert more[..|ks|] == ks;
        PrefixLines(more, |ks|);
        GatheredStep(PasswdLines(more), |ks|);
        assert PasswdLines(more)[..|ks| + 1] == PasswdLines(more);
        SameLine(more, |ks|, users, n);
        SameRoom(PasswdLines(more), |ks|, lines, n);
        assert Kept(more) == Kept(ks) + [users[n]];
      }
    }
  }

  lemma SameLine(a: seq<Record>, i: nat, b: seq<Record>, j: nat)
    requires i < |a| && j < |b| && a[i] == b[j]
    ensures PasswdLines(a)[i] == PasswdLines(b)[j]
  {
  }

  lemma SameRoom(a: seq<string>, i: nat, b: seq<string>, j: nat)
    requires i < |a| && j < |b| && a[i] == b[j] && Gathered(a[..i]) == Gathered(b[..j])
    ensures Room(a, i) == Room(b, j)
  {
  }

  // ---------------------------------------------------------------- the whole table

  /** Both files have room for what they must hold, and no line but the last passwd line lost its end. */
  predicate FilesFit(users: seq<Record>) {
    && TotalLength(PasswdLines(users)) < FILE_MAX
    && Unbroken(users)
    && forall i :: 0 <= i < |users| && users[i].passwordSet ==> Room(ShadowLines(users), i)
  }

  /** Shadow lines change nothing but passwords. */
  lemma {:induction false} ShadowKeeps(users: seq<Record>, lines: seq<string>)
    ensures |AllRead(true, users, lines)| == |users| && Blanks(AllRead(true, users, lines)) == Blanks(users)
  {
    hide MakeSalt, IndexOf, Find, ValueFrom;
    if lines != [] {
      ShadowKeeps(users, lines[..|lines| - 1]);
    }
  }

  lemma BlankLine(u: Record, w: Record)
    requires Blank(u) == Blank(w)
    ensures PasswdLine(u) == PasswdLine(w)
  {
    hide MakeSalt, Digits;
    assert u.name == w.name && u.uid == w.uid && u.gid == w.gid && u.home == w.home && u.shell == w.shell;
  }

  lemma BodyLength(u: Record)
    ensures |PasswdLine(u)| == 2 * |u.name| + |Digits(u.uid, 10)| + |Digits(u.gid, 10)| + |u.home| + |u.shell| + 8
  {
    hide Digits;
  }

  function Pow10(n: nat): nat {
    if n == 0 then 1 else 10 * Pow10(n - 1)
  }

  lemma {:induction false} DigitCount10(v: nat, n: nat)
    requires n > 0 && v < Pow10(n)
    ensures |Digits(v, 10)| <= n
  {
    if v >= 10 {
      DigitCount10(v / 10, n - 1);
    }
  }

  lemma NobodyFound()
    ensures Find([], "root") == 0
  {
  }

  lemma RootAlone()
    ensures ROOT.name == "root" && Find([ROOT], "root") == 0
    ensures Added([], NewRecord("root", 0, 0, "/root", "/bin/tsh")) == [ROOT]
  {
    hide MakeSalt;
    assert [ROOT][0] == ROOT && [] + [ROOT] == [ROOT];
  }

  lemma {:induction false} FindIs(users: seq<Record>, name: string, i: nat)
    requires i <= |users| && (i < |users| ==> users[i].name == name) && forall j :: 0 <= j < i ==> users[j].name != name
    ensures Find(users, name) == i
  {
    if i > 0 {
      assert users[0].name != name;
      FindIs(users[1..], name, i - 1);
    }
  }

  lemma RootShort()
    ensures Short(ROOT)
  {
    hide Digits, MakeSalt;
    DigitCount10(0, 1);
    BodyLength(ROOT);
  }

  /** The table comes back exactly when all passwd lines together fit the file, none but the last is
      longer than its buffer, and the shadow line of every user with a password fits: as it was,
      but for the unused salts of users without a password. */
  lemma TableSurvives(users: seq<Record>)
    requires Storable(users)
    ensures var back := Loaded(Gathered(PasswdLines(users)), Gathered(ShadowLines(users)));
      && (back == Settled(users) <==> FilesFit(users))
      && (back == users <==> FilesFit(users) && Settled(users) == users)
  {
    hide MakeSalt, AllRead, LinesOf, Gathered, PasswdLines, ShadowLines, Clean, TotalLength, Unbroken, Room, Restored, Blanks, Settled, PasswdLine, Kept, ReadPart;
    var lines := ShadowLines(users);
    PasswdRoundTrip(users);
    ShadowRoundTrip(users, |users|);
    assert lines[..|users|] == lines;
    ReadableRead(Gathered(lines));
    KeptAll(users);
    SettledBlank(users);
    if TotalLength(PasswdLines(users)) < FILE_MAX && Unbroken(users) {
      BlankNames(users, "root");
      RestoredAll(users);
      RestoredSame(users);
    } else {
      NotBack(users, Gathered(lines));
    }
  }

  lemma SettledBlank(users: seq<Record>)
    ensures Blanks(Settled(users)) == Blanks(users)
  {
    hide MakeSalt;
  }

  lemma RestoredSame(users: seq<Record>)
    ensures Restored(users, |users|) == users ==> Restored(users, |users|) == Settled(users)
  {
    hide MakeSalt, Room, ShadowLines;
    var r := Restored(users, |users|);
    if r == users {
      forall i | 0 <= i < |users| ensures r[i] == Settled(users)[i] {
      }
    }
  }

  lemma NotBack(users: seq<Record>, shadow: string)
    requires Storable(users) && !(TotalLength(PasswdLines(users)) < FILE_MAX && Unbroken(users))
    ensures Blanks(Loaded(Gathered(PasswdLines(users)), shadow)) != Blanks(users)
  {
    hide MakeSalt, AllRead, LinesOf, Gathered, PasswdLines, Clean, TotalLength, Unbroken, Blanks, PasswdLine, Kept, ReadPart, NewRecord;
    PasswdRoundTrip(users);
    var back := AllRead(false, [], LinesOf(Gathered(PasswdLines(users))));
    var rooted := if Find(back, "root") == |back| then [ROOT] else back;
    ShadowKeeps(rooted, LinesOf(ReadPart(shadow)));
    KeptAll(users);
    KeptFewer(users);
    KeptKept(users);
    ShortLines(users);
    KeptClean(users);
    FewerRead(Kept(users));
    if Kept(users) == users {
      WrittenBack(users);
      if rooted != back && |users| == 1 {
        OnlyRoot(users);
      }
    }
  }

  lemma KeptClean(users: seq<Record>)
    requires forall i :: 0 <= i < |users| ==> Clean(users[i])
    ensures forall i :: 0 <= i < |Kept(users)| ==> Clean(Kept(users)[i])
  {
    hide Clean, Kept;
    KeptKept(users);
    assert forall i :: 0 <= i < |Kept(users)| ==> Kept(users)[i] in users;
  }

  lemma OnlyRoot(users: seq<Record>)
    requires |users| == 1 && !Unbroken(users)
    ensures Blanks([ROOT]) != Blanks(users)
  {
    hide MakeSalt, PasswdLine, Blank, NewRecord;
    RootShort();
    assert Blanks([ROOT])[0] == Blank(ROOT) && Blanks(users)[0] == Blank(users[0]);
    if Blank(ROOT) == Blank(users[0]) {
      BlankLine(ROOT, users[0]);
    }
  }

  /** A line that lost its end takes the user behind it along. */
  lemma LongLineLosesUser(users: seq<Record>, i: nat)
    requires Storable(users) && i + 1 < |users| && |PasswdLine(users[i])| >= 256
    ensures |Loaded(Gathered(PasswdLines(users)), Gathered(ShadowLines(users)))| < |users|
  {
    hide MakeSalt, AllRead, LinesOf, Gathered, PasswdLines, Clean, PasswdLine, Kept, ReadPart, NewRecord;
    PasswdRoundTrip(users);
    var back := AllRead(false, [], LinesOf(Gathered(PasswdLines(users))));
    ShadowKeeps(if Find(back, "root") == |back| then [ROOT] else back, LinesOf(ReadPart(Gathered(ShadowLines(users)))));
    KeptFewer(users);
    KeptKept(users);
    KeptClean(users);
    FewerRead(Kept(users));
  }

  /** A record with a home directory and a shell of `n` characters. */
  function Wide(n: nat): Record {
    NewRecord("bob", 1000, 1000, seq(n, _ => '/'), seq(n, _ => '/'))
  }

  /** With 120 characters each, it is read as it stands in the passwd file, and its line is longer than
      the buffer that it is written with. */
  lemma LongLineRead(users: seq<Record>, n: nat)
    requires |users| < MAX_USERS && 120 <= n <= HOME_MAX
    ensures Clean(Wide(n)) && Wide(n).name == "bob"
    ensures LineRead(false, users, PasswdBody(Wide(n))) == users + [Wide(n)] && |PasswdLine(Wide(n))| >= 256
  {
    hide MakeSalt, Digits, PasswdBody, PasswdLine, LineRead, Clean;
    WideClean(n);
    PasswdBack(users, Wide(n));
    BodyLength(Wide(n));
    TwoDigits(1000);
  }

  lemma WideClean(n: nat)
    requires n <= HOME_MAX
    ensures Clean(Wide(n)) && Wide(n).name == "bob"
  {
    hide MakeSalt;
    SaltFits("bob", 1000);
  }

  /** With such a record in front of another user, a table that the file has room for loses a user. */
  lemma CarolLost(carol: Record, n: nat)
    requires Clean(carol) && carol.name == "carol" && 120 <= n <= HOME_MAX
    ensures var users := [ROOT, Wide(n), carol];
      && Storable(users) && TotalLength(PasswdLines(users)) < FILE_MAX
      && |Loaded(Gathered(PasswdLines(users)), Gathered(ShadowLines(users)))| < 3
  {
    hide PasswdLine, Loaded, Gathered, PasswdLines, ShadowLines, TotalLength, Storable, Wide, NewRecord;
    var users := [ROOT, Wide(n), carol];
    ThreeStorable(carol, n);
    LongLineRead([], n);
    ShortLines(users);
    LongLineLosesUser(users, 1);
  }

  lemma ThreeStorable(carol: Record, n: nat)
    requires Clean(carol) && carol.name == "carol" && n <= HOME_MAX
    ensures Storable([ROOT, Wide(n), carol])
  {
    hide MakeSalt, Plain, Clean, Find, Wide, NewRecord;
    RootAlone();
    RootClean();
    WideClean(n);
    FindIs([ROOT, Wide(n), carol], "root", 0);
  }

  lemma RootClean()
    ensures Clean(ROOT)
  {
    hide MakeSalt;
    SaltFits("root", 0);
  }

  lemma TwoDigits(v: nat)
    requires v >= 10
    ensures |Digits(v, 10)| >= 2
  {
  }

  lemma SaltFits(name: string, uid: nat)
    ensures MakeSalt(name, uid) < TWO_32
  {
  }

  // ---------------------------------------------------------------- tables that are read

  /** What is read keeps these, whatever the files hold. */
  predicate Readings(users: seq<Record>) {
    && |users| <= MAX_USERS
    && (forall i :: 0 <= i < |users| ==> Clean(users[i]))
    && SecretsFirst(users)
  }

  /** Fields are parts of the line, and all but the last are free of colons. */
  lemma {:induction false} FieldsPlain(s: string, n: nat)
    requires n > 0 && Flat(s)
    ensures forall i :: 0 <= i < |Fields(s, n)| ==> Flat(Fields(s, n)[i])
    ensures forall i :: 0 <= i < |Fields(s, n)| - 1 ==> ':' !in Fields(s, n)[i]
  {
    var i := IndexOf(s, ':');
    if n > 1 && i < |s| {
      assert Flat(s[..i]) && Flat(s[i + 1..]);
      FieldsPlain(s[i + 1..], n - 1);
    }
  }

  lemma FlatClip(s: string, limit: nat)
    requires Flat(s)
    ensures Flat(Clip(s, limit)) && |Clip(s, limit)| <= limit && (':' !in s ==> Plain(Clip(s, limit)))
  {
    if |s| > limit {
      assert s == s[..limit] + s[limit..];
    }
  }

  lemma NewRecordClean(name: string, uid: nat, gid: nat, home: string, shell: string)
    requires Plain(name) && Plain(home) && Flat(shell) && uid < TWO_32 && gid < TWO_32
    ensures Clean(NewRecord(name, uid, gid, home, shell))
  {
    hide MakeSalt, Clip, Flat, Plain;
    PlainFlat(name);
    PlainFlat(home);
    FlatClip(name, NAME_MAX);
    FlatClip(home, HOME_MAX);
    FlatClip(shell, SHELL_MAX);
    SaltFits(name, uid);
  }

  lemma PlainFlat(s: string)
    ensures Plain(s) <==> Flat(s) && ':' !in s
  {
  }

  lemma PasswdReading(users: seq<Record>, line: string)
    requires Readings(users) && Flat(line)
    ensures Readings(PasswdRead(users, line))
  {
    hide MakeSalt, Fields, Clean, Flat, Plain, Signed, NewRecord, Find;
    var f := Fields(line, 7);
    FieldsPlain(line, 7);
    FieldsAtMost(line, 7);
    if |f| == 7 {
      PlainFlat(f[0]);
      PlainFlat(f[5]);
      var u := NewRecord(f[0], Signed(f[2]) % TWO_32, Signed(f[3]) % TWO_32, f[5], f[6]);
      NewRecordClean(f[0], Signed(f[2]) % TWO_32, Signed(f[3]) % TWO_32, f[5], f[6]);
      NoSecretYet(f[0], Signed(f[2]) % TWO_32, Signed(f[3]) % TWO_32, f[5], f[6]);
      if |users| < MAX_USERS {
        MoreSecretsFirst(users, u);
      }
    }
  }

  lemma NoSecretYet(name: string, uid: nat, gid: nat, home: string, shell: string)
    ensures !NewRecord(name, uid, gid, home, shell).passwordSet
  {
  }

  lemma MoreSecretsFirst(users: seq<Record>, u: Record)
    requires SecretsFirst(users) && !u.passwordSet
    ensures SecretsFirst(users + [u])
  {
    hide Find;
    var more := users + [u];
    forall i | 0 <= i < |more| && more[i].passwordSet ensures Find(more, more[i].name) == i {
      assert more[i] == users[i] && forall j :: 0 <= j < i ==> more[j] == users[j];
      FindIs(more, more[i].name, i);
    }
  }

  /** Giving the first user of a name a password, or taking it away, keeps that. */
  lemma SetSecretsFirst(users: seq<Record>, i: nat, u: Record)
    requires SecretsFirst(users) && i < |users| && u.name == users[i].name && Find(users, u.name) == i
    ensures SecretsFirst(users[i := u])
  {
    hide Find;
    var r := users[i := u];
    forall j | 0 <= j < |r| && r[j].passwordSet ensures Find(r, r[j].name) == j {
      assert forall k :: 0 <= k < |r| ==> r[k].name == users[k].name;
      SameNames(users, r, r[j].name);
    }
  }

  lemma ShadowReading(users: seq<Record>, line: string)
    requires Readings(users)
    ensures Readings(ShadowRead(users, line)) && SameUsers(users, ShadowRead(users, line))
  {
    hide MakeSalt, IndexOf, ValueFrom, Flat, Plain, Find, SecretsFirst;
    var r := ShadowRead(users, line);
    if r != users {
      var i := Find(users, line[..IndexOf(line, ':')]);
      assert r == users[i := r[i]] && r[i].name == users[i].name;
      SetSecretsFirst(users, i, r[i]);
    }
  }

  lemma LineReading(shadow: bool, users: seq<Record>, line: string)
    requires Readings(users) && Flat(line)
    ensures Readings(LineRead(shadow, users, line))
    ensures shadow ==> SameUsers(users, LineRead(shadow, users, line))
  {
    hide Readings, PasswdRead, ShadowRead, Flat;
    if line != "" {
      if shadow {
        ShadowReading(users, line);
      } else {
        PasswdReading(users, line);
      }
    }
  }

  lemma {:induction false} AllReading(shadow: bool, users: seq<Record>, lines: seq<string>)
    requires Readings(users) && forall i :: 0 <= i < |lines| ==> Flat(lines[i])
    ensures Readings(AllRead(shadow, users, lines))
    ensures shadow ==> SameUsers(users, AllRead(shadow, users, lines))
  {
    hide Readings, LineRead, Flat;
    if lines != [] {
      var n := |lines| - 1;
      AllReading(shadow, users, lines[..n]);
      LineReading(shadow, AllRead(shadow, users, lines[..n]), lines[n]);
    }
  }

  lemma {:induction false} LinesFlat(t: string)
    requires '\0' !in t
    ensures forall i :: 0 <= i < |LinesOf(t)| ==> Flat(LinesOf(t)[i])
    decreases |t|
  {
    hide LinesOf, IndexOf;
    var i := IndexOf(t, '\n');
    if i == |t| {
      assert t[..i] == t;
      OneLine(t);
    } else {
      var line, rest := t[..i], t[i + 1..];
      assert t == line + ['\n'] + rest;
      assert '\0' !in line && '\0' !in rest;
      FirstLine(line, rest);
      LinesFlat(rest);
    }
  }

  lemma ReadPartFlat(file: string)
    ensures '\0' !in ReadPart(file)
  {
  }

  /** Whatever the two files hold, the table that is read can be stored. */
  lemma LoadedStorable(passwd: string, shadow: string)
    ensures Storable(Loaded(passwd, shadow))
  {
    hide LinesOf, ReadPart, AllRead, Clean, SecretsFirst, Flat, NewRecord, Find;
    ReadPartFlat(passwd);
    ReadPartFlat(shadow);
    LinesFlat(ReadPart(passwd));
    LinesFlat(ReadPart(shadow));
    NobodyReading();
    var users := AllRead(false, [], LinesOf(ReadPart(passwd)));
    AllReading(false, [], LinesOf(ReadPart(passwd)));
    RootReading();
    RootAlone();
    var rooted := if Find(users, "root") == |users| then [ROOT] else users;
    var all := AllRead(true, rooted, LinesOf(ReadPart(shadow)));
    AllReading(true, rooted, LinesOf(ReadPart(shadow)));
    SameNames(rooted, all, "root");
  }

  lemma NobodyReading()
    ensures Readings([])
  {
  }

  lemma RootReading()
    ensures Readings([ROOT])
  {
    hide Clean, MakeSalt;
    RootClean();
  }
}
