/** The operations of kernel/security/user.c on the user table and its two files. */
module UserTable {
  import opened Basics
  import opened NumberText
  import opened UserDb

  // ---------------------------------------------------------------- printing into a buffer

  /** The characters that still fit; one place is kept for the terminator. */
  method OutString(buf: string, size: nat, s: string, ghost full: string) returns (r: string)
    requires size > 0 && buf == Cut(full, size)
    ensures r == Cut(full + s, size)
  {
    r := buf;
    for i := 0 to |s|
      invariant r == Cut(full + s[..i], size)
    {
      if |r| + 1 < size {
        r := r + [s[i]];
      }
      assert s[..i + 1] == s[..i] + [s[i]];
      assert full + s[..i + 1] == full + s[..i] + [s[i]];
    }
    assert s[..|s|] == s;
  }

  /** `%08x` and `%016llx` */
  method OutPadded(buf: string, size: nat, v: nat, width: nat, ghost full: string) returns (r: string)
    requires size > 0 && buf == Cut(full, size) && v < TWO_64
    ensures r == Cut(full + ZeroPadded(Digits(v, 16), width), size)
  {
    hide Cut, Digits, ZeroDigits;
    var digits := UnsignedToString(v, 16);
    r := buf;
    var w := width;
    ghost var k: nat := 0;
    NoZeros(full);
    while w > |digits|
      invariant k + w == width && (w <= |digits| ==> k == if |digits| < width then width - |digits| else 0)
      invariant r == Cut(full + ZeroDigits(k), size)
    {
      r := OutString(r, size, "0", full + ZeroDigits(k));
      OneZero(full, k);
      w := w - 1;
      k := k + 1;
    }
    r := OutString(r, size, digits, full + ZeroDigits(k));
    PaddedWith(full, digits, width, k);
  }

  lemma NoZeros(full: string)
    ensures full + ZeroDigits(0) == full
  {
  }

  lemma OneZero(full: string, k: nat)
    ensures full + ZeroDigits(k) + "0" == full + ZeroDigits(k + 1)
  {
    assert ZeroDigits(k) + "0" == ZeroDigits(k + 1);
  }

  lemma PaddedWith(full: string, digits: string, width: nat, k: nat)
    requires k == if |digits| < width then width - |digits| else 0
    ensures full + ZeroDigits(k) + digits == full + ZeroPadded(digits, width)
  {
    assert full + ZeroDigits(k) + digits == full + (ZeroDigits(k) + digits);
  }

  method FormatPasswd(u: Record) returns (line: string)
    requires u.uid < TWO_64 && u.gid < TWO_64
    ensures line == Cut(PasswdLine(u), 256)
  {
    hide Cut, Digits;
    var uid := UnsignedToString(u.uid, 10);
    var gid := UnsignedToString(u.gid, 10);
    line := OutAll([u.name, ":x:", uid, ":", gid, ":", u.name, ":", u.home, ":", u.shell, "\n"], 256);
    PasswdParts(u);
  }

  method FormatShadow(u: Record) returns (line: string)
    requires u.salt < TWO_64 && u.hash < TWO_64
    ensures line == Cut(ShadowLine(u), 192)
  {
    hide Cut, Digits;
    if u.passwordSet {
      line := OutAll([u.name, ":", SCHEME], 192);
      ghost var full := Joined([u.name, ":", SCHEME]);
      line := OutPadded(line, 192, u.salt, 8, full);
      full := full + ZeroPadded(Digits(u.salt, 16), 8);
      line := OutString(line, 192, "$", full);
      full := full + "$";
      line := OutPadded(line, 192, u.hash, 16, full);
      full := full + ZeroPadded(Digits(u.hash, 16), 16);
      line := OutString(line, 192, SHADOW_REST + "\n", full);
      ShadowParts(u);
    } else {
      line := OutAll([u.name, ":", SHADOW_REST + "\n"], 192);
      NoSecretParts(u);
    }
  }

  function Joined(parts: seq<string>): string {
    if parts == [] then "" else Joined(parts[..|parts| - 1]) + parts[|parts| - 1]
  }

  method OutAll(parts: seq<string>, size: nat) returns (line: string)
    requires size > 0
    ensures line == Cut(Joined(parts), size)
  {
    line := "";
    for i := 0 to |parts|
      invariant line == Cut(Joined(parts[..i]), size)
    {
      hide Cut;
      line := OutString(line, size, parts[i], Joined(parts[..i]));
      assert parts[..i + 1][..i] == parts[..i];
    }
    assert parts[..|parts|] == parts;
  }

  lemma JoinedStep(parts: seq<string>, last: string)
    ensures Joined(parts + [last]) == Joined(parts) + last
  {
    assert (parts + [last])[..|parts|] == parts;
  }

  lemma JoinedThree(a: string, b: string, c: string)
    ensures Joined([a, b, c]) == a + b + c
  {
    hide Joined;
    JoinedNothing();
    JoinedStep([], a);
    JoinedStep([a], b);
    JoinedStep([a, b], c);
    assert [] + [a] == [a] && [a] + [b] == [a, b] && [a, b] + [c] == [a, b, c];
    assert "" + a == a;
  }

  lemma JoinedNothing()
    ensures Joined([]) == ""
  {
  }

  lemma {:induction false} JoinedConcat(xs: seq<string>, ys: seq<string>)
    ensures Joined(xs + ys) == Joined(xs) + Joined(ys)
  {
    hide Joined;
    if ys == [] {
      assert xs + ys == xs;
      JoinedNothing();
    } else {
      var n := |ys| - 1;
      JoinedConcat(xs, ys[..n]);
      JoinedStep(xs + ys[..n], ys[n]);
      JoinedStep(ys[..n], ys[n]);
      assert xs + ys[..n] + [ys[n]] == xs + ys && ys[..n] + [ys[n]] == ys;
      Associative(Joined(xs), Joined(ys[..n]), ys[n]);
    }
  }

  lemma Associative(a: string, b: string, c: string)
    ensures a + b + c == a + (b + c)
  {
  }

  lemma PasswdParts(u: Record)
    ensures Joined([u.name, ":x:", Digits(u.uid, 10), ":", Digits(u.gid, 10), ":", u.name, ":", u.home, ":", u.shell, "\n"]) == PasswdLine(u)
  {
    hide Digits, Joined, PasswdLine;
    var uid, gid := Digits(u.uid, 10), Digits(u.gid, 10);
    var a, b := [u.name, ":x:", uid], [":", gid, ":"];
    var c, d := [u.name, ":", u.home], [":", u.shell, "\n"];
    JoinedThree(a[0], a[1], a[2]);
    JoinedThree(b[0], b[1], b[2]);
    JoinedThree(c[0], c[1], c[2]);
    JoinedThree(d[0], d[1], d[2]);
    JoinedConcat(a, b);
    JoinedConcat(a + b, c);
    JoinedConcat(a + b + c, d);
    assert a + b + c + d == [u.name, ":x:", uid, ":", gid, ":", u.name, ":", u.home, ":", u.shell, "\n"];
    LineShape(u, uid, gid);
  }

  lemma LineShape(u: Record, uid: string, gid: string)
    requires uid == Digits(u.uid, 10) && gid == Digits(u.gid, 10)
    ensures u.name + ":x:" + uid + (":" + gid + ":") + (u.name + ":" + u.home) + (":" + u.shell + "\n") == PasswdLine(u)
  {
    hide Digits;
    var f6 := u.home + ":" + u.shell;
    var f5 := u.name + ":" + f6;
    var f4 := gid + ":" + f5;
    assert PasswdLine(u) == u.name + ":" + ("x:" + (uid + ":" + f4)) + "\n";
    assert (u.name + ":" + u.home) + (":" + u.shell + "\n") == f5 + "\n";
    assert (":" + gid + ":") + (f5 + "\n") == ":" + f4 + "\n";
  }

  lemma ShadowParts(u: Record)
    requires u.passwordSet
    ensures Joined([u.name, ":", SCHEME]) + ZeroPadded(Digits(u.salt, 16), 8) + "$" + ZeroPadded(Digits(u.hash, 16), 16) + (SHADOW_REST + "\n")
      == ShadowLine(u)
  {
    hide Digits, ZeroPadded, Joined;
    JoinedThree(u.name, ":", SCHEME);
    var a, b := ZeroPadded(Digits(u.salt, 16), 8), ZeroPadded(Digits(u.hash, 16), 16);
    assert u.name + ":" + SCHEME + a + "$" + b + (SHADOW_REST + "\n") == u.name + ":" + (SCHEME + (a + "$" + (b + SHADOW_REST))) + "\n";
  }

  lemma NoSecretParts(u: Record)
    requires !u.passwordSet
    ensures Joined([u.name, ":", SHADOW_REST + "\n"]) == ShadowLine(u)
  {
    hide Joined;
    JoinedThree(u.name, ":", SHADOW_REST + "\n");
  }

  // ---------------------------------------------------------------- splitting lines

  /** The fields of a line, cut at its colons until there are seven. */
  method SplitFields(line: string) returns (fields: seq<string>)
    ensures fields == Fields(line, 7)
  {
    hide Fields;
    fields := [];
    var start := 0;
    var p := 0;
    assert line[start..] == line;
    while p < |line| && |fields| < 6
      invariant start <= p <= |line| && |fields| <= 6
      invariant ':' !in line[start..p] && (|fields| == 6 ==> p == start)
      invariant fields + Fields(line[start..], 7 - |fields|) == Fields(line, 7)
      decreases |line| - p
    {
      if line[p] == ':' {
        CutField(fields, line, start, p, 7 - |fields|, Fields(line, 7));
        fields := fields + [line[start..p]];
        start := p + 1;
      } else {
        ScanOn(line, start, p, ':');
      }
      p := p + 1;
    }
    if |fields| < 6 {
      assert line[start..p] == line[start..];
    }
    LastField(line[start..], 7 - |fields|);
    fields := fields + [line[start..]];
  }

  lemma CutField(fields: seq<string>, line: string, start: nat, p: nat, n: nat, all: seq<string>)
    requires start <= p < |line| && line[p] == ':' && ':' !in line[start..p] && n > 1
    requires fields + Fields(line[start..], n) == all
    ensures fields + [line[start..p]] + Fields(line[p + 1..], n - 1) == all
  {
    hide Fields;
    var s := line[start..];
    assert s[..p - start] == line[start..p] && s[p - start + 1..] == line[p + 1..];
    FieldsCut(s, p - start, n);
  }

  lemma ScanOn(s: string, start: nat, p: nat, c: char)
    requires start <= p < |s| && c !in s[start..p] && s[p] != c
    ensures c !in s[start..p + 1]
  {
    assert s[start..p + 1] == s[start..p] + [s[p]];
  }

  lemma LastField(s: string, n: nat)
    requires n > 0 && (n == 1 || ':' !in s)
    ensures Fields(s, n) == [s]
  {
    if ':' !in s {
      assert s[..|s|] == s;
      IndexUnique(s, ':', |s|);
    }
  }

  method FindColon(s: string, c: char) returns (i: nat)
    ensures i == IndexOf(s, c)
  {
    i := 0;
    while i < |s| && s[i] != c
      invariant i <= |s| && c !in s[..i]
    {
      assert s[..i + 1] == s[..i] + [s[i]];
      i := i + 1;
    }
    IndexUnique(s, c, i);
  }

  // ---------------------------------------------------------------- the table

  class Table {
    var users: seq<Record>
    var current: nat
    var passwd: string
    var shadow: string

    /** Numbers are as wide as the fields that hold them. */
    ghost predicate Valid()
      reads this
    {
      |users| <= MAX_USERS && forall u :: u in users ==> u.uid < TWO_32 && u.gid < TWO_32 && u.salt < TWO_32 && u.hash < TWO_64
    }

    /** Both files are what the table would be written as. */
    ghost predicate Synced()
      reads this
    {
      Valid() && passwd == Gathered(PasswdLines(users)) && shadow == Gathered(ShadowLines(users))
    }

    constructor (passwdFile: string, shadowFile: string)
      ensures Valid() && users == [] && passwd == passwdFile && shadow == shadowFile
    {
      users, current, passwd, shadow := [], 0, passwdFile, shadowFile;
    }

    method FindName(name: string) returns (i: nat)
      ensures i == Find(users, name)
    {
      i := 0;
      while i < |users| && users[i].name != name
        invariant i <= |users| && forall j :: 0 <= j < i ==> users[j].name != name
      {
        i := i + 1;
      }
      FindIs(users, name, i);
    }

    method RebuildPasswd()
      requires Valid()
      modifies `passwd
      ensures passwd == Gathered(PasswdLines(users))
    {
      hide Gathered, PasswdLine, PasswdLines, Cut;
      var buf := "";
      ghost var lines := PasswdLines(users);
      NothingBack();
      assert lines[..0] == [];
      for i := 0 to |users|
        invariant users == old(users) && buf == Gathered(lines[..i])
      {
        var line := FormatPasswd(users[i]);
        PasswdLineAt(users, i);
        NextLine(lines, i, line, buf);
        if |buf| + |line| < FILE_MAX {
          buf := buf + line;
        }
      }
      assert lines[..|users|] == lines;
      passwd := buf;
    }

    method RebuildShadow()
      requires Valid()
      modifies `shadow
      ensures shadow == Gathered(ShadowLines(users))
    {
      hide Gathered, ShadowLine, ShadowLines, Cut;
      var buf := "";
      ghost var lines := ShadowLines(users);
      NothingBack();
      assert lines[..0] == [];
      for i := 0 to |users|
        invariant users == old(users) && buf == Gathered(lines[..i])
      {
        var line := FormatShadow(users[i]);
        ShadowLineAt(users, i);
        NextLine(lines, i, line, buf);
        if |buf| + |line| < FILE_MAX {
          buf := buf + line;
        }
      }
      assert lines[..|users|] == lines;
      shadow := buf;
    }

    method AddRecord(name: string, uid: nat, gid: nat, home: string, shell: string)
      requires Valid() && uid < TWO_32 && gid < TWO_32
      modifies `users
      ensures Valid() && users == Added(old(users), NewRecord(name, uid, gid, home, shell))
    {
      if |users| >= MAX_USERS {
        return;
      }
      users := users + [Record(Clip(name, NAME_MAX), uid, gid, Clip(home, HOME_MAX), Clip(shell, SHELL_MAX), MakeSalt(name, uid), 0, false)];
    }

    method ParsePasswdLine(line: string)
      requires Valid()
      modifies `users
      ensures Valid() && users == PasswdRead(old(users), line)
    {
      hide MakeSalt, Fields, Clip;
      var fields := SplitFields(line);
      if |fields| >= 7 {
        var uid := ParseUnsigned32(fields[2]);
        var gid := ParseUnsigned32(fields[3]);
        AddRecord(fields[0], uid, gid, fields[5], fields[6]);
      }
    }

    method ParseShadowLine(line: string)
      requires Valid()
      modifies `users
      ensures Valid() && users == ShadowRead(old(users), line)
    {
      hide ValueFrom, Find, IndexOf;
      var colon := FindColon(line, ':');
      if colon == |line| || colon + 1 == |line| {
        return;
      }
      var rest := line[colon + 1..];
      var i := FindName(line[..colon]);
      if i == |users| || !(SCHEME <= rest) {
        return;
      }
      var salted := rest[|SCHEME|..];
      var dollar := FindColon(salted, '$');
      if dollar == |salted| {
        return;
      }
      var salt := ParseHex64(salted[..dollar]);
      var hash := ParseHex64(salted[dollar + 1..]);
      users := users[i := users[i].(salt := salt % TWO_32, hash := hash, passwordSet := true)];
    }

    /** All lines of a file, one after the other. */
    method ReadFile(isShadow: bool, file: string)
      requires Valid()
      modifies `users
      ensures Valid() && users == AllRead(isShadow, old(users), LinesOf(ReadPart(file)))
    {
      hide LinesOf, LineRead, ReadPart, AllRead;
      var copy := ReadPart(file);
      var start, p := 0, 0;
      ghost var done: seq<string> := [];
      assert copy[start..] == copy && done + LinesOf(copy) == LinesOf(copy);
      NothingRead(isShadow, users);
      while p < |copy|
        invariant start <= p <= |copy| && '\n' !in copy[start..p]
        invariant Valid() && users == AllRead(isShadow, old(users), done)
        invariant done + LinesOf(copy[start..]) == LinesOf(copy)
      {
        if copy[p] == '\n' {
          CutLine(done, copy, start, p, LinesOf(copy));
          ReadLine(isShadow, copy[start..p]);
          OneRead(isShadow, old(users), done, copy[start..p]);
          done := done + [copy[start..p]];
          start := p + 1;
        } else {
          ScanOn(copy, start, p, '\n');
        }
        p := p + 1;
      }
      LastLine(copy, start);
      ReadLine(isShadow, copy[start..]);
      OneRead(isShadow, old(users), done, copy[start..]);
    }

    method ReadLine(isShadow: bool, line: string)
      requires Valid()
      modifies `users
      ensures Valid() && users == LineRead(isShadow, old(users), line)
    {
      if line != "" {
        if isShadow {
          ParseShadowLine(line);
        } else {
          ParsePasswdLine(line);
        }
      }
    }

    /** Read both files; without a root user the table starts again with root alone, and so does the
        passwd file. */
    method UsersInit()
      requires Valid()
      modifies this
      ensures Valid() && current == 0
      ensures users == Loaded(old(passwd), old(shadow))
      ensures shadow == Gathered(ShadowLines(users))
      ensures passwd == if Rootless(old(passwd)) then Gathered(PasswdLines([ROOT])) else old(passwd)
      ensures Rootless(old(passwd)) ==> Synced()
    {
      hide AllRead, LinesOf, ReadPart, NewRecord, Gathered, Find, Added, PasswdLines, ShadowLines;
      RootAlone();
      NobodyFound();
      users := [];
      current := 0;
      ReadFile(false, passwd);
      if |users| == 0 {
        AddRecord("root", 0, 0, "/root", "/bin/tsh");
        RebuildPasswd();
      }
      var root := FindName("root");
      if root == |users| {
        users := [];
        AddRecord("root", 0, 0, "/root", "/bin/tsh");
        RebuildPasswd();
      }
      ShadowLinesAlone(users, LinesOf(ReadPart(shadow)));
      ReadFile(true, shadow);
      RebuildShadow();
    }

    /** A new user with a home directory and no password, written to both files. */
    method UserAdd(name: string, uid: nat, gid: nat) returns (ok: bool)
      requires Valid() && uid < TWO_32 && gid < TWO_32
      modifies this
      ensures Valid() && current == old(current)
      ensures ok <==> Addable(old(users), name, uid)
      ensures !ok ==> users == old(users) && passwd == old(passwd) && shadow == old(shadow)
      ensures ok ==> users == old(users) + [AddedUser(name, uid, gid)] && Synced()
    {
      hide NewRecord, Gathered, PasswdLines, ShadowLines, ValidName, Find;
      var i := FindName(name);
      var taken := FindUid(uid);
      if !ValidName(name) || i < |users| || taken || |users| >= MAX_USERS {
        return false;
      }
      var home := Cut("/home/" + name, HOME_MAX + 1);
      AddRecord(name, uid, gid, home, "/bin/tsh");
      RebuildPasswd();
      RebuildShadow();
      return true;
    }

    method FindUid(uid: nat) returns (found: bool)
      ensures found <==> exists u :: u in users && u.uid == uid
    {
      for i := 0 to |users|
        invariant forall j :: 0 <= j < i ==> users[j].uid != uid
      {
        if users[i].uid == uid {
          assert users[i] in users;
          return true;
        }
      }
      return false;
    }

    /** Set or clear a password. */
    method SetPassword(name: string, password: string) returns (ok: bool)
      requires Valid() && |password| < TWO_32
      modifies `users, `shadow
      ensures Valid()
      ensures ok <==> Find(old(users), name) < |old(users)|
      ensures !ok ==> users == old(users) && shadow == old(shadow)
      ensures ok ==>
        && users == old(users)[Find(old(users), name) := WithPassword(old(users)[Find(old(users), name)], name, password)]
        && shadow == Gathered(ShadowLines(users))
      ensures old(Synced()) ==> Synced()
      // from now on the password is asked for, and accepted; whoever else could log in can, and nobody else
      ensures ok ==> Accepts(users, name, password)
      ensures ok && password != "" ==> exists i :: 0 <= i < |users| && users[i].name == name && users[i].passwordSet
      ensures forall other, p :: other != name ==> (Accepts(users, other, p) <==> Accepts(old(users), other, p))
    {
      hide Gathered, ShadowLines, PasswdLines, Find, WithPassword, Accepts;
      var i := FindName(name);
      if i == |users| {
        return false;
      }
      PasswordFits(users[i], name, password);
      SamePasswdLines(users, i, name, password);
      SetAccepts(users, i, name, password);
      users := users[i := WithPassword(users[i], name, password)];
      RebuildShadow();
      return true;
    }

    method CheckPassword(name: string, password: string) returns (ok: bool)
      ensures ok == Accepts(users, name, password)
    {
      var i := FindName(name);
      if i == |users| {
        return false;
      }
      if !users[i].passwordSet {
        return true;
      }
      return HashPassword(users[i].salt, password) == users[i].hash;
    }

    /** A run of operations. */
    method Perform(ops: seq<Op>)
      requires Synced() && forall op :: op in ops ==> InWidth(op)
      modifies this
      ensures Synced() && users == AfterOps(old(users), ops)
    {
      for i := 0 to |ops|
        invariant Synced() && users == AfterOps(old(users), ops[..i])
      {
        hide Gathered, PasswdLines, ShadowLines, AddedUser, WithPassword, Find, Addable;
        assert ops[..i + 1][..i] == ops[..i] && ops[i] in ops;
        match ops[i] {
          case Add(name, uid, gid) => var _ := UserAdd(name, uid, gid);
          case Set(name, password) => var _ := SetPassword(name, password);
        }
      }
      assert ops[..|ops|] == ops;
    }
  }

  lemma PasswdLineAt(users: seq<Record>, i: nat)
    requires i < |users|
    ensures PasswdLines(users)[i] == Cut(PasswdLine(users[i]), 256)
  {
    hide PasswdLine, Cut;
  }

  lemma ShadowLineAt(users: seq<Record>, i: nat)
    requires i < |users|
    ensures ShadowLines(users)[i] == Cut(ShadowLine(users[i]), 192)
  {
    hide ShadowLine, Cut;
  }

  /** A line is gathered if there is room for it. */
  lemma NextLine(lines: seq<string>, i: nat, line: string, buf: string)
    requires i < |lines| && line == lines[i] && buf == Gathered(lines[..i])
    ensures Gathered(lines[..i + 1]) == if |buf| + |line| < FILE_MAX then buf + line else buf
  {
    hide Gathered;
    GatheredStep(lines, i);
  }

  /** Whether a passwd file has no root user. */
  predicate Rootless(passwd: string) {
    var users := AllRead(false, [], LinesOf(ReadPart(passwd)));
    Find(users, "root") == |users|
  }

  /** A system without user files is started, operations are performed on it, and it is started again.
      Whoever could log in can log in, and nobody else, as long as the files have room. */
  method RunAndRestart(ops: seq<Op>, name: string, password: string) returns (before: bool, after: bool)
    requires forall op :: op in ops ==> InWidth(op)
    ensures before == Accepts(AfterOps([ROOT], ops), name, password)
    ensures FilesFit(AfterOps([ROOT], ops)) ==> after == before
  {
    hide Gathered, PasswdLines, ShadowLines, AllRead, ReadPart, LinesOf, FilesFit, AfterOps, Loaded, NewRecord, Storable;
    var table := new Table("", "");
    NoFiles();
    table.UsersInit();
    table.Perform(ops);
    before := table.CheckPassword(name, password);
    FromRoot(ops);
    if FilesFit(table.users) {
      PasswordsSurvive(table.users, name, password);
    }
    table.UsersInit();
    after := table.CheckPassword(name, password);
  }

  lemma NoFiles()
    ensures Loaded("", "") == [ROOT] && Rootless("")
  {
    hide NewRecord;
    NoLines();
    EmptyLine();
    NobodyFound();
    TextRead("");
  }

  /** Reading shadow lines leaves the passwd lines alone. */
  lemma ShadowLinesAlone(users: seq<Record>, lines: seq<string>)
    ensures PasswdLines(AllRead(true, users, lines)) == PasswdLines(users)
  {
    hide AllRead, PasswdLine, MakeSalt, Cut;
    ShadowKeeps(users, lines);
    var after := AllRead(true, users, lines);
    forall i | 0 <= i < |users| ensures PasswdLine(after[i]) == PasswdLine(users[i]) {
      assert Blanks(after)[i] == Blanks(users)[i];
      BlankLine(after[i], users[i]);
    }
  }

  lemma SamePasswdLines(users: seq<Record>, i: nat, name: string, password: string)
    requires i < |users|
    ensures PasswdLines(users[i := WithPassword(users[i], name, password)]) == PasswdLines(users)
  {
    hide WithPassword, PasswdLine, Cut;
    SameLength(users[i], name, password);
    var after := users[i := WithPassword(users[i], name, password)];
    forall j | 0 <= j < |users| ensures PasswdLines(after)[j] == PasswdLines(users)[j] {
    }
  }

  lemma SameLength(u: Record, name: string, password: string)
    ensures PasswdLine(WithPassword(u, name, password)) == PasswdLine(u)
  {
    hide Xor32, MakeSalt, HashPassword, Digits;
  }

  // ---------------------------------------------------------------- runs

  datatype Op = Add(name: string, uid: nat, gid: nat) | Set(name: string, password: string)

  predicate InWidth(op: Op) {
    match op
    case Add(_, uid, gid) => uid < TWO_32 && gid < TWO_32
    case Set(_, password) => |password| < TWO_32
  }

  predicate Addable(users: seq<Record>, name: string, uid: nat) {
    ValidName(name) && Find(users, name) == |users| && (forall u :: u in users ==> u.uid != uid) && |users| < MAX_USERS
  }

  function AddedUser(name: string, uid: nat, gid: nat): Record {
    NewRecord(name, uid, gid, Cut("/home/" + name, HOME_MAX + 1), "/bin/tsh")
  }

  function AfterOp(users: seq<Record>, op: Op): seq<Record> {
    match op
    case Add(name, uid, gid) => if Addable(users, name, uid) then users + [AddedUser(name, uid, gid)] else users
    case Set(name, password) =>
      var i := Find(users, name);
      if i < |users| then users[i := WithPassword(users[i], name, password)] else users
  }

  function AfterOps(users: seq<Record>, ops: seq<Op>): seq<Record> {
    if ops == [] then users else AfterOp(AfterOps(users, ops[..|ops| - 1]), ops[|ops| - 1])
  }

  /** No user is added under a name whose first 31 characters are a stored name already. */
  predicate Apart(users: seq<Record>, ops: seq<Op>) {
    ops == [] ||
    (var n := |ops| - 1; var before := AfterOps(users, ops[..n]);
      Apart(users, ops[..n]) &&
      (ops[n].Add? && Addable(before, ops[n].name, ops[n].uid) ==> Find(before, Clip(ops[n].name, NAME_MAX)) == |before|))
  }

  predicate ValidName(name: string) {
    name != "" && forall c :: c in name ==> 'a' <= c <= 'z' || 'A' <= c <= 'Z' || '0' <= c <= '9' || c == '_' || c == '-'
  }

  function Xor32(a: nat, b: nat): nat {
    ((a % TWO_32) as bv32 ^ (b % TWO_32) as bv32) as nat
  }

  function WithPassword(u: Record, name: string, password: string): Record {
    var salt := MakeSalt(name, u.uid);
    if password == "" then u.(salt := salt, hash := 0, passwordSet := false)
    else
      var salted := Xor32(salt, |password|) % TWO_32;
      u.(salt := salted, hash := HashPassword(salted, password), passwordSet := true)
  }

  lemma PasswordFits(u: Record, name: string, password: string)
    ensures WithPassword(u, name, password).salt < TWO_32 && WithPassword(u, name, password).hash < TWO_64
    ensures WithPassword(u, name, password).uid == u.uid && WithPassword(u, name, password).gid == u.gid
  {
    hide Xor32;
  }

  predicate Accepts(users: seq<Record>, name: string, password: string) {
    var i := Find(users, name);
    i < |users| && (users[i].passwordSet ==> HashPassword(users[i].salt, password) == users[i].hash)
  }

  /** Setting a password makes it the one that is accepted for the name, and touches nobody else. */
  lemma SetAccepts(users: seq<Record>, i: nat, name: string, password: string)
    requires i < |users| && i == Find(users, name)
    ensures var after := users[i := WithPassword(users[i], name, password)];
      && Accepts(after, name, password) && after[i].name == name
      && (password != "" ==> after[i].passwordSet)
      && forall other, p :: other != name ==> (Accepts(after, other, p) <==> Accepts(users, other, p))
  {
    hide MakeSalt, HashPassword, Xor32, Find;
    var after := users[i := WithPassword(users[i], name, password)];
    assert forall j :: 0 <= j < |users| ==> after[j].name == users[j].name;
    SameNames(users, after, name);
    forall other, p | other != name ensures Accepts(after, other, p) <==> Accepts(users, other, p) {
      SameNames(users, after, other);
    }
  }

  // ---------------------------------------------------------------- tables that the operations build

  predicate DistinctNames(users: seq<Record>) {
    forall i, j :: 0 <= i < j < |users| ==> users[i].name != users[j].name
  }

  predicate AllShort(users: seq<Record>) {
    forall i :: 0 <= i < |users| ==> Short(users[i])
  }

  /** The table that a system without user files starts from. */
  lemma RootKept()
    ensures Storable([ROOT]) && AllShort([ROOT]) && DistinctNames([ROOT])
  {
    hide Clean, Short, NewRecord;
    RootClean();
    RootShort();
    RootAlone();
  }

  /** `user_add` compares whole names with stored ones, which are cut to 31 characters. The names
      stay distinct exactly when the cut name was not stored before. */
  lemma AddKeepsDistinct(users: seq<Record>, name: string, uid: nat, gid: nat)
    requires DistinctNames(users) && Addable(users, name, uid)
    ensures DistinctNames(users + [AddedUser(name, uid, gid)]) <==> Find(users, Clip(name, NAME_MAX)) == |users|
  {
    hide Find, Clip, AddedUser, Addable, DistinctNames;
    AddedName(name, uid, gid);
    OneMoreName(users, AddedUser(name, uid, gid));
  }

  /** A user can be added exactly under a name of letters, digits, underscores and hyphens, when neither
      this name nor the number is taken and fewer than 32 users are there. */
  lemma AddableMeans(users: seq<Record>, name: string, uid: nat)
    ensures Addable(users, name, uid) <==>
      && name != "" && (forall i :: 0 <= i < |name| ==>
        var c := name[i] as int;
        97 <= c <= 122 || 65 <= c <= 90 || 48 <= c <= 57 || c == 95 || c == 45)
      && |users| < 32
      && (forall i :: 0 <= i < |users| ==> users[i].name != name && users[i].uid != uid)
  {
    hide MakeSalt;
    assert forall i :: 0 <= i < |name| ==> name[i] in name;
    assert forall i :: 0 <= i < |users| ==> users[i] in users;
  }

  /** A new user's record: name and home directory as far as they fit, no password yet. */
  lemma NewUser(name: string, uid: nat, gid: nat)
    ensures var u := AddedUser(name, uid, gid);
      && u.uid == uid && u.gid == gid && u.shell == "/bin/tsh" && !u.passwordSet
      && |u.name| == (if |name| > 31 then 31 else |name|) && u.name <= name
      && |u.home| == (if |name| > 121 then 127 else 6 + |name|) && u.home <= "/home/" + name
  {
    hide MakeSalt;
  }

  lemma AddedName(name: string, uid: nat, gid: nat)
    ensures AddedUser(name, uid, gid).name == Clip(name, NAME_MAX) && AddedUser(name, uid, gid).uid == uid
  {
    hide Clip, MakeSalt, Cut;
  }

  lemma OneMoreName(users: seq<Record>, u: Record)
    requires DistinctNames(users)
    ensures DistinctNames(users + [u]) <==> Find(users, u.name) == |users|
  {
    hide Find;
    var more := users + [u];
    var i := Find(users, u.name);
    assert forall j :: 0 <= j < |users| ==> more[j] == users[j];
    if i < |users| {
      assert more[i].name == more[|users|].name;
    }
  }

  /** Two users whose names agree in their first 31 characters can both be added, and share a name. */
  lemma TwoNames(long: string, c: char, d: char, uid: nat, gid: nat)
    requires |long| == NAME_MAX && ValidName(long) && 'a' <= c < d <= 'z' && 0 < uid < gid < TWO_32
    ensures var one := [ROOT, AddedUser(long + [c], uid, uid)];
      && Addable([ROOT], long + [c], uid) && Addable(one, long + [d], gid)
      && !DistinctNames(one + [AddedUser(long + [d], gid, gid)])
  {
    hide AddedUser, NewRecord, Find;
    RootAlone();
    var u, w := AddedUser(long + [c], uid, uid), AddedUser(long + [d], gid, gid);
    AddedName(long + [c], uid, uid);
    AddedName(long + [d], gid, gid);
    assert (long + [c])[..NAME_MAX] == long && (long + [d])[..NAME_MAX] == long;
    RootUid();
    FindIs([ROOT], long + [c], 1);
    FindIs([ROOT, u], long + [d], 2);
    SharedName([ROOT, u], w, 1);
  }

  lemma RootUid()
    ensures ROOT.uid == 0 && |ROOT.name| == 4
  {
    hide MakeSalt;
  }

  lemma SharedName(users: seq<Record>, u: Record, i: nat)
    requires i < |users| && users[i].name == u.name
    ensures !DistinctNames(users + [u])
  {
    assert (users + [u])[i].name == (users + [u])[|users|].name;
  }

  lemma AddKeeps(users: seq<Record>, name: string, uid: nat, gid: nat)
    requires Storable(users) && Addable(users, name, uid) && uid < TWO_32 && gid < TWO_32
    ensures Storable(users + [AddedUser(name, uid, gid)])
    ensures AllShort(users) ==> AllShort(users + [AddedUser(name, uid, gid)])
  {
    hide MakeSalt, Clean, Short, AddedUser, SecretsFirst, Find;
    NewClean(name, uid, gid);
    var more := users + [AddedUser(name, uid, gid)];
    MoreSecretsFirst(users, AddedUser(name, uid, gid));
    assert forall i :: 0 <= i < |users| ==> more[i] == users[i];
    FindIs(more, "root", Find(users, "root"));
  }

  lemma SetKeeps(users: seq<Record>, i: nat, name: string, password: string)
    requires Storable(users) && i < |users| && i == Find(users, name) && |password| < TWO_32
    ensures var after := users[i := WithPassword(users[i], name, password)];
      Storable(after) && (AllShort(users) ==> AllShort(after)) && (DistinctNames(after) <==> DistinctNames(users))
  {
    hide Short, Find, WithPassword, SecretsFirst, Clean;
    SetClean(users[i], name, password);
    var after := users[i := WithPassword(users[i], name, password)];
    assert forall j :: 0 <= j < |users| ==> after[j].name == users[j].name;
    SetSecretsFirst(users, i, after[i]);
    SameNames(users, after, "root");
  }

  lemma SetClean(u: Record, name: string, password: string)
    requires Clean(u)
    ensures Clean(WithPassword(u, name, password)) && WithPassword(u, name, password).name == u.name
    ensures Short(u) ==> Short(WithPassword(u, name, password))
  {
    hide MakeSalt, HashPassword, Xor32, Digits, PasswdLine, Plain, Flat;
    PasswordFits(u, name, password);
    SameLength(u, name, password);
  }

  /** Whatever operations are performed on a storable table, it stays storable, and short lines stay
      short. Distinct names stay distinct exactly when no name is added whose first 31 characters are
      stored before. */
  lemma {:induction false} RunKeeps(start: seq<Record>, ops: seq<Op>)
    requires Storable(start) && forall op :: op in ops ==> InWidth(op)
    ensures var users := AfterOps(start, ops);
      && Storable(users)
      && (AllShort(start) ==> AllShort(users))
      && (DistinctNames(start) ==> (DistinctNames(users) <==> Apart(start, ops)))
  {
    hide Storable, DistinctNames, AllShort, Addable, AddedUser, WithPassword, Find, AfterOp;
    if ops != [] {
      var n := |ops| - 1;
      assert ops[n] in ops && forall op :: op in ops[..n] ==> op in ops;
      RunKeeps(start, ops[..n]);
      StepKeeps(AfterOps(start, ops[..n]), ops[n]);
    }
  }

  lemma FromRoot(ops: seq<Op>)
    requires forall op :: op in ops ==> InWidth(op)
    ensures Storable(AfterOps([ROOT], ops)) && AllShort(AfterOps([ROOT], ops))
  {
    hide Storable, AllShort, AfterOps, NewRecord;
    RootKept();
    RunKeeps([ROOT], ops);
  }

  lemma StepKeeps(users: seq<Record>, op: Op)
    requires Storable(users) && InWidth(op)
    ensures Storable(AfterOp(users, op))
    ensures AllShort(users) ==> AllShort(AfterOp(users, op))
    ensures DistinctNames(AfterOp(users, op)) <==>
      DistinctNames(users) && (op.Add? && Addable(users, op.name, op.uid) ==> Find(users, Clip(op.name, NAME_MAX)) == |users|)
  {
    hide Storable, AllShort, DistinctNames, AddedUser, WithPassword, Clip;
    match op {
      case Add(name, uid, gid) =>
        if Addable(users, name, uid) {
          AddKeeps(users, name, uid, gid);
          if DistinctNames(users) {
            AddKeepsDistinct(users, name, uid, gid);
          } else {
            StillNot(users, AddedUser(name, uid, gid));
          }
        }
      case Set(name, password) =>
        if Find(users, name) < |users| {
          SetKeeps(users, Find(users, name), name, password);
        }
    }
  }

  /** With room in the files, a restart brings back every table that operations make of one that was
      read, up to unused salts; users who share a name included, of whom only the first has a password. */
  lemma RestartKeeps(passwd: string, shadow: string, ops: seq<Op>)
    requires forall op :: op in ops ==> InWidth(op)
    ensures var users := AfterOps(Loaded(passwd, shadow), ops);
      && SecretsFirst(users)
      && (Loaded(Gathered(PasswdLines(users)), Gathered(ShadowLines(users))) == Settled(users) <==> FilesFit(users))
  {
    hide Loaded, Gathered, PasswdLines, ShadowLines, FilesFit, Settled, AfterOps, SecretsFirst, Clean, Find;
    LoadedStorable(passwd, shadow);
    RunKeeps(Loaded(passwd, shadow), ops);
    TableSurvives(AfterOps(Loaded(passwd, shadow), ops));
  }

  lemma StillNot(users: seq<Record>, u: Record)
    requires !DistinctNames(users)
    ensures !DistinctNames(users + [u])
  {
    var i, j :| 0 <= i < j < |users| && users[i].name == users[j].name;
    assert (users + [u])[i].name == (users + [u])[j].name;
  }

  lemma NewClean(name: string, uid: nat, gid: nat)
    requires ValidName(name) && uid < TWO_32 && gid < TWO_32
    ensures Clean(AddedUser(name, uid, gid)) && Short(AddedUser(name, uid, gid)) && !AddedUser(name, uid, gid).passwordSet
  {
    hide Digits, MakeSalt, PasswdLine, ValidName;
    var u := AddedUser(name, uid, gid);
    DigitCount10(uid, 10);
    DigitCount10(gid, 10);
    BodyLength(u);
    SaltFits(name, uid);
    PlainParts(name);
    PlainPart(name, NAME_MAX);
    PlainPart("/home/" + name, HOME_MAX);
  }

  lemma PlainPart(s: string, limit: nat)
    requires Plain(s)
    ensures Plain(Clip(s, limit)) && Clip(s, limit) == Cut(s, limit + 1) == Clip(Cut(s, limit + 1), limit)
  {
    if |s| > limit {
      assert s == s[..limit] + s[limit..];
    }
  }

  lemma PlainParts(name: string)
    requires ValidName(name)
    ensures Plain(name) && Plain("/home/" + name) && Plain("/bin/tsh")
  {
  }

  /** After a restart every password that was accepted is accepted, and no other. */
  lemma PasswordsSurvive(users: seq<Record>, name: string, password: string)
    requires Storable(users) && FilesFit(users)
    ensures Accepts(Loaded(Gathered(PasswdLines(users)), Gathered(ShadowLines(users))), name, password) <==>
      Accepts(users, name, password)
  {
    hide Storable, FilesFit, Gathered, PasswdLines, ShadowLines, Loaded;
    TableSurvives(users);
    SettledAccepts(users, name, password);
  }

  lemma SettledAccepts(users: seq<Record>, name: string, password: string)
    ensures Accepts(Settled(users), name, password) <==> Accepts(users, name, password)
  {
    hide MakeSalt, HashPassword;
    var i, r := Find(users, name), Settled(users);
    assert forall j :: 0 <= j < |users| ==> r[j].name == users[j].name;
    FindIs(r, name, i);
  }

  lemma NothingRead(isShadow: bool, users: seq<Record>)
    ensures AllRead(isShadow, users, []) == users
  {
  }

  lemma OneRead(isShadow: bool, users: seq<Record>, done: seq<string>, line: string)
    ensures AllRead(isShadow, users, done + [line]) == LineRead(isShadow, AllRead(isShadow, users, done), line)
  {
    hide LineRead;
    assert (done + [line])[..|done|] == done;
  }

  lemma CutLine(done: seq<string>, s: string, start: nat, p: nat, all: seq<string>)
    requires start <= p < |s| && s[p] == '\n' && '\n' !in s[start..p]
    requires done + LinesOf(s[start..]) == all
    ensures done + [s[start..p]] + LinesOf(s[p + 1..]) == all
  {
    hide LinesOf;
    var t := s[start..];
    assert t[..p - start] == s[start..p] && t[p - start + 1..] == s[p + 1..];
    FirstLine(s[start..p], s[p + 1..]);
    assert t == s[start..p] + ['\n'] + s[p + 1..];
  }

  lemma LastLine(s: string, start: nat)
    requires start <= |s| && '\n' !in s[start..|s|]
    ensures LinesOf(s[start..]) == [s[start..]]
  {
    var t := s[start..];
    assert t == s[start..|s|] && t[..|t|] == t;
    IndexUnique(t, '\n', |t|);
  }
}
