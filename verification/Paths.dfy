/** Path names as kernel/fs/vfs.c reads them: slash-separated components, the stack that "." and
    ".." act on, and the canonical spelling that vfs_normalize writes. A C string is modelled by
    the characters before its terminator. */
module Paths {
  import opened Basics
  import opened Wrappers

  const NAME_MAX: nat := 63
  const PATH_MAX: nat := 256
  const MAX_COMPONENTS: nat := 32

  type Path = seq<string>

  /** What a stored name looks like: non-empty, within the limit, one component, not a dot name. */
  predicate ValidName(c: string) {
    0 < |c| <= NAME_MAX && '/' !in c && c != "." && c != ".."
  }

  predicate ValidPath(cs: Path) {
    |cs| <= MAX_COMPONENTS && forall i :: 0 <= i < |cs| ==> ValidName(cs[i])
  }

  // ---------------------------------------------------------------- splitting

  /** Position of the first slash, or the length. */
  function Slash(s: string): (i: nat)
    ensures i <= |s| && '/' !in s[..i]
    ensures i < |s| ==> s[i] == '/'
  {
    if s == "" || s[0] == '/' then 0 else 1 + Slash(s[1..])
  }

  /** The pieces between slashes. */
  function Split(s: string): seq<string>
    decreases |s|
  {
    var i := Slash(s);
    if i == |s| then [s] else [s[..i]] + Split(s[i + 1..])
  }

  function NameOf(piece: string): seq<string> {
    if piece == "" then [] else [Clip(piece, NAME_MAX)]
  }

  /** The non-empty pieces, cut to the name limit. */
  function Names(pieces: seq<string>): seq<string> {
    if pieces == [] then []
    else NameOf(pieces[0]) + Names(pieces[1..])
  }

  function Components(s: string): seq<string> {
    Names(Split(s))
  }

  // ---------------------------------------------------------------- the stack

  /** "." stays, ".." pops (at the root it stays), anything else is pushed; more than 32 is an error. */
  function Fold(cs: seq<string>, stack: Path): Option<Path> {
    if cs == [] then Some(stack)
    else if cs[0] == "." then Fold(cs[1..], stack)
    else if cs[0] == ".." then Fold(cs[1..], if stack == [] then [] else stack[..|stack| - 1])
    else if |stack| >= MAX_COMPONENTS then None
    else Fold(cs[1..], stack + [cs[0]])
  }

  // ---------------------------------------------------------------- the canonical spelling

  function Spell(cs: Path): string {
    if cs == [] then "" else "/" + cs[0] + Spell(cs[1..])
  }

  function Render(cs: Path): string {
    if cs == [] then "/" else Spell(cs)
  }

  /** Whether the spelling fits a buffer of `n` bytes. The source asks one byte too many of the
      first component, because the root's slash is counted again. */
  predicate Fits(cs: Path, n: nat) {
    n >= 2 && (cs != [] ==> |cs[0]| + 3 <= n && |Spell(cs)| + 1 <= n)
  }

  /** The text that vfs_normalize splits: at most 255 characters of the absolute path. An empty
      `cwd` stands for a null one too. */
  function Source(path: string, cwd: string): string {
    Clip(if path != "" && path[0] == '/' then path else (if cwd == "" then "/" else cwd) + "/" + path, PATH_MAX - 1)
  }

  function Stack(path: string, cwd: string): Option<Path> {
    Fold(Components(Source(path, cwd)), [])
  }

  /** The components that vfs_normalize leaves in a buffer of `n` bytes. */
  function Canonical(path: string, cwd: string, n: nat): Option<Path> {
    var cs := Stack(path, cwd);
    if cs.Some? && Fits(cs.value, n) then cs else None
  }

  // ---------------------------------------------------------------- vfs_normalize

  lemma {:induction false} SlashIs(s: string, i: nat)
    requires i <= |s| && '/' !in s[..i] && (i < |s| ==> s[i] == '/')
    ensures Slash(s) == i
  {
    if i > 0 {
      assert s[0] == s[..i][0];
      assert s[1..][..i - 1] == s[..i][1..];
      SlashIs(s[1..], i - 1);
    }
  }

  /** End of the component that starts at `p`. */
  function NameEnd(s: string, p: nat): (e: nat)
    requires p <= |s|
    ensures p <= e <= |s|
  {
    p + Slash(s[p..])
  }

  /** One component and the position behind it; both vfs_normalize and vfs_lookup scan like this. */
  method ScanComponent(s: string, start: nat) returns (comp: string, p: nat)
    requires start <= |s|
    ensures p == NameEnd(s, start) && comp == Clip(s[start..p], NAME_MAX)
  {
    hide Slash, Clip;
    comp, p := "", start;
    while p < |s| && s[p] != '/' && |comp| < NAME_MAX
      invariant start <= p <= |s| && |comp| <= NAME_MAX
      invariant comp == s[start..p] && '/' !in s[start..p]
    {
      assert s[start..p + 1] == s[start..p] + [s[p]];
      comp := comp + [s[p]];
      p := p + 1;
    }
    ghost var q := p;
    while p < |s| && s[p] != '/'
      invariant q <= p <= |s| && (|comp| < NAME_MAX ==> p == q)
      invariant forall k :: q <= k < p ==> s[k] != '/'
    {
      p := p + 1;
    }
    ClipIs(s, start, q, p);
    NameEndsAt(s, start, p);
  }

  lemma ClipIs(s: string, start: nat, q: nat, p: nat)
    requires start <= q <= p <= |s| && q - start <= NAME_MAX && (q - start < NAME_MAX ==> p == q)
    requires '/' !in s[start..q] && forall k :: q <= k < p ==> s[k] != '/'
    ensures Clip(s[start..p], NAME_MAX) == s[start..q] && '/' !in s[start..p]
  {
    assert s[start..p] == s[start..q] + s[q..p];
  }

  lemma NameEndsAt(s: string, p: nat, e: nat)
    requires p <= e <= |s| && '/' !in s[p..e] && (e < |s| ==> s[e] == '/')
    ensures NameEnd(s, p) == e
  {
    assert s[p..][..e - p] == s[p..e];
    SlashIs(s[p..], e - p);
  }

  lemma SkipSlash(s: string, p: nat)
    requires p < |s| && s[p] == '/'
    ensures Components(s[p..]) == Components(s[p + 1..])
  {
    var t := s[p..];
    assert t[..0] == "" && t[1..] == s[p + 1..];
    assert Split(t) == [""] + Split(t[1..]);
    assert Split(t)[1..] == Split(t[1..]);
  }

  lemma ComponentsEmpty()
    ensures Components("") == []
  {
    assert Split("") == [""] && [""][1..] == [];
  }

  lemma TakeName(s: string, p: nat)
    requires p < |s| && s[p] != '/'
    ensures var e := NameEnd(s, p);
      && p < e
      && Components(s[p..]) == [Clip(s[p..e], NAME_MAX)] + Components(s[e..])
      && '/' !in s[p..e]
  {
    var t, e := s[p..], NameEnd(s, p);
    NameParts(s, p);
    hide Split, Slash, Names, Clip, NameEnd;
    if e == |s| {
      assert t == s[p..e] && s[e..] == "";
      SplitNone(t);
      NamesCons(t, []);
      assert [t] + [] == [t];
      NoNames();
      ComponentsEmpty();
    } else {
      SkipSlash(s, e);
      assert t[..e - p] == s[p..e] && t[e - p + 1..] == s[e + 1..];
      SplitAt(t, e - p);
      NamesCons(s[p..e], Split(s[e + 1..]));
    }
    NameIs(s[p..e]);
  }

  lemma NameParts(s: string, p: nat)
    requires p < |s| && s[p] != '/'
    ensures var e := NameEnd(s, p);
      && p < e && '/' !in s[p..e] && (e < |s| ==> s[e] == '/')
  {
    var t, e := s[p..], NameEnd(s, p);
    assert t[..e - p] == s[p..e];
  }

  lemma NameIs(name: string)
    requires name != ""
    ensures NameOf(name) == [Clip(name, NAME_MAX)]
  {
  }

  lemma FoldCons(c: string, cs: seq<string>, stack: Path)
    ensures Fold([c] + cs, stack) ==
      if c == "." then Fold(cs, stack)
      else if c == ".." then Fold(cs, if stack == [] then [] else stack[..|stack| - 1])
      else if |stack| >= MAX_COMPONENTS then None
      else Fold(cs, stack + [c])
  {
    assert ([c] + cs)[1..] == cs;
  }

  method Normalize(path: string, cwd: string, outSize: nat) returns (out: Option<string>)
    ensures out == match Canonical(path, cwd, outSize) { case Some(cs) => Some(Render(cs)) case None => None }
  {
    hide Components, Fold;
    if outSize == 0 {
      return None;
    }
    var source := Source(path, cwd);
    assert source[0..] == source;
    var comps: Path := [];
    var p := 0;
    while p < |source|
      invariant p <= |source|
      invariant ValidPath(comps) && Fold(Components(source[p..]), comps) == Stack(path, cwd)
      decreases |source| - p
    {
      while p < |source| && source[p] == '/'
        invariant p <= |source|
        invariant Fold(Components(source[p..]), comps) == Stack(path, cwd)
        decreases |source| - p
      {
        SkipSlash(source, p);
        p := p + 1;
      }
      if p == |source| {
        break;
      }
      TakeName(source, p);
      var comp, q := ScanComponent(source, p);
      FoldCons(comp, Components(source[q..]), comps);
      p := q;
      if comp == "." {
        continue;
      }
      if comp == ".." {
        if |comps| > 0 {
          comps := comps[..|comps| - 1];
        }
        continue;
      }
      if |comps| >= MAX_COMPONENTS {
        return None;
      }
      comps := comps + [comp];
    }
    assert source[p..] == "";
    ComponentsEmpty();
    FoldNil(comps);
    if outSize < 2 {
      return None;
    }
    out := RenderInto(comps, outSize);
  }

  lemma FoldNil(stack: Path)
    ensures Fold([], stack) == Some(stack)
  {
  }

  lemma {:induction false} SpellSnoc(cs: Path, c: string)
    ensures Spell(cs + [c]) == Spell(cs) + "/" + c
  {
    if cs == [] {
      assert [c][1..] == [];
    } else {
      SpellSnoc(cs[1..], c);
      assert (cs + [c])[1..] == cs[1..] + [c];
    }
  }

  lemma {:induction false} SpellGrows(cs: Path, i: nat)
    requires i <= |cs|
    ensures |Spell(cs[..i])| <= |Spell(cs)|
    decreases |cs| - i
  {
    if i == |cs| {
      assert cs[..i] == cs;
    } else {
      SpellSnoc(cs[..i], cs[i]);
      assert cs[..i + 1] == cs[..i] + [cs[i]];
      SpellGrows(cs, i + 1);
    }
  }

  /** The output loop of vfs_normalize. */
  method RenderInto(comps: Path, outSize: nat) returns (r: Option<string>)
    requires outSize >= 2 && ValidPath(comps)
    ensures r == if Fits(comps, outSize) then Some(Render(comps)) else None
  {
    hide Render, Fits, Spell, ValidName;
    var out := "/";
    RenderNothing(comps, outSize);
    for i := 0 to |comps|
      invariant out == Render(comps[..i])
      invariant i > 0 ==> |out| > 1 && |comps[0]| + 3 <= outSize && |out| + 1 <= outSize
    {
      RenderNext(comps, i, outSize);
      if |out| + |comps[i]| + 2 > outSize {
        return None;
      }
      if out != "/" {
        out := out + "/";
      }
      out := out + comps[i];
    }
    assert comps[..|comps|] == comps;
    FitsIs(comps, outSize);
    r := Some(out);
  }

  lemma RenderNothing(cs: Path, n: nat)
    ensures Render(cs[..0]) == "/"
  {
  }

  lemma RenderNext(cs: Path, i: nat, n: nat)
    requires i < |cs| && ValidPath(cs)
    ensures var out := Render(cs[..i]);
      && Render(cs[..i + 1]) == (if out == "/" then out else out + "/") + cs[i]
      && (out == "/" <==> i == 0) && |cs[i]| > 0
      && (n >= 2 && Fits(cs, n) ==> |out| + |cs[i]| + 2 <= n)
  {
    assert ValidName(cs[i]);
    hide ValidName;
    SpellSnoc(cs[..i], cs[i]);
    assert cs[..i + 1] == cs[..i] + [cs[i]];
    SpellGrows(cs, i + 1);
    if i > 0 {
      NotJustSlash(cs, i);
    }
  }

  lemma NotJustSlash(cs: Path, i: nat)
    requires 0 < i < |cs| && ValidPath(cs)
    ensures |Spell(cs[..i])| > 1
  {
    assert ValidName(cs[0]) && cs[..i][0] == cs[0];
  }

  lemma FitsIs(cs: Path, n: nat)
    ensures Fits(cs, n) <==> n >= 2 && (cs != [] ==> |cs[0]| + 3 <= n && |Render(cs)| + 1 <= n)
  {
    hide Spell;
  }

  // ---------------------------------------------------------------- what the output looks like

  lemma {:induction false} SplitNoSlash(s: string)
    ensures forall piece :: piece in Split(s) ==> '/' !in piece
    decreases |s|
  {
    var i := Slash(s);
    if i < |s| {
      SplitNoSlash(s[i + 1..]);
    } else {
      assert s[..i] == s;
    }
  }

  lemma {:induction false} NamesClean(pieces: seq<string>)
    requires forall piece :: piece in pieces ==> '/' !in piece
    ensures forall c :: c in Names(pieces) ==> 0 < |c| <= NAME_MAX && '/' !in c
  {
    if pieces != [] {
      NamesClean(pieces[1..]);
      assert pieces[0] in pieces;
      forall c | c in Names(pieces) ensures 0 < |c| <= NAME_MAX && '/' !in c {
        if c !in Names(pieces[1..]) { assert c == Clip(pieces[0], NAME_MAX); }
      }
    }
  }

  lemma {:induction false} FoldValid(cs: seq<string>, stack: Path)
    requires ValidPath(stack) && forall c :: c in cs ==> 0 < |c| <= NAME_MAX && '/' !in c
    ensures Fold(cs, stack).Some? ==> ValidPath(Fold(cs, stack).value)
  {
    if cs != [] {
      var stack' := if cs[0] == "." then stack
        else if cs[0] == ".." then (if stack == [] then [] else stack[..|stack| - 1])
        else stack + [cs[0]];
      if |stack'| <= MAX_COMPONENTS {
        FoldValid(cs[1..], stack');
      }
    }
  }

  /** No empty, "." or ".." component survives, and at most 32 do. */
  lemma CanonicalValid(path: string, cwd: string, n: nat)
    ensures Canonical(path, cwd, n).Some? ==> ValidPath(Canonical(path, cwd, n).value)
  {
    SplitNoSlash(Source(path, cwd));
    NamesClean(Split(Source(path, cwd)));
    FoldValid(Components(Source(path, cwd)), []);
  }

  // ---------------------------------------------------------------- reading back, and relative paths

  lemma SplitAt(s: string, i: nat)
    requires i < |s| && '/' !in s[..i] && s[i] == '/'
    ensures Split(s) == [s[..i]] + Split(s[i + 1..])
  {
    hide Slash;
    SlashIs(s, i);
  }

  lemma SplitNone(s: string)
    requires '/' !in s
    ensures Split(s) == [s]
  {
    assert s[..|s|] == s;
    SlashIs(s, |s|);
  }

  lemma {:induction false} SplitConcat(a: string, b: string)
    ensures Split(a + "/" + b) == Split(a) + Split(b)
    decreases |a|
  {
    hide Split, Slash;
    var i := Slash(a);
    var t := a + "/" + b;
    if i == |a| {
      assert a[..i] == a;
      SplitNone(a);
      assert t[..i] == a && t[i + 1..] == b;
      SplitAt(t, i);
    } else {
      var a' := a[i + 1..];
      SplitConcat(a', b);
      SplitAt(a, i);
      assert t == a[..i] + "/" + (a' + "/" + b);
      assert t[..i] == a[..i] && t[i + 1..] == a' + "/" + b;
      SplitAt(t, i);
    }
  }

  lemma {:induction false} NamesConcat(xs: seq<string>, ys: seq<string>)
    ensures Names(xs + ys) == Names(xs) + Names(ys)
  {
    hide Names;
    if xs == [] {
      NoNames();
      assert xs + ys == ys;
    } else {
      NamesConcat(xs[1..], ys);
      assert xs == [xs[0]] + xs[1..] && xs + ys == [xs[0]] + (xs[1..] + ys);
      NamesCons(xs[0], xs[1..]);
      NamesCons(xs[0], xs[1..] + ys);
    }
  }

  lemma NoNames()
    ensures Names([]) == []
  {
  }

  lemma NamesCons(piece: string, rest: seq<string>)
    ensures Names([piece] + rest) == NameOf(piece) + Names(rest)
  {
    assert ([piece] + rest)[1..] == rest;
  }

  lemma ComponentsConcat(a: string, b: string)
    ensures Components(a + "/" + b) == Components(a) + Components(b)
  {
    SplitConcat(a, b);
    NamesConcat(Split(a), Split(b));
  }

  lemma {:induction false} FoldConcat(xs: seq<string>, ys: seq<string>, stack: Path)
    ensures Fold(xs + ys, stack) ==
      match Fold(xs, stack) { case Some(st) => Fold(ys, st) case None => None }
  {
    if xs == [] {
      assert xs + ys == ys;
    } else {
      assert (xs + ys)[1..] == xs[1..] + ys;
      var stack' := if xs[0] == "." then stack
        else if xs[0] == ".." then (if stack == [] then [] else stack[..|stack| - 1])
        else stack + [xs[0]];
      FoldConcat(xs[1..], ys, stack');
    }
  }

  lemma ClipFits(c: string, limit: nat)
    requires |c| <= limit
    ensures Clip(c, limit) == c
  {
  }

  lemma {:induction false} ComponentsOfSpell(cs: Path)
    requires forall c :: c in cs ==> ValidName(c)
    ensures Components(Spell(cs)) == cs
  {
    if cs == [] {
      ComponentsEmpty();
    } else {
      hide Components, Spell, ValidName, Clip;
      var c, rest := cs[0], Spell(cs[1..]);
      ComponentsOfSpell(cs[1..]);
      assert c in cs;
      SpellStarts(cs);
      FirstComponent(c, rest);
      assert [c] + cs[1..] == cs;
    }
  }

  lemma SpellStarts(cs: Path)
    requires cs != []
    ensures Spell(cs) == "/" + cs[0] + Spell(cs[1..])
    ensures Spell(cs[1..]) != "" ==> Spell(cs[1..])[0] == '/'
  {
  }

  lemma FirstComponent(c: string, rest: string)
    requires ValidName(c) && (rest != "" ==> rest[0] == '/')
    ensures Components("/" + c + rest) == [c] + Components(rest)
  {
    assert c[0] in c;
    hide Components, Clip, NameEnd;
    var s, t := "/" + c + rest, c + rest;
    assert s[1..] == t && s[0..] == s;
    SkipSlash(s, 0);
    assert t[0..] == t && t[..|c|] == c && t[|c|..] == rest && t[0..|c|] == c;
    NameEndsAt(t, 0, |c|);
    ClipFits(c, NAME_MAX);
    TakeName(t, 0);
  }

  lemma ComponentsOfRender(cs: Path)
    requires forall c :: c in cs ==> ValidName(c)
    ensures Components(Render(cs)) == cs
  {
    if cs == [] {
      SkipSlash("/", 0);
      assert "/"[0..] == "/" && "/"[1..] == "";
      ComponentsEmpty();
    } else {
      ComponentsOfSpell(cs);
    }
  }

  lemma {:induction false} FoldPushes(cs: Path, stack: Path)
    requires forall c :: c in cs ==> ValidName(c)
    requires |stack| + |cs| <= MAX_COMPONENTS
    ensures Fold(cs, stack) == Some(stack + cs)
  {
    if cs == [] {
      assert stack + cs == stack;
    } else {
      assert cs[0] in cs && ValidName(cs[0]);
      FoldPushes(cs[1..], stack + [cs[0]]);
      assert stack + [cs[0]] + cs[1..] == stack + cs;
    }
  }

  /** A canonical spelling that fits the kernel's path buffer is a fixed point, whatever the
      current directory; this is what lets vfs_lookup and parent_and_name normalize again. */
  lemma CanonicalFixed(cs: Path, cwd: string, n: nat)
    requires ValidPath(cs) && Fits(cs, n) && |Render(cs)| < PATH_MAX
    ensures Canonical(Render(cs), cwd, n) == Some(cs)
  {
    assert Render(cs)[0] == '/' && Source(Render(cs), cwd) == Render(cs);
    ComponentsOfRender(cs);
    FoldPushes(cs, []);
    assert [] + cs == cs;
  }

  /** A relative path continues from the current directory's stack, as long as both together fit. */
  lemma RelativeContinues(path: string, cwd: string)
    requires path == "" || path[0] != '/'
    requires cwd != "" && |cwd| + 1 + |path| < PATH_MAX
    ensures Stack(path, cwd) ==
      match Fold(Components(cwd), []) { case Some(st) => Fold(Components(path), st) case None => None }
  {
    ComponentsConcat(cwd, path);
    FoldConcat(Components(cwd), Components(path), []);
  }
}
