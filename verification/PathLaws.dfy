/** When normalizing a path twice is normalizing it once, and which outputs fit their buffer. */
module PathLaws {
  import opened Basics
  import opened Wrappers
  import opened Paths

  /** What is left when a text is read again can only be shorter, and is as long only if every
      piece between slashes is a valid name. */
  lemma {:induction false} FoldWeight(pieces: seq<string>, stack: Path)
    requires forall piece :: piece in pieces ==> '/' !in piece
    ensures var r := Fold(Names(pieces), stack);
      r.Some? ==> |Spell(r.value)| + (if AllValid(pieces) then 0 else 1) <= |Spell(stack)| + Weight(pieces)
  {
    if pieces != [] {
      var c, rest := pieces[0], pieces[1..];
      AllValidStep(pieces);
      if c == "" {
        assert Names(pieces) == Names(rest);
        FoldWeight(rest, stack);
      } else {
        FoldCons(Clip(c, NAME_MAX), Names(rest), stack);
        if c == "." {
          FoldWeight(rest, stack);
        } else if c == ".." {
          FoldWeight(rest, if stack == [] then [] else stack[..|stack| - 1]);
          if stack != [] {
            SpellGrows(stack, |stack| - 1);
          }
        } else {
          FoldWeight(rest, stack + [Clip(c, NAME_MAX)]);
          SpellSnoc(stack, Clip(c, NAME_MAX));
        }
      }
    }
  }

  predicate AllValid(pieces: seq<string>) {
    forall piece :: piece in pieces ==> ValidName(piece)
  }

  lemma AllValidStep(pieces: seq<string>)
    requires pieces != []
    ensures AllValid(pieces) <==> ValidName(pieces[0]) && AllValid(pieces[1..])
  {
    hide ValidName;
    assert pieces == [pieces[0]] + pieces[1..];
  }

  function Weight(pieces: seq<string>): nat {
    if pieces == [] then 0 else |pieces[0]| + 1 + Weight(pieces[1..])
  }

  lemma {:induction false} SplitWeight(s: string)
    ensures Weight(Split(s)) == |s| + 1
    decreases |s|
  {
    var i := Slash(s);
    if i < |s| {
      SplitWeight(s[i + 1..]);
      assert Split(s)[1..] == Split(s[i + 1..]);
    } else {
      assert [s][1..] == [];
    }
  }

  /** A spelling without its first slash is split into the names again. */
  lemma {:induction false} ValidWeight(pieces: seq<string>)
    requires AllValid(pieces)
    ensures Names(pieces) == pieces && |Spell(pieces)| == Weight(pieces)
  {
    if pieces != [] {
      AllValidStep(pieces);
      ValidWeight(pieces[1..]);
      assert pieces == [pieces[0]] + pieces[1..];
    }
  }

  /** The text to split fills its buffer and is a canonical spelling without the first slash, so
      that the output is one character longer than the text that a second call reads. */
  predicate Overlong(path: string, cwd: string) {
    |Source(path, cwd)| == PATH_MAX - 1 && AllValid(Split(Source(path, cwd)))
  }

  lemma OutputLength(path: string, cwd: string, n: nat)
    requires Canonical(path, cwd, n).Some?
    ensures |Render(Canonical(path, cwd, n).value)| >= PATH_MAX <==> Overlong(path, cwd)
  {
    var s := Source(path, cwd);
    SplitWeight(s);
    SplitNoSlash(s);
    FoldWeight(Split(s), []);
    if Overlong(path, cwd) {
      ValidWeight(Split(s));
      var cs := Split(s);
      if |cs| <= MAX_COMPONENTS {
        FoldPushes(cs, []);
        assert [] + cs == cs;
      } else {
        FoldTooMany(cs, []);
      }
    }
  }

  lemma {:induction false} FoldTooMany(cs: Path, stack: Path)
    requires AllValid(cs) && |stack| <= MAX_COMPONENTS < |stack| + |cs|
    ensures Fold(cs, stack).None?
  {
    AllValidStep(cs);
    if |stack| < MAX_COMPONENTS {
      FoldTooMany(cs[1..], stack + [cs[0]]);
    }
  }

  /** Normalizing twice is normalizing once, whatever the directory of the second call, except
      exactly for overlong texts. */
  lemma NormalizeIdempotent(path: string, cwd: string, cwd': string, n: nat)
    requires Canonical(path, cwd, n).Some?
    ensures Canonical(Render(Canonical(path, cwd, n).value), cwd', n) == Canonical(path, cwd, n) <==> !Overlong(path, cwd)
  {
    CanonicalValid(path, cwd, n);
    OutputLength(path, cwd, n);
    var cs := Canonical(path, cwd, n).value;
    if |Render(cs)| < PATH_MAX {
      CanonicalFixed(cs, cwd', n);
    } else {
      var s := Source(Render(cs), cwd');
      assert s[0] == Render(cs)[0] == '/' && |s| == PATH_MAX - 1;
      SplitWeight(s);
      SplitNoSlash(s);
      FoldWeight(Split(s), []);
      EmptyPiece(s);
    }
  }

  lemma EmptyPiece(s: string)
    requires s != "" && s[0] == '/'
    ensures !AllValid(Split(s))
  {
    SplitAt(s, 0);
    assert Split(s)[0] == "" && !ValidName(Split(s)[0]);
  }

  /** No text is overlong for a call with the kernel's buffer size, nor with an absolute path, nor
      in an absolute directory or none. */
  lemma NeverOverlong(path: string, cwd: string, n: nat)
    requires Canonical(path, cwd, n).Some?
    requires n <= PATH_MAX || (path != "" && path[0] == '/') || cwd == "" || cwd[0] == '/'
    ensures !Overlong(path, cwd)
  {
    OutputLength(path, cwd, n);
    var s := Source(path, cwd);
    if n > PATH_MAX {
      EmptyPiece(s);
    }
  }

  /** A call that is not idempotent: four names of a directory spelled without its slash, one in it,
      and a buffer of 257 bytes. */
  lemma OverlongCall()
    ensures var cwd := Letters(63) + "/" + Letters(63) + "/" + Letters(63) + "/" + Letters(61);
      var cs := [Letters(63), Letters(63), Letters(63), Letters(61), "b"];
      Canonical("b", cwd, 257) == Some(cs) && Canonical(Render(cs), cwd, 257) != Some(cs)
  {
    FullText(Letters(63), Letters(61));
  }

  lemma FullText(c: string, d: string)
    requires ValidName(c) && ValidName(d) && |c| == 63 && |d| == 61
    ensures var cwd := c + "/" + c + "/" + c + "/" + d;
      var cs := [c, c, c, d, "b"];
      Canonical("b", cwd, 257) == Some(cs) && Canonical(Render(cs), cwd, 257) != Some(cs)
  {
    hide Split, ValidName, Spell, Fold, Names;
    var cwd := c + "/" + c + "/" + c + "/" + d;
    var cs := [c, c, c, d, "b"];
    var s := cwd + "/" + "b";
    assert cwd[0] != '/' && Source("b", cwd) == s by { FirstOfName(c); }
    FivePieces(c, d, s);
    assert AllValid(cs) && ValidPath(cs) by { ShortName(); }
    ValidWeight(cs);
    SplitWeight(s);
    FoldPushes(cs, []);
    assert [] + cs == cs;
    NormalizeIdempotent("b", cwd, cwd, 257);
  }

  lemma ShortName()
    ensures ValidName("b")
  {
  }

  lemma FirstOfName(c: string)
    requires ValidName(c)
    ensures c != "" && c[0] != '/'
  {
    assert c[0] in c;
  }

  lemma FivePieces(c: string, d: string, s: string)
    requires ValidName(c) && ValidName(d) && s == c + "/" + c + "/" + c + "/" + d + "/" + "b"
    ensures Split(s) == [c, c, c, d, "b"]
  {
    hide Split;
    assert s == c + "/" + (c + "/" + (c + "/" + (d + "/" + "b")));
    SplitPiece(d, "b");
    SplitPiece(c, d + "/" + "b");
    SplitPiece(c, c + "/" + (d + "/" + "b"));
    SplitPiece(c, c + "/" + (c + "/" + (d + "/" + "b")));
    SplitNone("b");
    assert [c] + ([c] + ([c] + ([d] + ["b"]))) == [c, c, c, d, "b"];
  }

  function Letters(n: nat): (r: string)
    ensures |r| == n && '/' !in r && (n > 0 ==> r[0] == 'a')
  {
    seq(n, _ => 'a')
  }

  lemma SplitPiece(c: string, rest: string)
    requires '/' !in c
    ensures Split(c + "/" + rest) == [c] + Split(rest)
  {
    SplitConcat(c, rest);
    SplitNone(c);
  }

  /** What one more piece of a path does: nothing and a dot stay where they are, two dots go up but not
      beyond the root, and a name goes down, cut to 63 characters and to at most 32 levels. */
  function Step(at: Path, piece: string): Option<Path> {
    if piece == "" || piece == "." then Some(at)
    else if piece == ".." then Some(if at == [] then [] else at[..|at| - 1])
    else if |at| == 32 then None
    else Some(at + [if |piece| > 63 then piece[..63] else piece])
  }

  lemma OneComponent(piece: string)
    requires '/' !in piece
    ensures Components(piece) == if piece == "" then [] else [Clip(piece, 63)]
  {
    SplitNone(piece);
    NamesCons(piece, []);
    NoNames();
    assert [piece] + [] == [piece];
  }

  lemma {:induction false} FoldLevels(cs: seq<string>, stack: Path)
    requires |stack| <= 32
    ensures Fold(cs, stack).Some? ==> |Fold(cs, stack).value| <= 32
  {
    if cs != [] {
      if cs[0] == "." {
        FoldLevels(cs[1..], stack);
      } else if cs[0] == ".." {
        FoldLevels(cs[1..], if stack == [] then [] else stack[..|stack| - 1]);
      } else if |stack| < 32 {
        FoldLevels(cs[1..], stack + [cs[0]]);
      }
    }
  }

  lemma FoldOne(c: string, stack: Path)
    requires |stack| <= 32 && 0 < |c| <= 63
    ensures Fold([c], stack) == Step(stack, c)
  {
    FoldCons(c, [], stack);
    assert [c] + [] == [c];
  }

  /** Reading a path piece by piece is walking it step by step. */
  lemma NextPiece(a: string, piece: string)
    requires '/' !in piece
    ensures Fold(Components(a + "/" + piece), []) ==
      match Fold(Components(a), []) { case None => None case Some(at) => Step(at, piece) }
  {
    hide Components, Fold;
    ComponentsConcat(a, piece);
    FoldConcat(Components(a), Components(piece), []);
    OneComponent(piece);
    FoldLevels(Components(a), []);
    var r := Fold(Components(a), []);
    if r.Some? {
      if piece == "" {
        FoldNil(r.value);
      } else {
        FoldOne(Clip(piece, 63), r.value);
      }
    }
  }

  /** The walk starts at the root, for an absolute path and for one without a directory. */
  lemma FromRoot(path: string)
    requires |path| < 254
    ensures Stack(path, "") == Fold(Components(path), []) && Fold(Components(""), []) == Some([])
  {
    hide Components, Fold;
    ComponentsEmpty();
    FoldNil([]);
    if path == "" || path[0] != '/' {
      ComponentsConcat("/", path);
      ComponentsConcat("", "");
      assert "" + "/" + "" == "/";
      assert Components("/") + Components(path) == Components(path);
    }
  }

  /** Whether an output fits is whether it and its terminator are within the buffer, except that a
      single name is refused when it would fit exactly. */
  lemma FitsExactly(cs: Path, n: nat)
    requires ValidPath(cs) && n >= 2
    ensures Fits(cs, n) <==> |Render(cs)| + 1 <= n && !(|cs| == 1 && n == |cs[0]| + 2)
  {
    if |cs| == 1 {
      assert cs[1..] == [];
    } else if |cs| > 1 {
      var rest := cs[1..];
      assert rest[0] == cs[1] && ValidName(cs[1]);
      assert |Spell(rest)| == 1 + |rest[0]| + |Spell(rest[1..])|;
    }
  }

  /** Three bytes would hold "/a" and its terminator; the call asks for four. */
  lemma RefusedThoughFitting()
    ensures Canonical("/a", "", 3) == None && |Render(["a"])| + 1 == 3 && Canonical("/a", "", 4) == Some(["a"])
  {
    assert Source("/a", "") == "/a" == Render(["a"]);
    ComponentsOfRender(["a"]);
    FoldPushes(["a"], []);
    assert [] + ["a"] == ["a"];
  }
}
