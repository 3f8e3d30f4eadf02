/** What vfs_init leaves: the root, its ten directories, and nothing else. */
module VfsInit {
  import opened Wrappers
  import opened Paths
  import opened VfsTree
  import opened Vfs
  import opened VfsData

  const FIRST_LETTERS: string := "bsedphrtuv"

  function InitName(j: nat): string
    requires j < |INIT_DIRS|
  {
    INIT_DIRS[j].0[1..]
  }

  lemma InitNameValid(j: nat)
    requires j < |INIT_DIRS|
    ensures ValidName(InitName(j)) && InitName(j)[0] == FIRST_LETTERS[j]
    ensures Canonical(INIT_DIRS[j].0, "/", PATH_MAX) == Some([InitName(j)])
  {
    var name := InitName(j);
    assert INIT_DIRS[j].0 == "/" + name && 0 < |name| <= 4 && name[0] == FIRST_LETTERS[j];
    assert '/' !in name;
    var cs: Path := [name];
    assert |cs[1..]| == 0;
    assert Spell(cs) == INIT_DIRS[j].0;
    CanonicalFixed(cs, "/", PATH_MAX);
  }

  /** One of the root and the first `k` directories of vfs_init. */
  predicate InitPath(k: nat, q: Path)
    requires k <= |INIT_DIRS|
  {
    q == [] || (|q| == 1 && exists j :: 0 <= j < k && q[0] == InitName(j))
  }

  /** After `k` of vfs_init's directories: the root and those directories, and nothing else. */
  lemma {:induction false} InitFacts(k: nat)
    requires k <= |INIT_DIRS|
    ensures InitSpec(k).count == k + 1
    ensures forall q :: q in InitSpec(k).look <==> InitPath(k, q)
    ensures forall q :: q in InitSpec(k).look ==> InitSpec(k).look[q].kind == Dir
  {
    hide InitSpec, InitPath, InitName, MakeSpec, Canonical;
    if k == 0 {
      RootFirst();
    } else {
      InitFacts(k - 1);
      InitNext(k - 1);
      NewName(k - 1);
      InitStep(InitSpec(k - 1), k - 1);
    }
  }

  lemma RootFirst()
    ensures InitSpec(0).count == 1
    ensures forall q :: q in InitSpec(0).look <==> InitPath(0, q)
    ensures forall q :: q in InitSpec(0).look ==> InitSpec(0).look[q].kind == Dir
  {
  }

  lemma InitNext(k: nat)
    requires k < |INIT_DIRS|
    ensures InitSpec(k + 1) == MakeSpec(InitSpec(k), Some([InitName(k)]), Dir, INIT_DIRS[k].1, 0, 0)
  {
    hide InitName, MakeSpec, Canonical;
    InitNameValid(k);
  }

  /** One more directory under the root. */
  lemma InitStep(fs: Fs, k: nat)
    requires k < |INIT_DIRS| && fs.count == k + 1 && !InitPath(k, [InitName(k)])
    requires forall q :: q in fs.look <==> InitPath(k, q)
    requires forall q :: q in fs.look ==> fs.look[q].kind == Dir
    ensures var fs' := MakeSpec(fs, Some([InitName(k)]), Dir, INIT_DIRS[k].1, 0, 0);
      && fs'.count == k + 2
      && (forall q :: q in fs'.look <==> InitPath(k + 1, q))
      && (forall q :: q in fs'.look ==> fs'.look[q].kind == Dir)
  {
    var cs := [InitName(k)];
    assert InitPath(k, []);
    assert Init(cs) == [];
    assert |INIT_DIRS| == 10;
    hide InitName;
    MakeDone(fs, cs, Dir, INIT_DIRS[k].1, 0, 0);
    forall q ensures InitPath(k + 1, q) <==> InitPath(k, q) || q == cs {
      InitPathNext(k, q);
    }
  }

  lemma InitPathNext(k: nat, q: Path)
    requires k < |INIT_DIRS|
    ensures InitPath(k + 1, q) <==> InitPath(k, q) || q == [InitName(k)]
  {
    hide InitName;
    if |q| == 1 { assert q == [q[0]]; }
  }

  lemma NewName(k: nat)
    requires k < |INIT_DIRS|
    ensures !InitPath(k, [InitName(k)])
  {
    forall j | 0 <= j < k ensures InitName(j) != InitName(k) {
      InitNameValid(j);
      InitNameValid(k);
      LettersDiffer(j, k);
    }
  }

  lemma LettersDiffer(i: nat, j: nat)
    requires i < j < |FIRST_LETTERS|
    ensures FIRST_LETTERS[i] != FIRST_LETTERS[j]
  {
  }
}
