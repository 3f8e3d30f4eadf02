/** What the operations on the path map mean, path by path. */
module VfsLaws {
  import opened Bytes
  import opened Wrappers
  import opened Paths
  import opened VfsTree
  import opened Vfs
  import opened VfsData

  /** A directory that the path could be put into. */
  ghost predicate HasParent(fs: Fs, cs: Option<Path>) {
    exists above: Path, name: string :: cs == Some(above + [name]) && above in fs.look && fs.look[above].kind == Dir
  }

  lemma ParentIs(fs: Fs, cs: Option<Path>)
    ensures ParentOk(fs, cs) <==> HasParent(fs, cs)
  {
    if ParentOk(fs, cs) {
      InitLast(cs.value);
    }
    forall above: Path, name: string | cs == Some(above + [name]) ensures cs.value != [] && Init(cs.value) == above {
    }
  }

  /** Which error code a creation gives, and when it succeeds. */
  lemma MakeCodes(fs: Fs, cs: Option<Path>)
    ensures MakeCode(fs, cs) == -1 <==> !HasParent(fs, cs)
    ensures MakeCode(fs, cs) == -2 <==> HasParent(fs, cs) && cs.value in fs.look
    ensures MakeCode(fs, cs) == -3 <==> HasParent(fs, cs) && cs.value !in fs.look && fs.count >= 1024
    ensures MakeCode(fs, cs) == 0 <==> HasParent(fs, cs) && cs.value !in fs.look && fs.count < 1024
  {
    ParentIs(fs, cs);
  }

  /** A creation adds its path, with the attributes asked for and a time later than all before, and
      leaves all other paths, the directory above included, as they were. */
  lemma Made(fs: Fs, cs: Path, kind: Kind, mode: nat, uid: nat, gid: nat, q: Path)
    requires MakeCode(fs, Some(cs)) == 0
    ensures var fs' := MakeSpec(fs, Some(cs), kind, mode, uid, gid);
      && fs'.count == fs.count + 1 && fs'.clock > fs.clock
      && (q in fs'.look <==> q in fs.look || q == cs)
      && (q in fs'.look && q != cs ==> fs'.look[q] == fs.look[q])
      && var i := fs'.look[cs];
      && i.kind == kind && i.mode == mode && i.uid == uid && i.gid == gid && i.bytes == []
      && i.created == i.modified == fs'.clock
  {
  }

  /** Removing a path: which error code, and what is left. */
  lemma Unlinked(fs: Fs, cs: Option<Path>, q: Path)
    ensures UnlinkCode(fs, cs) == 0 <==> HasParent(fs, cs) && cs.value in fs.look && forall name: string :: cs.value + [name] !in fs.look
    ensures UnlinkCode(fs, cs) == -2 <==> HasParent(fs, cs) && cs.value in fs.look && exists name: string :: cs.value + [name] in fs.look
    ensures UnlinkCode(fs, cs) in {0, -1, -2}
    ensures UnlinkCode(fs, cs) == 0 ==>
      var fs' := UnlinkSpec(fs, cs);
      && fs'.count == fs.count && fs'.clock > fs.clock
      && (q in fs'.look <==> q in fs.look && q != cs.value)
      && (q in fs'.look ==>
        && fs'.look[q] == fs.look[q].(modified := fs'.look[q].modified)
        && fs'.look[q].modified == if exists name: string :: cs.value == q + [name] then fs'.clock else fs.look[q].modified)
  {
    ParentIs(fs, cs);
    if UnlinkCode(fs, cs) == 0 {
      InitLast(cs.value);
      forall name: string | cs.value == q + [name] ensures q == Init(cs.value) {
      }
    }
  }

  /** Creating a path and removing it again leaves the paths there were; only the directory above
      shows that something happened. */
  lemma MakeThenUnlink(fs: Fs, cs: Path, kind: Kind, mode: nat, uid: nat, gid: nat, q: Path)
    requires WellFormed(fs) && MakeCode(fs, Some(cs)) == 0
    ensures var made := MakeSpec(fs, Some(cs), kind, mode, uid, gid);
      && UnlinkCode(made, Some(cs)) == 0
      && var fs' := UnlinkSpec(made, Some(cs));
      && (q in fs'.look <==> q in fs.look)
      && (q in fs.look ==> fs'.look[q] == fs.look[q].(modified := fs'.look[q].modified))
      && (q in fs.look && cs[..|cs| - 1] != q ==> fs'.look[q] == fs.look[q])
  {
    hide MakeCode, UnlinkSpec, MakeSpec, HasParent;
    MakeCodes(fs, Some(cs));
    var made := MakeSpec(fs, Some(cs), kind, mode, uid, gid);
    forall name: string ensures cs + [name] !in made.look {
      Made(fs, cs, kind, mode, uid, gid, cs + [name]);
      assert Init(cs + [name]) == cs;
    }
    ParentIs(fs, Some(cs));
    Made(fs, cs, kind, mode, uid, gid, cs);
    Made(fs, cs, kind, mode, uid, gid, Init(cs));
    Made(fs, cs, kind, mode, uid, gid, q);
    ParentIs(made, Some(cs));
    Unlinked(made, Some(cs), q);
    forall name: string | cs == q + [name] ensures q == cs[..|cs| - 1] {
    }
  }

  /** Whole contents written: which error code, and what each path holds afterwards. */
  lemma Written(fs: Fs, cs: Option<Path>, data: seq<byte>, memory: bool, q: Path)
    ensures var found := cs.Some? && cs.value in fs.look;
      && (WriteCode(fs, cs, data, memory) == 0 <==>
        && (if found then fs.look[cs.value].kind in {File, Proc} else MakeCode(fs, cs) == 0)
        && (data == [] || memory))
      && var fs' := WriteSpec(fs, cs, data, memory);
      && (q in fs.look ==> q in fs'.look)
      && (q in fs.look && Some(q) != cs ==> fs'.look[q] == fs.look[q])
      && (q in fs'.look && Some(q) != cs ==> q in fs.look)
      && (WriteCode(fs, cs, data, memory) == 0 ==>
        && cs.value in fs'.look && fs'.look[cs.value].bytes == data && fs'.look[cs.value].modified == fs'.clock > fs.clock
        && (found ==> fs'.look[cs.value] == fs.look[cs.value].(bytes := data, modified := fs'.clock))
        && (!found ==> var i := fs'.look[cs.value];
          i.kind == File && i.mode == 0x8000 + 6 * 64 + 4 * 8 + 4 && i.uid == 0 && i.gid == 0))
      && (WriteCode(fs, cs, data, memory) != 0 && found ==> fs' == fs)
      && (WriteCode(fs, cs, data, memory) != 0 && !found && MakeCode(fs, cs) == 0 ==>
        cs.value in fs'.look && fs'.look[cs.value].bytes == [])
  {
  }
}
