/** The in-memory file system (kernel/fs/vfs.c): path operations over the node pool, each proved to
    act on a finite map from paths to file information exactly as its specification says. */
module Vfs {
  import opened Basics
  import opened Bytes
  import opened Wrappers
  import opened Paths
  import opened VfsTree

  const MAX_NODES: nat := 1024

  // ---------------------------------------------------------------- the abstract file system

  /** What a path stands for. `created` never repeats, so it identifies the node. */
  datatype Info = Info(kind: Kind, mode: nat, uid: nat, gid: nat, created: nat, modified: nat, bytes: seq<byte>)

  /** The tree as a map from paths; `count` is how many nodes the pool has handed out. */
  datatype Fs = Fs(look: imap<Path, Info>, count: nat, clock: nat)

  function Init(cs: Path): Path
    requires cs != []
  {
    cs[..|cs| - 1]
  }

  lemma InitLast(cs: Path)
    requires cs != []
    ensures cs == Init(cs) + [cs[|cs| - 1]]
  {
  }

  lemma InitIs(cs: Path, name: string)
    requires cs != [] && cs[|cs| - 1] == name
    ensures cs == Init(cs) + [name]
  {
  }

  /** Prefix-closed, rooted, directories above everything, valid names only. */
  ghost predicate WellFormed(fs: Fs) {
    && [] in fs.look && fs.look[[]].kind == Dir
    && (forall q :: q in fs.look && q != [] ==>
      Init(q) in fs.look && fs.look[Init(q)].kind == Dir && ValidName(q[|q| - 1]))
  }

  ghost predicate ParentOk(fs: Fs, cs: Option<Path>) {
    cs.Some? && cs.value != [] && Init(cs.value) in fs.look && fs.look[Init(cs.value)].kind == Dir
  }

  /** The error code that the checks before an allocation give. */
  ghost function SlotCode(fs: Fs, cs: Option<Path>): int {
    if !ParentOk(fs, cs) then -1 else if cs.value in fs.look then -2 else 0
  }

  /** Return code of vfs_mkdir and vfs_create_file. */
  ghost function MakeCode(fs: Fs, cs: Option<Path>): int {
    if SlotCode(fs, cs) < 0 then SlotCode(fs, cs) else if fs.count >= MAX_NODES then -3 else 0
  }

  /** vfs_mkdir and vfs_create_file: one new path, or nothing. */
  ghost function MakeSpec(fs: Fs, cs: Option<Path>, kind: Kind, mode: nat, uid: nat, gid: nat): Fs {
    if MakeCode(fs, cs) < 0 then fs
    else
      var now := fs.clock + 1;
      Fs(fs.look[cs.value := Info(kind, mode, uid, gid, now, now, [])], fs.count + 1, now)
  }

  lemma MakeCases(fs: Fs, cs: Option<Path>, kind: Kind, mode: nat, uid: nat, gid: nat)
    ensures MakeCode(fs, cs) == if SlotCode(fs, cs) < 0 then SlotCode(fs, cs) else if fs.count >= MAX_NODES then -3 else 0
    ensures MakeCode(fs, cs) < 0 ==> MakeSpec(fs, cs, kind, mode, uid, gid) == fs
    ensures SlotCode(fs, cs) <= 0 && MakeCode(fs, cs) <= 0 && (SlotCode(fs, cs) == 0 ==> cs.Some?)
  {
  }

  lemma MakeDone(fs: Fs, cs: Path, kind: Kind, mode: nat, uid: nat, gid: nat)
    requires MakeCode(fs, Some(cs)) == 0
    ensures MakeSpec(fs, Some(cs), kind, mode, uid, gid) ==
      Fs(fs.look[cs := Info(kind, mode, uid, gid, fs.clock + 1, fs.clock + 1, [])], fs.count + 1, fs.clock + 1)
  {
  }

  ghost predicate HasChild(fs: Fs, cs: Path) {
    exists name: string :: cs + [name] in fs.look
  }

  /** Return code of vfs_unlink. */
  ghost function UnlinkCode(fs: Fs, cs: Option<Path>): int {
    if !ParentOk(fs, cs) || cs.value !in fs.look then -1 else if HasChild(fs, cs.value) then -2 else 0
  }

  /** vfs_unlink: one childless path disappears and its parent is touched, or nothing happens. */
  ghost function UnlinkSpec(fs: Fs, cs: Option<Path>): Fs {
    if UnlinkCode(fs, cs) < 0 then fs
    else
      var now := fs.clock + 1;
      var rest := imap q | q in fs.look && q != cs.value :: fs.look[q];
      Fs(rest[Init(cs.value) := fs.look[Init(cs.value)].(modified := now)], fs.count, now)
  }

  lemma UnlinkCases(fs: Fs, cs: Option<Path>)
    ensures !ParentOk(fs, cs) ==> UnlinkCode(fs, cs) == -1 && UnlinkSpec(fs, cs) == fs
    ensures ParentOk(fs, cs) ==>
      && cs.Some? && cs.value != []
      && UnlinkCode(fs, cs) == (if cs.value !in fs.look then -1 else if HasChild(fs, cs.value) then -2 else 0)
      && (UnlinkCode(fs, cs) < 0 ==> UnlinkSpec(fs, cs) == fs)
      && (UnlinkCode(fs, cs) == 0 ==>
        && Init(cs.value) in fs.look
        && UnlinkSpec(fs, cs) ==
           var rest := imap q | q in fs.look && q != cs.value :: fs.look[q];
           Fs(rest[Init(cs.value) := fs.look[Init(cs.value)].(modified := fs.clock + 1)], fs.count, fs.clock + 1))
  {
  }

  // ---------------------------------------------------------------- from the pool to the map

  function BytesOf(n: Node, store: map<nat, seq<byte>>): seq<byte> {
    if n.size == 0 || n.data.NoData? then []
    else if n.data.buffer in store && n.data.at + n.size <= |store[n.data.buffer]|
    then store[n.data.buffer][n.data.at..n.data.at + n.size]
    else []
  }

  function InfoOf(n: Node, store: map<nat, seq<byte>>): Info {
    Info(n.kind, n.mode, n.uid, n.gid, n.created, n.modified, BytesOf(n, store))
  }

  lemma FreshInfo(n: Node, store: map<nat, seq<byte>>)
    requires n.size == 0
    ensures InfoOf(n, store) == Info(n.kind, n.mode, n.uid, n.gid, n.created, n.modified, [])
  {
  }

  ghost function LookOf(ns: Nodes, kids: Kids, store: map<nat, seq<byte>>, q: Path): Option<Info>
    requires Tree(ns, kids)
  {
    match Resolve(ns, kids, q) case None => None case Some(v) => Some(InfoOf(ns[v], store))
  }

  ghost function ViewOf(ns: Nodes, kids: Kids, store: map<nat, seq<byte>>, clock: nat): Fs
    requires Tree(ns, kids)
  {
    Fs(imap q | LookOf(ns, kids, store, q).Some? :: LookOf(ns, kids, store, q).value, |ns|, clock)
  }

  lemma ViewWellFormed(ns: Nodes, kids: Kids, store: map<nat, seq<byte>>, clock: nat)
    requires Tree(ns, kids)
    ensures WellFormed(ViewOf(ns, kids, store, clock))
  {
    hide ValidName;
    var fs := ViewOf(ns, kids, store, clock);
    assert LookOf(ns, kids, store, []).Some?;
    forall q | q in fs.look && q != []
      ensures Init(q) in fs.look && fs.look[Init(q)].kind == Dir && ValidName(q[|q| - 1]) {
      assert LookOf(ns, kids, store, q).Some?;
      ResolveParent(ns, kids, q);
      assert LookOf(ns, kids, store, Init(q)).Some?;
    }
  }

  ghost function LookAt(fs: Fs, q: Path): Option<Info> {
    if q in fs.look then Some(fs.look[q]) else None
  }

  lemma ViewParts(ns: Nodes, kids: Kids, store: map<nat, seq<byte>>, clock: nat)
    requires Tree(ns, kids)
    ensures ViewOf(ns, kids, store, clock).count == |ns| && ViewOf(ns, kids, store, clock).clock == clock
  {
  }

  lemma LookAtIs(ns: Nodes, kids: Kids, store: map<nat, seq<byte>>, clock: nat, q: Path)
    requires Tree(ns, kids)
    ensures LookAt(ViewOf(ns, kids, store, clock), q) == LookOf(ns, kids, store, q)
  {
    hide Tree, Resolve, LookOf;
  }

  lemma LookAtNode(ns: Nodes, kids: Kids, store: map<nat, seq<byte>>, clock: nat, q: Path)
    requires Tree(ns, kids)
    ensures var fs := ViewOf(ns, kids, store, clock);
      && (q in fs.look <==> Resolve(ns, kids, q).Some?)
      && (q in fs.look ==>
        && fs.look[q] == InfoOf(ns[Resolve(ns, kids, q).value], store)
        && fs.look[q].kind == ns[Resolve(ns, kids, q).value].kind)
  {
    hide Tree, Resolve;
  }

  lemma ResolveRoot(ns: Nodes, kids: Kids)
    requires Tree(ns, kids)
    ensures Resolve(ns, kids, []) == Some(0)
  {
  }

  lemma LookExtends(fs: Fs, fs': Fs, path: Path, info: Info)
    requires forall q :: LookAt(fs', q) == if q == path then Some(info) else LookAt(fs, q)
    ensures fs'.look == fs.look[path := info]
  {
    forall q ensures q in fs'.look <==> q in fs.look[path := info]
      ensures q in fs'.look ==> fs'.look[q] == fs.look[path := info][q] {
      assert LookAt(fs', q) == if q == path then Some(info) else LookAt(fs, q);
    }
  }

  lemma LookShrinks(fs: Fs, fs': Fs, path: Path)
    requires forall q :: LookAt(fs', q) == if q == path then None else LookAt(fs, q)
    ensures fs'.look == imap q | q in fs.look && q != path :: fs.look[q]
  {
    forall q ensures q in fs'.look <==> q in fs.look && q != path
      ensures q in fs'.look ==> fs'.look[q] == fs.look[q] {
      assert LookAt(fs', q) == if q == path then None else LookAt(fs, q);
    }
  }

  lemma AttachView(ns: Nodes, kids: Kids, store: map<nat, seq<byte>>, clock: nat, p: nat, node: Node, dir: Path, cs: Path)
    requires Tree(ns, kids) && Resolve(ns, kids, dir) == Some(p)
    requires Tree(Attached(ns, p, node), AttachedKids(ns, kids, p))
    requires cs == dir + [node.name] && Resolve(ns, kids, cs) == None
    ensures ViewOf(Attached(ns, p, node), AttachedKids(ns, kids, p), store, clock + 1) ==
      Fs(ViewOf(ns, kids, store, clock).look[cs := InfoOf(node, store)], |ns| + 1, clock + 1)
  {
    var ns', kids' := Attached(ns, p, node), AttachedKids(ns, kids, p);
    assert |ns'| == |ns| + 1;
    var fs, fs' := ViewOf(ns, kids, store, clock), ViewOf(ns', kids', store, clock + 1);
    hide *;
    ViewParts(ns, kids, store, clock);
    ViewParts(ns', kids', store, clock + 1);
    forall q ensures LookAt(fs', q) == if q == cs then Some(InfoOf(node, store)) else LookAt(fs, q) {
      AttachLook(ns, kids, store, p, node, dir, q);
      LookAtIs(ns, kids, store, clock, q);
      LookAtIs(ns', kids', store, clock + 1, q);
    }
    LookExtends(fs, fs', cs, InfoOf(node, store));
  }

  lemma AttachLook(ns: Nodes, kids: Kids, store: map<nat, seq<byte>>, p: nat, node: Node, dir: Path, q: Path)
    requires Tree(ns, kids) && Resolve(ns, kids, dir) == Some(p)
    requires Tree(Attached(ns, p, node), AttachedKids(ns, kids, p))
    requires Resolve(ns, kids, dir + [node.name]) == None
    ensures LookOf(Attached(ns, p, node), AttachedKids(ns, kids, p), store, q) ==
      if q == dir + [node.name] then Some(InfoOf(node, store)) else LookOf(ns, kids, store, q)
  {
    assert |ns| == |kids|;
    hide Resolve, Tree;
    AttachResolve(ns, kids, p, node, dir, q);
  }

  /** Two pools with the same names, kinds and links: they differ at most in modes, times and data. */
  predicate SameLinks(ns: Nodes, ns': Nodes) {
    |ns| == |ns'| && forall i :: 0 <= i < |ns| ==>
      && ns'[i].name == ns[i].name && ns'[i].kind == ns[i].kind && ns'[i].parent == ns[i].parent
      && ns'[i].firstChild == ns[i].firstChild && ns'[i].nextSibling == ns[i].nextSibling
  }

  lemma SameLinksTree(ns: Nodes, ns': Nodes, kids: Kids)
    requires Tree(ns, kids) && SameLinks(ns, ns')
    ensures Tree(ns', kids)
  {
    hide ValidName;
    forall p | 0 <= p < |ns'| ensures FamilyAt(ns', kids, p) {
      assert FamilyAt(ns, kids, p);
      FamilyFrame(ns, ns', kids, kids, p);
    }
  }

  lemma {:induction false} SameLinksResolve(ns: Nodes, ns': Nodes, kids: Kids, q: Path)
    requires Tree(ns, kids) && Tree(ns', kids) && SameLinks(ns, ns')
    ensures Resolve(ns', kids, q) == Resolve(ns, kids, q)
  {
    if q != [] {
      SameLinksResolve(ns, ns', kids, q[..|q| - 1]);
      match Resolve(ns, kids, q[..|q| - 1])
      case None =>
      case Some(p) =>
        assert FamilyAt(ns, kids, p) && FamilyAt(ns', kids, p);
        hide FamilyAt, Tree;
        FindSame(ns, ns', kids[p], q[|q| - 1]);
    }
  }

  lemma ChildlessView(ns: Nodes, kids: Kids, store: map<nat, seq<byte>>, clock: nat, cs: Path)
    requires Tree(ns, kids) && Resolve(ns, kids, cs).Some?
    ensures HasChild(ViewOf(ns, kids, store, clock), cs) <==> ns[Resolve(ns, kids, cs).value].firstChild != NULL
    ensures HasChild(ViewOf(ns, kids, store, clock), cs) <==> kids[Resolve(ns, kids, cs).value] != []
  {
    hide ValidName;
    var fs := ViewOf(ns, kids, store, clock);
    var c := Resolve(ns, kids, cs).value;
    assert FamilyAt(ns, kids, c);
    forall name: string ensures cs + [name] in fs.look <==> Find(ns, kids[c], name).Some? {
      ResolveSnoc(ns, kids, cs, name);
    }
    if kids[c] != [] {
      FindIs(ns, c, kids[c], 0);
      assert cs + [ns[kids[c][0]].name] in fs.look;
    }
  }

  lemma BypassInfo(ns: Nodes, kids: Kids, store: map<nat, seq<byte>>, p: nat, k: nat, i: nat)
    requires p < |ns| == |kids| && k < |kids[p]| && FamilyAt(ns, kids, p) && i < |ns|
    ensures InfoOf(Bypassed(ns, kids, p, k)[i], store) == InfoOf(ns[i], store)
  {
    hide Bypassed, FamilyAt, InfoOf;
    BypassedNode(ns, kids, p, k, i);
    LinksAside(ns[i], Bypassed(ns, kids, p, k)[i], store);
  }

  lemma BypassedNode(ns: Nodes, kids: Kids, p: nat, k: nat, i: nat)
    requires p < |ns| == |kids| && k < |kids[p]| && FamilyAt(ns, kids, p) && i < |ns|
    ensures var b := Bypassed(ns, kids, p, k)[i]; b == ns[i].(firstChild := b.firstChild, nextSibling := b.nextSibling)
  {
    hide ValidName;
  }

  lemma LinksAside(n: Node, n': Node, store: map<nat, seq<byte>>)
    requires n' == n.(firstChild := n'.firstChild, nextSibling := n'.nextSibling)
    ensures InfoOf(n', store) == InfoOf(n, store)
  {
  }

  lemma BypassLook(ns: Nodes, kids: Kids, store: map<nat, seq<byte>>, p: nat, k: nat, dir: Path, q: Path)
    requires Tree(ns, kids) && Resolve(ns, kids, dir) == Some(p) && FamilyAt(ns, kids, p) && k < |kids[p]|
    requires kids[p][k] < |ns| && kids[kids[p][k]] == []
    requires Tree(Bypassed(ns, kids, p, k), BypassedKids(kids, p, k))
    ensures LookOf(Bypassed(ns, kids, p, k), BypassedKids(kids, p, k), store, q) ==
      if q == dir + [ns[kids[p][k]].name] then None else LookOf(ns, kids, store, q)
  {
    assert |ns| == |kids|;
    hide Tree, Resolve, Bypassed, BypassedKids, FamilyAt, InfoOf;
    BypassResolve(ns, kids, p, k, dir, q);
    match Resolve(ns, kids, q)
    case None =>
    case Some(v) => BypassInfo(ns, kids, store, p, k, v);
  }

  lemma BypassView(ns: Nodes, kids: Kids, store: map<nat, seq<byte>>, clock: nat, p: nat, k: nat, dir: Path)
    requires Tree(ns, kids) && Resolve(ns, kids, dir) == Some(p) && FamilyAt(ns, kids, p) && k < |kids[p]|
    requires kids[p][k] < |ns| && kids[kids[p][k]] == []
    requires Tree(Bypassed(ns, kids, p, k), BypassedKids(kids, p, k))
    ensures var fs := ViewOf(ns, kids, store, clock);
      var gone := dir + [ns[kids[p][k]].name];
      ViewOf(Bypassed(ns, kids, p, k), BypassedKids(kids, p, k), store, clock) ==
        fs.(look := imap q | q in fs.look && q != gone :: fs.look[q])
  {
    assert |ns| == |kids| && p < |ns|;
    var ns', kids' := Bypassed(ns, kids, p, k), BypassedKids(kids, p, k);
    var fs, fs' := ViewOf(ns, kids, store, clock), ViewOf(ns', kids', store, clock);
    ViewParts(ns, kids, store, clock);
    ViewParts(ns', kids', store, clock);
    hide Tree, Resolve, Bypassed, BypassedKids, FamilyAt, LookOf, ViewOf;
    var gone := dir + [ns[kids[p][k]].name];
    forall q ensures LookAt(fs', q) == if q == gone then None else LookAt(fs, q) {
      BypassLook(ns, kids, store, p, k, dir, q);
      LookAtIs(ns, kids, store, clock, q);
      LookAtIs(ns', kids', store, clock, q);
    }
    LookShrinks(fs, fs', gone);
  }

  lemma ChangeLook(ns: Nodes, ns': Nodes, kids: Kids, store: map<nat, seq<byte>>, store': map<nat, seq<byte>>,
      v: nat, path: Path, q: Path)
    requires Tree(ns, kids) && Tree(ns', kids) && SameLinks(ns, ns') && Resolve(ns, kids, path) == Some(v)
    requires forall i :: 0 <= i < |ns| && i != v ==> InfoOf(ns'[i], store') == InfoOf(ns[i], store)
    ensures LookOf(ns', kids, store', q) ==
      if q == path then Some(InfoOf(ns'[v], store')) else LookOf(ns, kids, store, q)
  {
    hide Tree, Resolve, InfoOf, SameLinks;
    SameLinksResolve(ns, ns', kids, q);
    if Resolve(ns, kids, q) == Some(v) { ResolveInjective(ns, kids, q, path); }
  }

  /** Rewriting one node's attributes or data, links apart, changes what its one path stands for. */
  lemma ChangeView(ns: Nodes, ns': Nodes, kids: Kids, store: map<nat, seq<byte>>, store': map<nat, seq<byte>>,
      clock: nat, clock': nat, v: nat, path: Path)
    requires Tree(ns, kids) && Tree(ns', kids) && SameLinks(ns, ns') && Resolve(ns, kids, path) == Some(v)
    requires forall i :: 0 <= i < |ns| && i != v ==> InfoOf(ns'[i], store') == InfoOf(ns[i], store)
    ensures path in ViewOf(ns, kids, store, clock).look
    ensures ViewOf(ns, kids, store, clock).look[path] == InfoOf(ns[v], store)
    ensures ViewOf(ns', kids, store', clock') ==
      Fs(ViewOf(ns, kids, store, clock).look[path := InfoOf(ns'[v], store')], |ns|, clock')
  {
    var fs, fs' := ViewOf(ns, kids, store, clock), ViewOf(ns', kids, store', clock');
    ViewParts(ns, kids, store, clock);
    ViewParts(ns', kids, store', clock');
    assert |ns'| == |ns|;
    hide Tree, InfoOf, SameLinks, ViewOf, Resolve;
    forall q ensures LookAt(fs', q) == if q == path then Some(InfoOf(ns'[v], store')) else LookAt(fs, q) {
      ChangeLook(ns, ns', kids, store, store', v, path, q);
      LookAtIs(ns, kids, store, clock, q);
      LookAtIs(ns', kids, store', clock', q);
    }
    LookAtIs(ns, kids, store, clock, path);
    LookExtends(fs, fs', path, InfoOf(ns'[v], store'));
  }

  // ---------------------------------------------------------------- data buffers

  /** A node's bytes lie inside their buffer; owned buffers keep room for a terminator and are
      never a boot image, borrowed ones always are. */
  predicate DataOk(n: Node, store: map<nat, seq<byte>>, images: set<nat>) {
    && (n.size > 0 ==> n.data.Data?)
    && (n.data.Data? ==>
      && n.data.buffer in store
      && n.data.at + n.size <= |store[n.data.buffer]|
      && (n.borrowed <==> n.data.buffer in images)
      && (!n.borrowed ==> n.data.at == 0 && n.size < |store[n.data.buffer]|))
  }

  predicate Owns(n: Node, buffer: nat) {
    n.data.Data? && !n.borrowed && n.data.buffer == buffer
  }

  /** Every node's data is in order and no buffer has two owners. */
  predicate StoreOk(ns: Nodes, store: map<nat, seq<byte>>, images: set<nat>, next: nat) {
    && images <= store.Keys
    && (forall b :: b in store ==> b < next)
    && (forall i :: 0 <= i < |ns| ==> DataOk(ns[i], store, images))
    && (forall i, j :: 0 <= i < |ns| && 0 <= j < |ns| && ns[i].data.Data? && Owns(ns[j], ns[i].data.buffer) ==> i == j)
  }

  // ---------------------------------------------------------------- spelling and its last slash

  method LastSlash(s: string) returns (i: nat)
    requires s != "" && s[0] == '/'
    ensures i < |s| && s[i] == '/' && '/' !in s[i + 1..]
  {
    i := 0;
    for j := 1 to |s|
      invariant i < j && s[i] == '/' && '/' !in s[i + 1..j]
    {
      if s[j] == '/' { i := j; }
    }
  }

  lemma LastSlashIs(s: string, head: string, name: string, i: nat)
    requires s == head + "/" + name && '/' !in name
    requires i < |s| && s[i] == '/' && '/' !in s[i + 1..]
    ensures i == |head| && s[..i] == head && s[i + 1..] == name
  {
    assert s[|head|] == '/';
    assert forall k :: |head| < k < |s| ==> s[k] == name[k - |head| - 1] && s[k] != '/';
    assert forall k :: i < k < |s| ==> s[k] == s[i + 1..][k - i - 1] && s[k] != '/';
  }

  lemma ParentSpelling(cs: Path)
    requires ValidPath(cs) && cs != [] && Fits(cs, PATH_MAX)
    ensures Render(cs) == Spell(Init(cs)) + "/" + cs[|cs| - 1]
    ensures ValidPath(Init(cs)) && Fits(Init(cs), PATH_MAX) && |Render(Init(cs))| < PATH_MAX
    ensures Spell(Init(cs)) == "" <==> Init(cs) == []
  {
    InitLast(cs);
    SpellSnoc(Init(cs), cs[|cs| - 1]);
  }

  /** The parent's spelling and the last component, cut at the last slash of a canonical path. */
  method CutLast(normal: string, ghost cs: Path) returns (slash: nat, name: string)
    requires ValidPath(cs) && cs != [] && Fits(cs, PATH_MAX) && normal == Render(cs)
    ensures slash <= |normal| && name == cs[|cs| - 1]
    ensures slash == 0 <==> Init(cs) == []
    ensures slash != 0 ==> Canonical(normal[..slash], "/", PATH_MAX) == Some(Init(cs))
  {
    ParentSpelling(cs);
    assert ValidName(cs[|cs| - 1]);
    slash := LastSlash(normal);
    LastSlashIs(normal, Spell(Init(cs)), cs[|cs| - 1], slash);
    name := Clip(normal[slash + 1..], NAME_MAX);
    CanonicalFixed(Init(cs), "/", PATH_MAX);
  }

  /** The text that remains of a spelling after `k` components and the slash behind them. */
  function Rest(cs: Path, k: nat): string
    requires k <= |cs|
  {
    if k == |cs| then "" else cs[k] + Spell(cs[k + 1..])
  }

  lemma SpellRest(cs: Path, k: nat)
    requires k <= |cs| && ValidPath(cs)
    ensures Spell(cs[k..]) == if k == |cs| then "" else "/" + Rest(cs, k)
    ensures if k < |cs| then Rest(cs, k) != "" && Rest(cs, k)[0] != '/' else Rest(cs, k) == ""
  {
    if k < |cs| {
      assert ValidName(cs[k]) && cs[k][0] in cs[k];
      assert cs[k..][1..] == cs[k + 1..];
    }
  }

  lemma SliceParts(s: string, p: nat, c: string, tail: string)
    requires p <= |s| && s[p..] == c + tail
    ensures var q := p + |c|;
      && q <= |s| && s[p..q] == c && s[q..] == tail && s[p..][..|c|] == c
      && (tail != "" ==> q < |s| && s[q] == tail[0] && s[p..][|c|] == tail[0] && s[q + 1..] == tail[1..])
  {
    var q := p + |c|;
    assert s[p..][..|c|] == c == s[p..q];
    assert s[p..][|c|..] == tail == s[q..];
    if tail != "" {
      assert s[q] == s[q..][0] && s[q..][1..] == s[q + 1..];
    }
  }

  lemma RestStep(cs: Path, k: nat, s: string, p: nat)
    requires k < |cs| && ValidPath(cs) && p <= |s| && s[p..] == Rest(cs, k)
    ensures var q := p + |cs[k]|;
      && NameEnd(s, p) == q <= |s| && Clip(s[p..q], NAME_MAX) == cs[k]
      && (k + 1 == |cs| ==> q == |s| && Rest(cs, k + 1) == "")
      && (k + 1 < |cs| ==> q + 1 < |s| && s[q] == '/' && s[q + 1] != '/' && s[q + 1..] == Rest(cs, k + 1))
  {
    hide *;
    RestHead(cs, k);
    SpellRest(cs, k + 1);
    if k + 1 == |cs| {
      LastName(s, p, cs[k]);
    } else {
      InnerName(s, p, cs[k], Rest(cs, k + 1));
    }
  }

  lemma LastName(s: string, p: nat, c: string)
    requires p <= |s| && s[p..] == c + "" && ValidName(c)
    ensures NameEnd(s, p) == p + |c| == |s| && Clip(s[p..p + |c|], NAME_MAX) == c
  {
    hide *;
    SliceParts(s, p, c, "");
    NameStep(s, p, c, "");
  }

  lemma InnerName(s: string, p: nat, c: string, next: string)
    requires p <= |s| && s[p..] == c + ("/" + next) && ValidName(c) && next != "" && next[0] != '/'
    ensures var q := p + |c|;
      && NameEnd(s, p) == q && q + 1 < |s| && Clip(s[p..q], NAME_MAX) == c
      && s[q] == '/' && s[q + 1] != '/' && s[q + 1..] == next
  {
    hide *;
    SliceParts(s, p, c, "/" + next);
    NameStep(s, p, c, "/" + next);
    AfterSlash(s, p + |c|, next);
  }

  lemma AfterSlash(s: string, q: nat, next: string)
    requires q < |s| && s[q..] == "/" + next && next != "" && next[0] != '/'
    ensures q + 1 < |s| && s[q + 1] != '/' && s[q + 1..] == next
  {
    assert s[q + 1..] == s[q..][1..];
  }

  lemma RestHead(cs: Path, k: nat)
    requires k < |cs| && ValidPath(cs)
    ensures ValidName(cs[k]) && Rest(cs, k) == cs[k] + Spell(cs[k + 1..])
  {
    hide ValidName, Spell;
  }

  lemma NameStep(s: string, p: nat, c: string, tail: string)
    requires ValidName(c) && p + |c| <= |s|
    requires s[p..p + |c|] == c && s[p..][..|c|] == c && s[p + |c|..] == tail
    requires tail != "" ==> tail[0] == '/' && s[p..][|c|] == tail[0]
    ensures NameEnd(s, p) == p + |c| && Clip(s[p..p + |c|], NAME_MAX) == c
  {
    SlashIs(s[p..], |c|);
  }

  lemma RenderRoot(cs: Path)
    requires ValidPath(cs)
    ensures Render(cs) == "/" <==> cs == []
    ensures cs != [] ==> Render(cs)[1..] == Rest(cs, 0) && |Render(cs)| > 1 && Render(cs)[1] != '/'
  {
    if cs != [] {
      hide Spell;
      assert ValidName(cs[0]) && cs[0][0] in cs[0];
      SpellStarts(cs);
      RestFirst(cs);
    }
  }

  lemma RestFirst(cs: Path)
    requires cs != []
    ensures Rest(cs, 0) == cs[0] + Spell(cs[1..])
  {
    hide Spell;
  }

  lemma AttachStore(ns: Nodes, p: nat, node: Node, store: map<nat, seq<byte>>, images: set<nat>, next: nat)
    requires p < |ns| && StoreOk(ns, store, images, next) && node.size == 0 && node.data == NoData
    ensures StoreOk(Attached(ns, p, node), store, images, next)
  {
    var ns' := Attached(ns, p, node);
    assert forall i :: 0 <= i < |ns| ==>
      ns'[i].data == ns[i].data && ns'[i].size == ns[i].size && ns'[i].borrowed == ns[i].borrowed;
    assert ns'[|ns|].data == NoData && ns'[|ns|].size == 0;
    hide Attached;
    assert forall i :: 0 <= i < |ns| ==> DataOk(ns[i], store, images);
    forall i, j | 0 <= i < |ns'| && 0 <= j < |ns'| && ns'[i].data.Data? && Owns(ns'[j], ns'[i].data.buffer) ensures i == j {
      assert Owns(ns[j], ns[i].data.buffer);
    }
  }

  /** Links and times do not matter to the buffers. */
  lemma StoreFrame(ns: Nodes, ns': Nodes, store: map<nat, seq<byte>>, images: set<nat>, next: nat)
    requires StoreOk(ns, store, images, next) && |ns| == |ns'|
    requires forall i :: 0 <= i < |ns| ==>
      ns'[i].data == ns[i].data && ns'[i].size == ns[i].size && ns'[i].borrowed == ns[i].borrowed
    ensures StoreOk(ns', store, images, next)
  {
    forall i, j | 0 <= i < |ns'| && 0 <= j < |ns'| && ns'[i].data.Data? && Owns(ns'[j], ns'[i].data.buffer) ensures i == j {
      assert Owns(ns[j], ns[i].data.buffer);
    }
    assert forall i :: 0 <= i < |ns| ==> DataOk(ns[i], store, images);
  }

  /** The whole of vfs_unlink on the pool: `b` has child `k` bypassed, `ns'` has the parent touched too. */
  lemma UnlinkWritten(ns: Nodes, b: Nodes, ns': Nodes, kids: Kids, kids': Kids, store: map<nat, seq<byte>>,
      images: set<nat>, next: nat, clock: nat, p: nat, k: nat, cs: Path)
    requires Tree(ns, kids) && StoreOk(ns, store, images, next)
    requires cs != [] && Resolve(ns, kids, Init(cs)) == Some(p) && p < |kids| == |ns| && FamilyAt(ns, kids, p)
    requires k < |kids[p]| && kids[p][k] < |ns| && ns[kids[p][k]].name == cs[|cs| - 1] && kids[kids[p][k]] == []
    requires b == Bypassed(ns, kids, p, k) && kids' == BypassedKids(kids, p, k)
    requires ns' == b[p := b[p].(modified := clock + 1)]
    requires UnlinkCode(ViewOf(ns, kids, store, clock), Some(cs)) == 0
    ensures Tree(ns', kids') && StoreOk(ns', store, images, next)
    ensures ViewOf(ns', kids', store, clock + 1) == UnlinkSpec(ViewOf(ns, kids, store, clock), Some(cs))
  {
    hide *;
    BypassTree(ns, kids, p, k);
    BypassStore(ns, kids, p, k, store, images, next);
    InitLast(cs);
    BypassResolve(ns, kids, p, k, Init(cs), Init(cs));
    assert Resolve(b, kids', Init(cs)) == Some(p) by { InitShorter(cs); }
    TouchView(b, ns', kids', store, images, next, clock, p, Init(cs));
    UnlinkView(ns, b, kids, kids', store, clock, p, k, cs);
  }

  lemma InitShorter(cs: Path)
    requires cs != []
    ensures Init(cs) != cs
  {
    assert |Init(cs)| != |cs|;
  }

  lemma UnlinkView(ns: Nodes, b: Nodes, kids: Kids, kids': Kids, store: map<nat, seq<byte>>, clock: nat, p: nat, k: nat, cs: Path)
    requires Tree(ns, kids) && p < |kids| == |ns| && FamilyAt(ns, kids, p)
    requires cs != [] && Resolve(ns, kids, Init(cs)) == Some(p)
    requires k < |kids[p]| && kids[p][k] < |ns| && ns[kids[p][k]].name == cs[|cs| - 1] && kids[kids[p][k]] == []
    requires b == Bypassed(ns, kids, p, k) && kids' == BypassedKids(kids, p, k) && Tree(b, kids')
    requires UnlinkCode(ViewOf(ns, kids, store, clock), Some(cs)) == 0
    ensures var fs := ViewOf(b, kids', store, clock);
      && Init(cs) in fs.look
      && UnlinkSpec(ViewOf(ns, kids, store, clock), Some(cs)) ==
        Fs(fs.look[Init(cs) := fs.look[Init(cs)].(modified := clock + 1)], |b|, clock + 1)
  {
    hide *;
    InitLast(cs);
    InitShorter(cs);
    BypassView(ns, kids, store, clock, p, k, Init(cs));
    LookAtNode(ns, kids, store, clock, Init(cs));
    ViewParts(ns, kids, store, clock);
    UnlinkCases(ViewOf(ns, kids, store, clock), Some(cs));
  }

  lemma BypassStore(ns: Nodes, kids: Kids, p: nat, k: nat, store: map<nat, seq<byte>>, images: set<nat>, next: nat)
    requires p < |ns| == |kids| && k < |kids[p]| && FamilyAt(ns, kids, p) && StoreOk(ns, store, images, next)
    ensures StoreOk(Bypassed(ns, kids, p, k), store, images, next)
  {
    hide Bypassed, StoreOk, FamilyAt;
    BypassedData(ns, kids, p, k);
    StoreFrame(ns, Bypassed(ns, kids, p, k), store, images, next);
  }

  lemma BypassedData(ns: Nodes, kids: Kids, p: nat, k: nat)
    requires p < |ns| == |kids| && k < |kids[p]| && FamilyAt(ns, kids, p)
    ensures var b := Bypassed(ns, kids, p, k);
      forall i :: 0 <= i < |ns| ==> b[i].data == ns[i].data && b[i].size == ns[i].size && b[i].borrowed == ns[i].borrowed
  {
    hide Bypassed, FamilyAt;
    forall i | 0 <= i < |ns|
      ensures var b := Bypassed(ns, kids, p, k)[i]; b.data == ns[i].data && b.size == ns[i].size && b.borrowed == ns[i].borrowed
    {
      BypassedNode(ns, kids, p, k, i);
    }
  }

  /** Stamping a node with a new time. */
  lemma TouchView(ns: Nodes, ns': Nodes, kids: Kids, store: map<nat, seq<byte>>, images: set<nat>, next: nat,
      clock: nat, v: nat, path: Path)
    requires Tree(ns, kids) && StoreOk(ns, store, images, next) && Resolve(ns, kids, path) == Some(v)
    requires ns' == ns[v := ns[v].(modified := clock + 1)]
    ensures Tree(ns', kids) && StoreOk(ns', store, images, next)
    ensures var fs := ViewOf(ns, kids, store, clock);
      path in fs.look && ViewOf(ns', kids, store, clock + 1) ==
        Fs(fs.look[path := fs.look[path].(modified := clock + 1)], |ns|, clock + 1)
  {
    assert SameLinks(ns, ns');
    assert forall i :: 0 <= i < |ns| ==>
      ns'[i].data == ns[i].data && ns'[i].size == ns[i].size && ns'[i].borrowed == ns[i].borrowed;
    assert forall i :: 0 <= i < |ns| && i != v ==> InfoOf(ns'[i], store) == InfoOf(ns[i], store);
    hide Tree, Resolve, StoreOk, SameLinks, InfoOf, ViewOf;
    StoreFrame(ns, ns', store, images, next);
    SameLinksTree(ns, ns', kids);
    TouchInfo(ns[v], store, clock + 1);
    ChangeView(ns, ns', kids, store, store, clock, clock + 1, v, path);
  }

  lemma TouchInfo(n: Node, store: map<nat, seq<byte>>, now: nat)
    ensures InfoOf(n.(modified := now), store) == InfoOf(n, store).(modified := now)
  {
  }

  /** alloc_node and attach_child keep the pool in order ... */
  lemma AttachWritten(ns: Nodes, kids: Kids, store: map<nat, seq<byte>>, images: set<nat>, next: nat, p: nat, node: Node, cs: Path)
    requires Tree(ns, kids) && |ns| == |kids| && StoreOk(ns, store, images, next)
    requires cs != [] && cs[|cs| - 1] == node.name && ValidName(node.name)
    requires Resolve(ns, kids, Init(cs)) == Some(p) && ns[p].kind == Dir && Resolve(ns, kids, cs) == None
    requires node.firstChild == NULL && node.size == 0 && node.data == NoData
    ensures Tree(Attached(ns, p, node), AttachedKids(ns, kids, p))
    ensures StoreOk(Attached(ns, p, node), store, images, next)
  {
    assert FamilyAt(ns, kids, p);
    hide *;
    InitLast(cs);
    ResolveSnoc(ns, kids, Init(cs), node.name);
    AttachTree(ns, kids, p, node);
    AttachStore(ns, p, node, store, images, next);
  }

  /** ... and make exactly the new path appear. */
  lemma AttachWrittenView(ns: Nodes, kids: Kids, store: map<nat, seq<byte>>, clock: nat, p: nat, node: Node, cs: Path)
    requires Tree(ns, kids) && |ns| == |kids|
    requires cs != [] && cs[|cs| - 1] == node.name
    requires Resolve(ns, kids, Init(cs)) == Some(p) && Resolve(ns, kids, cs) == None
    requires node.size == 0 && node.created == node.modified == clock + 1
    requires Tree(Attached(ns, p, node), AttachedKids(ns, kids, p))
    requires MakeCode(ViewOf(ns, kids, store, clock), Some(cs)) == 0
    ensures ViewOf(Attached(ns, p, node), AttachedKids(ns, kids, p), store, clock + 1) ==
      MakeSpec(ViewOf(ns, kids, store, clock), Some(cs), node.kind, node.mode, node.uid, node.gid)
  {
    hide *;
    InitIs(cs, node.name);
    AttachView(ns, kids, store, clock, p, node, Init(cs), cs);
    FreshInfo(node, store);
    ViewParts(ns, kids, store, clock);
    MadeIs(ViewOf(Attached(ns, p, node), AttachedKids(ns, kids, p), store, clock + 1), ViewOf(ns, kids, store, clock), cs, node, InfoOf(node, store));
  }

  lemma MadeIs(after: Fs, fs: Fs, cs: Path, node: Node, info: Info)
    requires after == Fs(fs.look[cs := info], fs.count + 1, fs.clock + 1) && MakeCode(fs, Some(cs)) == 0
    requires info == Info(node.kind, node.mode, node.uid, node.gid, fs.clock + 1, fs.clock + 1, [])
    ensures after == MakeSpec(fs, Some(cs), node.kind, node.mode, node.uid, node.gid)
  {
    hide MakeSpec, MakeCode;
    MakeDone(fs, cs, node.kind, node.mode, node.uid, node.gid);
  }
}
