/** The kernel's page tables (kernel/mm/vmm.c): three levels of entries that map the lower half
    of the address space onto itself in 2 MiB pages, with tables taken from two fixed pools.
    Addresses are 64-bit unsigned integers; a table entry is its address field and its low
    twelve bits, and `PackedFieldwise` is the reason why `|` acts on the two separately. */
module PageTables {
  import opened Basics
  import opened Wrappers

  const PRESENT: bv12 := 0x001
  const WRITABLE: bv12 := 0x002
  const USER: bv12 := 0x004
  const HUGE: bv12 := 0x080
  const HUGE_PAGE_SIZE := 0x20_0000
  const LOWER_HALF_LIMIT := 0x8000_0000_0000
  const PDPT_POOL := 8
  const PD_POOL := 64

  // ---------------------------------------------------------------- entries

  datatype Entry = Entry(base: nat, flags: bv12)

  const ZERO := Entry(0, 0)

  predicate Has(flags: bv12, bits: bv12) {
    flags & bits == bits
  }

  /** The rights that three levels have in common. */
  function Shared(f: bv12, g: bv12, k: bv12): bv12 {
    f & g & k
  }

  predicate Present(e: Entry) {
    Has(e.flags, PRESENT)
  }

  function More(flags: bv12, bits: bv12): bv12 {
    flags | bits
  }

  /** Adding bits to an entry: `|=` with a value below 4096. */
  function Add(e: Entry, bits: bv12): Entry {
    e.(flags := More(e.flags, bits))
  }

  /** Or-ing small values into a word that starts as an aligned address leaves the address field
      alone, and the low twelve bits are the or of the small values. */
  lemma PackedFieldwise(address: bv64, f: bv64, g: bv64)
    requires address & 0x000f_ffff_ffff_f000 == address && f < 0x1000 && g < 0x1000
    ensures ((address | f) | g) & 0x000f_ffff_ffff_f000 == address
    ensures ((address | f) | g) & 0xfff == f | g
  {
  }

  // ---------------------------------------------------------------- table memory

  /** The words of all tables, by table address and index. */
  type Words = map<(nat, nat), Entry>

  function Load(w: Words, t: nat, i: nat): Entry {
    if (t, i) in w then w[(t, i)] else ZERO
  }

  function Store(w: Words, t: nat, i: nat, e: Entry): (r: Words)
    ensures forall u: nat, j: nat ::
      (Load(r, u, j) == (if u == t && j == i then e else Load(w, u, j)))
  {
    w[(t, i) := e]
  }

  /** The table at `t` filled with zeros. */
  function Zeroed(w: Words, t: nat): (r: Words)
    ensures forall u: nat, j: nat :: (Load(r, u, j) == (if u == t then ZERO else Load(w, u, j)))
  {
    map k | k in w && k.0 != t :: w[k]
  }

  /** Where the boot code and the linker put the tables. */
  datatype Layout = Layout(pml4: nat, pdpt: nat, pd: nat, pdpts: seq<nat>, pds: seq<nat>)

  predicate WellPlaced(l: Layout) {
    && |l.pdpts| == PDPT_POOL
    && |l.pds| == PD_POOL
    && l.pml4 != l.pdpt && l.pml4 != l.pd && l.pdpt != l.pd
    && (forall n :: 0 <= n < PDPT_POOL ==> l.pdpts[n] != l.pml4 && l.pdpts[n] != l.pdpt && l.pdpts[n] != l.pd)
    && (forall n :: 0 <= n < PD_POOL ==> l.pds[n] != l.pml4 && l.pds[n] != l.pdpt && l.pds[n] != l.pd)
    && (forall m, n :: 0 <= m < n < PDPT_POOL ==> l.pdpts[m] != l.pdpts[n])
    && (forall m, n :: 0 <= m < n < PD_POOL ==> l.pds[m] != l.pds[n])
    && (forall m, n :: 0 <= m < PDPT_POOL && 0 <= n < PD_POOL ==> l.pdpts[m] != l.pds[n])
  }

  // ---------------------------------------------------------------- what the processor sees

  /** The frame an address reaches, the rights all three levels grant, and the leaf's flags. */
  datatype Access = Access(frame: nat, rights: bv12, leaf: bv12)

  /** The three loads of a translation. */
  function Descend(w: Words, root: nat, i: nat, j: nat, k: nat): Option<Access> {
    var e1 := Load(w, root, i);
    if !Present(e1) then None else
    var e2 := Load(w, e1.base, j);
    if !Present(e2) then None else
    var e3 := Load(w, e2.base, k);
    if !Present(e3) then None else
    Some(Access(e3.base, Shared(e1.flags, e2.flags, e3.flags), e3.flags))
  }

  /** The same leaf, its rights grown at most by `gain`, or none before and after. */
  predicate Steady(x: Option<Access>, y: Option<Access>, gain: bv12) {
    && x.Some? == y.Some?
    && (x.Some? ==>
      && y.value.frame == x.value.frame && y.value.leaf == x.value.leaf
      && Has(y.value.rights, x.value.rights) && Has(More(x.value.rights, gain), y.value.rights))
  }

  // ---------------------------------------------------------------- the invariant

  /** The words of the tables and the two pool cursors. */
  datatype State = State(words: Words, nextPdpt: nat, nextPd: nat)

  /** Which root slot links each second-level table, and which slot below it each third-level one. */
  datatype Homes = Homes(second: map<nat, nat>, third: map<nat, (nat, nat)>)

  /** The address whose indices are `i`, `j` and `k`. */
  function Base(i: nat, j: nat, k: nat): nat {
    i * 0x80_0000_0000 + j * 0x4000_0000 + k * 0x20_0000
  }

  predicate Taken(t: nat, first: nat, pool: seq<nat>, n: nat) {
    t == first || exists m :: 0 <= m < n && m < |pool| && pool[m] == t
  }

  /** Every linked table has the one home that links it; every leaf leads where its indices say. */
  ghost predicate Inv(l: Layout, s: State, h: Homes) {
    && s.nextPdpt <= PDPT_POOL && s.nextPd <= PD_POOL
    && (forall t :: t in h.second ==> Taken(t, l.pdpt, l.pdpts, s.nextPdpt))
    && (forall t :: t in h.third ==> Taken(t, l.pd, l.pds, s.nextPd))
    && Rooted(l, s.words, h)
    && Linked(s.words, h)
    && Identity(s.words, h)
  }

  ghost predicate Rooted(l: Layout, w: Words, h: Homes) {
    forall i: nat :: Present(Load(w, l.pml4, i)) ==> RootEntry(Load(w, l.pml4, i), i, h)
  }

  predicate RootEntry(e: Entry, i: nat, h: Homes) {
    i < 256 && e.base in h.second && h.second[e.base] == i && Has(e.flags, WRITABLE)
  }

  ghost predicate Linked(w: Words, h: Homes) {
    forall t: nat, j: nat :: t in h.second && Present(Load(w, t, j)) ==>
      MiddleEntry(Load(w, t, j), h.second[t], j, h)
  }

  predicate MiddleEntry(e: Entry, i: nat, j: nat, h: Homes) {
    j < 512 && e.base in h.third && h.third[e.base] == (i, j) && Has(e.flags, WRITABLE)
  }

  ghost predicate Identity(w: Words, h: Homes) {
    forall t: nat, k: nat :: t in h.third && Present(Load(w, t, k)) ==>
      Leaf(Load(w, t, k), h.third[t].0, h.third[t].1, k)
  }

  predicate Leaf(e: Entry, i: nat, j: nat, k: nat) {
    k < 512 && e.base == Base(i, j, k) && Has(e.flags, WRITABLE | HUGE)
  }

  // ---------------------------------------------------------------- flag arithmetic

  lemma AddBits(x: bv12, bits: bv12, f: bv12)
    ensures Has(x, f) ==> Has(More(x, bits), f)
    ensures Has(More(x, bits), bits) && Has(More(x, bits), x)
  {
  }

  lemma Reflexive(x: bv12)
    ensures Has(x, x)
  {
  }

  lemma Transitive(x: bv12, y: bv12, z: bv12)
    requires Has(x, y) && Has(y, z)
    ensures Has(x, z)
  {
  }

  /** Adding bits on one level never takes rights away. */
  lemma AddShared1(m: bv12, x: bv12, bits: bv12, f: bv12, g: bv12, a: bv12, b: bv12)
    requires m == More(x, bits) && a == Shared(m, f, g) && b == Shared(x, f, g)
    ensures Has(a, b) && Has(More(b, bits), a)
  {
  }

  lemma AddShared2(m: bv12, x: bv12, bits: bv12, f: bv12, g: bv12, a: bv12, b: bv12)
    requires m == More(x, bits) && a == Shared(f, m, g) && b == Shared(f, x, g)
    ensures Has(a, b) && Has(More(b, bits), a)
  {
  }

  lemma AddShared3(m: bv12, x: bv12, bits: bv12, f: bv12, g: bv12, a: bv12, b: bv12)
    requires m == More(x, bits) && a == Shared(f, g, m) && b == Shared(f, g, x)
    ensures Has(a, b) && Has(More(b, bits), a)
  {
  }

  // ---------------------------------------------------------------- one step at each level

  predicate InUse(l: Layout, h: Homes, t: nat) {
    t == l.pml4 || t in h.second || t in h.third
  }

  function UserBit(flags: bv12): bv12 {
    flags & USER
  }

  /** Slot `i` of table `t` links table `u`, user-accessible when `flags` ask for it. */
  predicate Leads(w: Words, t: nat, i: nat, u: nat, flags: bv12) {
    var e := Load(w, t, i);
    Present(e) && e.base == u && Has(e.flags, WRITABLE) && Has(e.flags, UserBit(flags))
  }

  ghost predicate AllSteady(w: Words, w': Words, root: nat, gain: bv12) {
    forall i, j, k :: Steady(Descend(w, root, i, j, k), Descend(w', root, i, j, k), gain)
  }

  lemma Enrich(l: Layout, s: State, h: Homes, t: nat, i: nat, bits: bv12)
    requires WellPlaced(l) && Inv(l, s, h) && InUse(l, h, t) && Present(Load(s.words, t, i))
    ensures Inv(l, s.(words := Store(s.words, t, i, Add(Load(s.words, t, i), bits))), h)
  {
    hide Base, Has, More, Load, Store;
    var e := Load(s.words, t, i);
    AddBits(e.flags, bits, PRESENT);
    AddBits(e.flags, bits, WRITABLE);
    AddBits(e.flags, bits, WRITABLE | HUGE);
  }

  /** Still mapped to the same frame, with at least the same rights and flags. */
  predicate Kept(x: Option<Access>, y: Option<Access>) {
    x.Some? ==>
      && y.Some?
      && y.value.frame == x.value.frame
      && Has(y.value.leaf, x.value.leaf)
      && Has(y.value.rights, x.value.rights)
  }

  lemma EnrichWalk(l: Layout, s: State, h: Homes, t: nat, i: nat, bits: bv12, i': nat, j': nat, k': nat)
    requires WellPlaced(l) && Inv(l, s, h) && InUse(l, h, t) && t !in h.third && Present(Load(s.words, t, i))
    ensures var w' := Store(s.words, t, i, Add(Load(s.words, t, i), bits));
      Steady(Descend(s.words, l.pml4, i', j', k'), Descend(w', l.pml4, i', j', k'), bits)
  {
    hide Base, Has, More, Load, Store, Shared;
    var e := Load(s.words, t, i);
    AddBits(e.flags, bits, PRESENT);
    var w' := Store(s.words, t, i, Add(e, bits));
    var x, y := Descend(s.words, l.pml4, i', j', k'), Descend(w', l.pml4, i', j', k');
    if x.Some? {
      var e1 := Load(s.words, l.pml4, i');
      var e2 := Load(s.words, e1.base, j');
      var e3 := Load(s.words, e2.base, k');
      if (t, i) == (l.pml4, i') {
        AddShared1(More(e.flags, bits), e.flags, bits, e2.flags, e3.flags, y.value.rights, x.value.rights);
      } else if (t, i) == (e1.base, j') {
        AddShared2(More(e.flags, bits), e.flags, bits, e1.flags, e3.flags, y.value.rights, x.value.rights);
      } else {
        AddBits(x.value.rights, bits, 0);
        Reflexive(x.value.rights);
      }
    }
  }

  lemma EnrichUpper(l: Layout, s: State, h: Homes, t: nat, i: nat, flags: bv12)
    requires WellPlaced(l) && Inv(l, s, h) && InUse(l, h, t) && t !in h.third && Present(Load(s.words, t, i))
    requires Has(Load(s.words, t, i).flags, WRITABLE)
    ensures var e := Load(s.words, t, i);
      var w' := Store(s.words, t, i, Add(e, UserBit(flags)));
      && Inv(l, s.(words := w'), h)
      && Leads(w', t, i, e.base, flags)
      && AllSteady(s.words, w', l.pml4, UserBit(flags))
  {
    hide Base, Has, More, Load, Store, Shared, Descend, WellPlaced, Inv, UserBit;
    var e, bits := Load(s.words, t, i), UserBit(flags);
    Enrich(l, s, h, t, i, bits);
    AddBits(e.flags, bits, PRESENT);
    AddBits(e.flags, bits, WRITABLE);
    var w' := Store(s.words, t, i, Add(e, bits));
    forall i', j', k' ensures Steady(Descend(s.words, l.pml4, i', j', k'), Descend(w', l.pml4, i', j', k'), bits) {
      EnrichWalk(l, s, h, t, i, bits, i', j', k');
    }
  }

  /** Nothing but the translation with these indices changes, and that one only gains. */
  ghost predicate LeafOnly(w: Words, w': Words, root: nat, i: nat, j: nat, k: nat, flags: bv12) {
    forall i': nat, j': nat, k': nat ::
      LeafChange(Descend(w, root, i', j', k'), Descend(w', root, i', j', k'), (i', j', k') == (i, j, k), flags)
  }

  predicate LeafChange(x: Option<Access>, y: Option<Access>, here: bool, flags: bv12) {
    Kept(x, y) && (!here ==> y == x) && (here && y.Some? ==> y.value.leaf == LeafFlags(x, flags))
  }

  /** The flags of a leaf after mapping: the old ones and those asked for, or those of a new leaf. */
  function LeafFlags(x: Option<Access>, flags: bv12): bv12 {
    if x.Some? then More(x.value.leaf, flags) else PRESENT | WRITABLE | HUGE | flags
  }

  /** The root slot is linked, and so is the slot below it. */
  predicate HasMiddle(w: Words, root: nat, i: nat, j: nat) {
    Present(Load(w, root, i)) && Present(Load(w, Load(w, root, i).base, j))
  }

  /** Third-level table `t` is linked where its home says. */
  predicate Reached(w: Words, root: nat, i: nat, j: nat, t: nat) {
    HasMiddle(w, root, i, j) && Load(w, Load(w, root, i).base, j).base == t
  }

  lemma EnrichLeafWalk(l: Layout, s: State, h: Homes, t: nat, k: nat, bits: bv12, i': nat, j': nat, k': nat)
    requires WellPlaced(l) && Inv(l, s, h) && t in h.third && Present(Load(s.words, t, k))
    requires Reached(s.words, l.pml4, h.third[t].0, h.third[t].1, t)
    ensures var w' := Store(s.words, t, k, Add(Load(s.words, t, k), bits));
      var x, y := Descend(s.words, l.pml4, i', j', k'), Descend(w', l.pml4, i', j', k');
      LeafChange(x, y, (i', j', k') == (h.third[t].0, h.third[t].1, k), bits)
  {
    hide Base, Has, More, Load, Store, Shared;
    var e := Load(s.words, t, k);
    AddBits(e.flags, bits, PRESENT);
    var w' := Store(s.words, t, k, Add(e, bits));
    var x, y := Descend(s.words, l.pml4, i', j', k'), Descend(w', l.pml4, i', j', k');
    if x.Some? {
      var e1 := Load(s.words, l.pml4, i');
      var e2 := Load(s.words, e1.base, j');
      if (t, k) == (e2.base, k') {
        AddShared3(More(e.flags, bits), e.flags, bits, e1.flags, e2.flags, y.value.rights, x.value.rights);
      } else {
        Reflexive(x.value.rights);
        Reflexive(x.value.leaf);
      }
    }
  }

  lemma EnrichLeaf(l: Layout, s: State, h: Homes, t: nat, k: nat, flags: bv12)
    requires WellPlaced(l) && Inv(l, s, h) && t in h.third && Present(Load(s.words, t, k))
    requires Reached(s.words, l.pml4, h.third[t].0, h.third[t].1, t)
    ensures var w' := Store(s.words, t, k, Add(Load(s.words, t, k), flags));
      && Inv(l, s.(words := w'), h)
      && Present(Load(w', t, k)) && Has(Load(w', t, k).flags, flags)
      && Leaf(Load(w', t, k), h.third[t].0, h.third[t].1, k)
      && LeafOnly(s.words, w', l.pml4, h.third[t].0, h.third[t].1, k, flags)
  {
    hide Base, Has, More, Load, Store, Shared, Descend, WellPlaced;
    var e := Load(s.words, t, k);
    Enrich(l, s, h, t, k, flags);
    AddBits(e.flags, flags, PRESENT);
    var w' := Store(s.words, t, k, Add(e, flags));
    forall i': nat, j': nat, k': nat
      ensures LeafChange(Descend(s.words, l.pml4, i', j', k'), Descend(w', l.pml4, i', j', k'), (i', j', k') == (h.third[t].0, h.third[t].1, k), flags)
    {
      EnrichLeafWalk(l, s, h, t, k, flags, i', j', k');
    }
  }

  lemma NewTableBits(f: bv12, flags: bv12)
    requires f == PRESENT | WRITABLE | UserBit(flags)
    ensures Has(f, PRESENT) && Has(f, WRITABLE) && Has(f, UserBit(flags))
  {
  }

  lemma NotPresent()
    ensures !Present(ZERO)
  {
  }

  lemma SameSteady(x: Option<Access>, gain: bv12)
    ensures Steady(x, x, gain)
  {
    hide Has, More;
    if x.Some? {
      Reflexive(x.value.rights);
      AddBits(x.value.rights, gain, 0);
    }
  }

  /** An empty second-level table linked from an empty root slot. */
  lemma Link1(l: Layout, s: State, h: Homes, i: nat, flags: bv12)
    requires WellPlaced(l) && Inv(l, s, h) && !Present(Load(s.words, l.pml4, i))
    requires s.nextPdpt < PDPT_POOL && i < 256
    ensures var t := l.pdpts[s.nextPdpt];
      var w' := Store(Zeroed(s.words, t), l.pml4, i, Entry(t, PRESENT | WRITABLE | UserBit(flags)));
      && Inv(l, State(w', s.nextPdpt + 1, s.nextPd), h.(second := h.second[t := i]))
      && t !in h.second
      && Leads(w', l.pml4, i, t, flags)
      && AllSteady(s.words, w', l.pml4, UserBit(flags))
      && (forall j :: !Present(Load(w', t, j)))
  {
    hide Base, Has, Load, Store, Zeroed, Shared, UserBit, Descend, Steady;
    var t := l.pdpts[s.nextPdpt];
    var e := Entry(t, PRESENT | WRITABLE | UserBit(flags));
    NewTableBits(e.flags, flags);
    NotPresent();
    var w' := Store(Zeroed(s.words, t), l.pml4, i, e);
    forall i', j', k' ensures Steady(Descend(s.words, l.pml4, i', j', k'), Descend(w', l.pml4, i', j', k'), UserBit(flags)) {
      Link1Walk(l, s, h, i, e, i', j', k');
      SameSteady(Descend(s.words, l.pml4, i', j', k'), UserBit(flags));
    }
  }

  lemma Link1Walk(l: Layout, s: State, h: Homes, i: nat, e: Entry, i': nat, j': nat, k': nat)
    requires WellPlaced(l) && Inv(l, s, h) && !Present(Load(s.words, l.pml4, i))
    requires s.nextPdpt < PDPT_POOL && i < 256 && e.base == l.pdpts[s.nextPdpt]
    ensures Descend(Store(Zeroed(s.words, e.base), l.pml4, i, e), l.pml4, i', j', k') == Descend(s.words, l.pml4, i', j', k')
  {
    hide Base, Has, Load, Store, Zeroed, Shared;
    NotPresent();
  }

  /** An empty third-level table linked from an empty second-level slot. */
  lemma Link2(l: Layout, s: State, h: Homes, t: nat, j: nat, flags: bv12)
    requires WellPlaced(l) && Inv(l, s, h) && t in h.second && !Present(Load(s.words, t, j))
    requires s.nextPd < PD_POOL && j < 512
    ensures var u := l.pds[s.nextPd];
      var w' := Store(Zeroed(s.words, u), t, j, Entry(u, PRESENT | WRITABLE | UserBit(flags)));
      && Inv(l, State(w', s.nextPdpt, s.nextPd + 1), h.(third := h.third[u := (h.second[t], j)]))
      && u !in h.third
      && Leads(w', t, j, u, flags)
      && AllSteady(s.words, w', l.pml4, UserBit(flags))
      && (forall k :: !Present(Load(w', u, k)))
  {
    hide Base, Has, Load, Store, Zeroed, Shared, UserBit, Descend, Steady;
    var u := l.pds[s.nextPd];
    var e := Entry(u, PRESENT | WRITABLE | UserBit(flags));
    NewTableBits(e.flags, flags);
    NotPresent();
    var w' := Store(Zeroed(s.words, u), t, j, e);
    forall i', j', k' ensures Steady(Descend(s.words, l.pml4, i', j', k'), Descend(w', l.pml4, i', j', k'), UserBit(flags)) {
      Link2Walk(l, s, h, t, j, e, i', j', k');
      SameSteady(Descend(s.words, l.pml4, i', j', k'), UserBit(flags));
    }
  }

  lemma Link2Walk(l: Layout, s: State, h: Homes, t: nat, j: nat, e: Entry, i': nat, j': nat, k': nat)
    requires WellPlaced(l) && Inv(l, s, h) && t in h.second && !Present(Load(s.words, t, j))
    requires s.nextPd < PD_POOL && j < 512 && e.base == l.pds[s.nextPd]
    ensures Descend(Store(Zeroed(s.words, e.base), t, j, e), l.pml4, i', j', k') == Descend(s.words, l.pml4, i', j', k')
  {
    hide Base, Has, Load, Store, Zeroed, Shared;
    NotPresent();
  }

  /** A new leaf for the page that the indices of its slot spell. */
  lemma NewLeaf(l: Layout, s: State, h: Homes, t: nat, k: nat, flags: bv12)
    requires WellPlaced(l) && Inv(l, s, h) && t in h.third && !Present(Load(s.words, t, k)) && k < 512
    requires Reached(s.words, l.pml4, h.third[t].0, h.third[t].1, t)
    ensures var w' := Store(s.words, t, k, Entry(Base(h.third[t].0, h.third[t].1, k), PRESENT | WRITABLE | HUGE | flags));
      && Inv(l, s.(words := w'), h)
      && Present(Load(w', t, k)) && Has(Load(w', t, k).flags, flags)
      && Leaf(Load(w', t, k), h.third[t].0, h.third[t].1, k)
      && LeafOnly(s.words, w', l.pml4, h.third[t].0, h.third[t].1, k, flags)
  {
    hide Base, Has, Load, Store, Descend, WellPlaced, Shared, LeafChange;
    var e := Entry(Base(h.third[t].0, h.third[t].1, k), PRESENT | WRITABLE | HUGE | flags);
    NewLeafBits(e.flags, flags);
    var w' := Store(s.words, t, k, e);
    StoreLeaf(l, s, h, t, k, e);
    forall i': nat, j': nat, k': nat
      ensures LeafChange(Descend(s.words, l.pml4, i', j', k'), Descend(w', l.pml4, i', j', k'), (i', j', k') == (h.third[t].0, h.third[t].1, k), flags)
    {
      NewLeafWalk(l, s, h, t, k, e, flags, i', j', k');
    }
  }

  lemma NewLeafBits(f: bv12, flags: bv12)
    requires f == PRESENT | WRITABLE | HUGE | flags
    ensures Has(f, PRESENT) && Has(f, WRITABLE | HUGE) && Has(f, flags)
  {
  }

  lemma StoreLeaf(l: Layout, s: State, h: Homes, t: nat, k: nat, e: Entry)
    requires WellPlaced(l) && Inv(l, s, h) && t in h.third && k < 512 && Leaf(e, h.third[t].0, h.third[t].1, k)
    ensures Inv(l, s.(words := Store(s.words, t, k, e)), h)
  {
    hide Base, Has, Load, Store;
  }

  lemma NewLeafWalk(l: Layout, s: State, h: Homes, t: nat, k: nat, e: Entry, flags: bv12, i': nat, j': nat, k': nat)
    requires WellPlaced(l) && Inv(l, s, h) && t in h.third && !Present(Load(s.words, t, k)) && k < 512
    requires Reached(s.words, l.pml4, h.third[t].0, h.third[t].1, t)
    requires e == Entry(Base(h.third[t].0, h.third[t].1, k), PRESENT | WRITABLE | HUGE | flags)
    ensures LeafChange(Descend(s.words, l.pml4, i', j', k'), Descend(Store(s.words, t, k, e), l.pml4, i', j', k'),
      (i', j', k') == (h.third[t].0, h.third[t].1, k), flags)
  {
    hide Base, Has, More, Load, Store, Shared;
    var x := Descend(s.words, l.pml4, i', j', k');
    if x.Some? {
      Reflexive(x.value.rights);
      Reflexive(x.value.leaf);
    }
  }

  // ---------------------------------------------------------------- addresses

  function Page(a: nat): nat { a - a % HUGE_PAGE_SIZE }
  function Index1(a: nat): nat { a / 0x80_0000_0000 % 512 }
  function Index2(a: nat): nat { a / 0x4000_0000 % 512 }
  function Index3(a: nat): nat { a / 0x20_0000 % 512 }

  lemma Indices(a: nat)
    requires a < LOWER_HALF_LIMIT
    ensures Base(Index1(a), Index2(a), Index3(a)) == Page(a)
    ensures Index1(a) < 256
  {
    var q := a / 0x20_0000;
    assert Page(a) == q * 0x20_0000;
    Shifts(a);
    Digits(q);
    assert Index1(a) == q / 512 / 512 % 512 && Index2(a) == q / 512 % 512 && Index3(a) == q % 512;
    hide Index1, Index2, Index3, Page;
  }

  lemma Digits(q: nat)
    requires q < 0x400_0000
    ensures q / 512 / 512 % 512 < 256
    ensures q == q / 512 / 512 % 512 * 0x4_0000 + q / 512 % 512 * 512 + q % 512
  {
    var p := q / 512;
    assert q == p * 512 + q % 512 && p < 0x2_0000;
    var o := p / 512;
    assert p == o * 512 + p % 512 && o < 0x100;
  }

  lemma SamePage(a: nat, b: nat)
    requires Page(a) == Page(b)
    ensures Index1(a) == Index1(b) && Index2(a) == Index2(b) && Index3(a) == Index3(b)
  {
    assert a / HUGE_PAGE_SIZE == b / HUGE_PAGE_SIZE;
    Shifts(a);
    Shifts(b);
  }

  lemma Shifts(a: nat)
    ensures a / 0x4000_0000 == a / 0x20_0000 / 512
    ensures a / 0x80_0000_0000 == a / 0x20_0000 / 512 / 512
  {
  }

  predicate Canonical(a: nat) {
    a < LOWER_HALF_LIMIT || TWO_64 - LOWER_HALF_LIMIT <= a < TWO_64
  }

  /** How the processor translates address `a`. */
  function Walk(w: Words, root: nat, a: nat): Option<Access> {
    if Canonical(a) then Descend(w, root, Index1(a), Index2(a), Index3(a)) else None
  }

  /** Mapped to itself and writable, with the flags asked for, and for user code on every level. */
  predicate Grants(x: Option<Access>, a: nat, flags: bv12) {
    && x.Some?
    && x.value.frame == Page(a)
    && Has(x.value.leaf, HUGE) && Has(x.value.leaf, flags)
    && Has(x.value.rights, WRITABLE) && Has(x.value.rights, UserBit(flags))
  }

  /** What it means that `a` is granted, in the bits that the processor looks at: present on every
      level as all translations are, a 2 MiB page at its own place, writable, and open to user code
      whenever the flags ask for that. */
  lemma GrantsMeans(x: Option<Access>, a: nat, flags: bv12)
    requires Grants(x, a, flags)
    ensures x.value.frame % 0x20_0000 == 0 && x.value.frame <= a < x.value.frame + 0x20_0000
    ensures x.value.leaf & 0x080 == 0x080 && x.value.leaf & flags == flags
    ensures x.value.rights & 0x002 == 0x002
    ensures flags & 0x004 == 0x004 ==> x.value.rights & 0x004 == 0x004
  {
  }

  /** The rights of a translation are those that none of its three entries lacks. */
  lemma RightsMean(w: Words, root: nat, i: nat, j: nat, k: nat, bit: bv12)
    requires Descend(w, root, i, j, k).Some? && bit in {0x001, 0x002, 0x004}
    ensures var e1 := Load(w, root, i); var e2 := Load(w, e1.base, j); var e3 := Load(w, e2.base, k);
      var x := Descend(w, root, i, j, k).value;
      && (x.rights & bit == bit <==> e1.flags & bit == bit && e2.flags & bit == bit && e3.flags & bit == bit)
      && e1.flags & 0x001 == 0x001 && e2.flags & 0x001 == 0x001 && e3.flags & 0x001 == 0x001
      && x.frame == e3.base && x.leaf == e3.flags
  {
  }

  /** A page mapped for the first time has the flags asked for, present, writable and huge, and no
      others; one that was mapped before gains the flags asked for and no others. */
  lemma LeafSetMeans(x: Option<Access>, y: Option<Access>, flags: bv12)
    requires LeafSet(x, y, flags)
    ensures x.None? ==> y.value.leaf == 0x083 | flags
    ensures x.Some? ==> y.value.leaf == x.value.leaf | flags
  {
  }

  /** A translation that a call only touches on its way keeps its place and its leaf; its rights are
      the old ones, or the old ones and the user bit when the flags ask for that. */
  lemma SteadyMeans(x: Option<Access>, y: Option<Access>, flags: bv12)
    requires Steady(x, y, UserBit(flags))
    ensures x.Some? <==> y.Some?
    ensures x.Some? ==> y.value.frame == x.value.frame && y.value.leaf == x.value.leaf
    ensures x.Some? ==> y.value.rights == x.value.rights || y.value.rights == x.value.rights | 0x004
    ensures flags & 0x004 == 0 ==> x == y
  {
    hide Has, More, UserBit;
    if x.Some? {
      RightsGrown(x.value.rights, y.value.rights, flags);
    }
  }

  lemma RightsGrown(r: bv12, s: bv12, f: bv12)
    requires Has(s, r) && Has(More(r, UserBit(f)), s)
    ensures s == r || s == r | 0x004
    ensures f & 0x004 == 0 ==> s == r
  {
    GainOne(r, s, f);
  }

  lemma GainOne(r: bv12, s: bv12, f: bv12)
    requires s & r == r && (r | (f & 0x004)) & s == s
    ensures s == r || s == r | 0x004
    ensures f & 0x004 == 0 ==> s == r
  {
  }

  /** Every address that translates at all translates to itself. */
  lemma WalkIsIdentity(l: Layout, s: State, h: Homes, a: nat)
    requires Inv(l, s, h) && Walk(s.words, l.pml4, a).Some?
    ensures a < LOWER_HALF_LIMIT && Grants(Walk(s.words, l.pml4, a), a, 0)
  {
    hide Base;
    if a >= LOWER_HALF_LIMIT {
      UpperHalf(a);
    } else {
      Indices(a);
    }
  }

  lemma UpperHalf(a: nat)
    requires TWO_64 - LOWER_HALF_LIMIT <= a < TWO_64
    ensures Index1(a) >= 256
  {
  }

  /** No table is linked from two slots. */
  lemma LinkedOnce(l: Layout, s: State, h: Homes, i: nat, i': nat, j: nat, j': nat)
    requires Inv(l, s, h) && Present(Load(s.words, l.pml4, i)) && Present(Load(s.words, l.pml4, i'))
    ensures var t, t' := Load(s.words, l.pml4, i).base, Load(s.words, l.pml4, i').base;
      var e, e' := Load(s.words, t, j), Load(s.words, t', j');
      && (t == t' ==> i == i')
      && (Present(e) && Present(e') && e.base == e'.base ==> i == i' && j == j')
  {
  }

  ghost predicate Elsewhere(w: Words, w': Words, root: nat, page: nat, gain: bv12) {
    forall a :: Page(a) != page ==> Steady(Walk(w, root, a), Walk(w', root, a), gain)
  }

  ghost predicate KeepsAll(w: Words, w': Words, root: nat) {
    forall a :: Kept(Walk(w, root, a), Walk(w', root, a))
  }

  ghost predicate GrantsPage(w: Words, root: nat, page: nat, flags: bv12) {
    forall a :: Page(a) == page ==> Grants(Walk(w, root, a), a, flags)
  }

  /** The page's leaf, present or new, has exactly the flags that mapping it gives. */
  ghost predicate PageSet(w: Words, w': Words, root: nat, page: nat, flags: bv12) {
    forall a :: Page(a) == page ==> LeafSet(Walk(w, root, a), Walk(w', root, a), flags)
  }

  predicate LeafSet(x: Option<Access>, y: Option<Access>, flags: bv12) {
    y.Some? && y.value.leaf == LeafFlags(x, flags)
  }

  /** The indices of a lower-half page are its own. */
  lemma OwnIndices(a: nat, b: nat)
    requires Canonical(a) && b < LOWER_HALF_LIMIT
    requires Index1(a) == Index1(b) && Index2(a) == Index2(b) && Index3(a) == Index3(b)
    ensures Page(a) == Page(b)
  {
    hide Index1, Index2, Index3, Base, Page;
    Indices(b);
    if a < LOWER_HALF_LIMIT {
      Indices(a);
    } else {
      UpperHalf(a);
    }
  }

  lemma SteadyWalks(w: Words, w': Words, root: nat, gain: bv12)
    requires AllSteady(w, w', root, gain)
    ensures forall page :: Elsewhere(w, w', root, page, gain)
    ensures KeepsAll(w, w', root)
  {
    hide Descend, Page, Index1, Index2, Index3, Canonical, Has, More;
    forall a ensures Steady(Walk(w, root, a), Walk(w', root, a), gain) && Kept(Walk(w, root, a), Walk(w', root, a)) {
      assert Steady(Descend(w, root, Index1(a), Index2(a), Index3(a)), Descend(w', root, Index1(a), Index2(a), Index3(a)), gain);
      if Walk(w, root, a).Some? {
        Reflexive(Walk(w, root, a).value.leaf);
      }
    }
  }

  /** A change of one leaf, seen by addresses. */
  lemma LeafWalks(w: Words, w': Words, w'': Words, root: nat, addr: nat, gain: bv12, flags: bv12)
    requires addr < LOWER_HALF_LIMIT && AllSteady(w, w', root, gain)
    requires LeafOnly(w', w'', root, Index1(addr), Index2(addr), Index3(addr), flags)
    ensures Elsewhere(w, w'', root, Page(addr), gain) && KeepsAll(w, w'', root)
    ensures forall a :: Page(a) == Page(addr) && Walk(w'', root, a).Some? ==>
      LeafSet(Walk(w, root, a), Walk(w'', root, a), flags)
  {
    hide Descend, Page, Index1, Index2, Index3, Canonical, Has, Steady, Kept, LeafSet;
    forall a: nat
      ensures Page(a) != Page(addr) ==> Steady(Walk(w, root, a), Walk(w'', root, a), gain)
      ensures Kept(Walk(w, root, a), Walk(w'', root, a))
      ensures Page(a) == Page(addr) && Walk(w'', root, a).Some? ==> LeafSet(Walk(w, root, a), Walk(w'', root, a), flags)
    {
      LeafWalk(w, w', w'', root, addr, a, gain, flags);
    }
  }

  lemma LeafWalk(w: Words, w': Words, w'': Words, root: nat, addr: nat, a: nat, gain: bv12, flags: bv12)
    requires addr < LOWER_HALF_LIMIT && AllSteady(w, w', root, gain)
    requires LeafOnly(w', w'', root, Index1(addr), Index2(addr), Index3(addr), flags)
    ensures Page(a) != Page(addr) ==> Steady(Walk(w, root, a), Walk(w'', root, a), gain)
    ensures Kept(Walk(w, root, a), Walk(w'', root, a))
    ensures Page(a) == Page(addr) && Walk(w'', root, a).Some? ==> LeafSet(Walk(w, root, a), Walk(w'', root, a), flags)
  {
    hide Descend, Page, Index1, Index2, Index3, Has, More;
    var i, j, k := Index1(a), Index2(a), Index3(a);
    var x, y, z := Descend(w, root, i, j, k), Descend(w', root, i, j, k), Descend(w'', root, i, j, k);
    var here := (i, j, k) == (Index1(addr), Index2(addr), Index3(addr));
    assert Steady(x, y, gain) && LeafChange(y, z, here, flags);
    if Page(a) == Page(addr) {
      SamePage(a, addr);
    } else if Canonical(a) && here {
      OwnIndices(a, addr);
    }
    if x.Some? {
      Transitive(z.value.rights, y.value.rights, x.value.rights);
    }
  }

  /** The page that the three levels now lead to. */
  lemma PageGranted(w: Words, root: nat, t: nat, u: nat, addr: nat, flags: bv12)
    requires addr < LOWER_HALF_LIMIT
    requires Leads(w, root, Index1(addr), t, flags) && Leads(w, t, Index2(addr), u, flags)
    requires var e := Load(w, u, Index3(addr));
      Present(e) && Has(e.flags, flags) && Leaf(e, Index1(addr), Index2(addr), Index3(addr))
    ensures GrantsPage(w, root, Page(addr), flags)
  {
    hide Page, Index1, Index2, Index3, Has, Base, Shared, Load, UserBit;
    Indices(addr);
    var e1, e2, e3 := Load(w, root, Index1(addr)), Load(w, t, Index2(addr)), Load(w, u, Index3(addr));
    LeafBits(e3.flags, flags);
    SharedHas(e1.flags, e2.flags, e3.flags, WRITABLE, Shared(e1.flags, e2.flags, e3.flags));
    SharedHas(e1.flags, e2.flags, e3.flags, UserBit(flags), Shared(e1.flags, e2.flags, e3.flags));
    forall a | Page(a) == Page(addr) ensures Grants(Walk(w, root, a), a, flags) {
      SamePage(a, addr);
      PageBound(a, addr);
    }
  }

  lemma PageBound(a: nat, b: nat)
    requires Page(a) == Page(b) && b < LOWER_HALF_LIMIT
    ensures a < LOWER_HALF_LIMIT
  {
  }

  lemma SharedHas(f: bv12, g: bv12, k: bv12, bits: bv12, r: bv12)
    requires Has(f, bits) && Has(g, bits) && Has(k, bits) && r == Shared(f, g, k)
    ensures Has(r, bits)
  {
  }

  lemma LeafBits(k: bv12, flags: bv12)
    requires Has(k, WRITABLE | HUGE) && Has(k, flags)
    ensures Has(k, WRITABLE) && Has(k, HUGE) && Has(k, UserBit(flags))
  {
  }

  // ---------------------------------------------------------------- the class

  lemma SteadySelf(w: Words, root: nat, gain: bv12)
    ensures AllSteady(w, w, root, gain)
  {
    hide Descend, Has, More;
    forall i, j, k ensures Steady(Descend(w, root, i, j, k), Descend(w, root, i, j, k), gain) {
      SameSteady(Descend(w, root, i, j, k), gain);
    }
  }

  lemma GainTwice(x: bv12, y: bv12, z: bv12, gain: bv12)
    requires Has(More(x, gain), y) && Has(More(y, gain), z)
    ensures Has(More(x, gain), z)
  {
  }

  lemma SteadyTrans(x: Option<Access>, y: Option<Access>, z: Option<Access>, gain: bv12)
    requires Steady(x, y, gain) && Steady(y, z, gain)
    ensures Steady(x, z, gain)
  {
    hide Has, More;
    if x.Some? {
      Transitive(z.value.rights, y.value.rights, x.value.rights);
      GainTwice(x.value.rights, y.value.rights, z.value.rights, gain);
    }
  }

  lemma AllSteadyTrans(w: Words, w': Words, w'': Words, root: nat, gain: bv12)
    requires AllSteady(w, w', root, gain) && AllSteady(w', w'', root, gain)
    ensures AllSteady(w, w'', root, gain)
  {
    hide Descend, Steady;
    forall i, j, k ensures Steady(Descend(w, root, i, j, k), Descend(w'', root, i, j, k), gain) {
      assert Steady(Descend(w, root, i, j, k), Descend(w', root, i, j, k), gain);
      assert Steady(Descend(w', root, i, j, k), Descend(w'', root, i, j, k), gain);
      SteadyTrans(Descend(w, root, i, j, k), Descend(w', root, i, j, k), Descend(w'', root, i, j, k), gain);
    }
  }

  lemma Unmapped(w: Words, root: nat, a: nat)
    requires !HasMiddle(w, root, Index1(a), Index2(a))
    ensures Walk(w, root, a).None?
  {
    hide Has;
  }

  lemma BelowLimit(a: nat)
    requires Page(a) < LOWER_HALF_LIMIT
    ensures a < LOWER_HALF_LIMIT && Index1(a) < 256 && Index2(a) < 512 && Index3(a) < 512
    ensures Page(a) == Base(Index1(a), Index2(a), Index3(a))
  {
    hide Base;
    Indices(a);
  }

  /** The tables that root slot `i` and middle slot `j` still need are there. */
  predicate Room(s: State, root: nat, i: nat, j: nat) {
    && (Present(Load(s.words, root, i)) || s.nextPdpt < PDPT_POOL)
    && (HasMiddle(s.words, root, i, j) || s.nextPd < PD_POOL)
  }

  // ---------------------------------------------------------------- ranges

  /** The end of a range, rounded up to a whole page modulo 2^64. */
  function RangeEnd(phys: nat, length: nat): nat {
    Page((phys + length + HUGE_PAGE_SIZE - 1) % TWO_64)
  }

  /** The range is one that `vmm_map_range_identity` tries to map. */
  predicate RangeFits(phys: nat, length: nat) {
    Page(phys) <= RangeEnd(phys, length) <= LOWER_HALF_LIMIT
  }

  /** Of ranges whose rounded end does not wrap, exactly those below the limit are accepted; the end
      is the first page border behind them. */
  lemma RangeAccepted(phys: nat, length: nat)
    requires length > 0 && phys + length + HUGE_PAGE_SIZE - 1 < TWO_64
    ensures RangeFits(phys, length) <==> phys + length <= 0x8000_0000_0000
    ensures RangeEnd(phys, length) % 0x20_0000 == 0
    ensures phys + length <= RangeEnd(phys, length) < phys + length + 0x20_0000
  {
  }

  ghost predicate OutsideSteady(w: Words, w': Words, root: nat, from: nat, to: nat, gain: bv12) {
    forall a: nat :: !(from <= a < to) ==> Steady(Walk(w, root, a), Walk(w', root, a), gain)
  }

  ghost predicate RangeSet(w: Words, w': Words, root: nat, from: nat, to: nat, flags: bv12) {
    forall a :: from <= a < to ==> LeafSet(Walk(w, root, a), Walk(w', root, a), flags)
  }

  ghost predicate RangeGranted(w: Words, root: nat, from: nat, to: nat, flags: bv12) {
    forall a :: from <= a < to ==> Grants(Walk(w, root, a), a, flags)
  }

  /** The address of byte `o` of a range that starts at `phys`. */
  function AskedFor(phys: nat, o: nat): nat {
    (phys + o) % TWO_64
  }

  /** Every byte asked for is mapped, addresses wrapping as the caller's pointers do. */
  ghost predicate Covered(w: Words, root: nat, phys: nat, length: nat) {
    forall o: nat :: o < length ==> Walk(w, root, AskedFor(phys, o)).Some?
  }

  /** A successful call has mapped every byte asked for, unless rounding up the end wraps. */
  lemma RangeCoverage(l: Layout, s: State, h: Homes, phys: nat, length: nat, flags: bv12)
    requires Inv(l, s, h) && phys < TWO_64 && 0 < length < TWO_64 && RangeFits(phys, length)
    requires RangeGranted(s.words, l.pml4, Page(phys), RangeEnd(phys, length), flags)
    ensures Covered(s.words, l.pml4, phys, length) <==> phys + length + HUGE_PAGE_SIZE - 1 < TWO_64
  {
    hide Walk, Inv, Has;
    if phys + length + HUGE_PAGE_SIZE - 1 < TWO_64 {
      forall o: nat | o < length ensures Walk(s.words, l.pml4, AskedFor(phys, o)).Some? {
        assert Grants(Walk(s.words, l.pml4, phys + o), phys + o, flags);
      }
    } else {
      var a := if phys + length > TWO_64 then TWO_64 - 1 else phys + length - 1;
      assert AskedFor(phys, a - phys) == a;
      if Walk(s.words, l.pml4, a).Some? {
        WalkIsIdentity(l, s, h, a);
      }
    }
  }

  /** A range that wraps can be accepted: the first megabyte upwards "to the end of memory" maps
      one page. */
  lemma WrappingRangeFits()
    ensures RangeFits(0x10_0000, TWO_64 - 1) && RangeEnd(0x10_0000, TWO_64 - 1) == HUGE_PAGE_SIZE
  {
  }

  lemma RangePages(phys: nat, length: nat)
    ensures Page(Page(phys)) == Page(phys) && Page(RangeEnd(phys, length)) == RangeEnd(phys, length)
  {
  }

  lemma NothingAsked(w: Words, root: nat, phys: nat)
    ensures Covered(w, root, phys, 0)
  {
  }

  lemma KeepsSelf(w: Words, root: nat)
    ensures KeepsAll(w, w, root)
  {
    hide Walk;
  }

  lemma KeepsAllTrans(w: Words, w': Words, w'': Words, root: nat)
    requires KeepsAll(w, w', root) && KeepsAll(w', w'', root)
    ensures KeepsAll(w, w'', root)
  {
    hide Walk, Has;
    forall a ensures Kept(Walk(w, root, a), Walk(w'', root, a)) {
      var x, y, z := Walk(w, root, a), Walk(w', root, a), Walk(w'', root, a);
      assert Kept(x, y) && Kept(y, z);
      if x.Some? {
        Transitive(z.value.rights, y.value.rights, x.value.rights);
        Transitive(z.value.leaf, y.value.leaf, x.value.leaf);
      }
    }
  }

  /** One more page at the end of a range. */
  lemma OutsideTrans(w: Words, w': Words, w'': Words, root: nat, from: nat, addr: nat, gain: bv12)
    requires OutsideSteady(w, w', root, from, addr, gain) && Elsewhere(w', w'', root, addr, gain)
    requires from <= addr && Page(addr) == addr
    ensures OutsideSteady(w, w'', root, from, addr + HUGE_PAGE_SIZE, gain)
  {
    hide Walk, Has, Steady;
    forall a: nat | !(from <= a < addr + HUGE_PAGE_SIZE) ensures Steady(Walk(w, root, a), Walk(w'', root, a), gain) {
      assert Steady(Walk(w, root, a), Walk(w', root, a), gain) && Steady(Walk(w', root, a), Walk(w'', root, a), gain);
      SteadyTrans(Walk(w, root, a), Walk(w', root, a), Walk(w'', root, a), gain);
    }
  }

  lemma SetTrans(w: Words, w': Words, w'': Words, root: nat, from: nat, addr: nat, gain: bv12, flags: bv12)
    requires OutsideSteady(w, w', root, from, addr, gain) && Elsewhere(w', w'', root, addr, gain)
    requires from <= addr && Page(addr) == addr
    requires RangeSet(w, w', root, from, addr, flags) && PageSet(w', w'', root, addr, flags)
    ensures RangeSet(w, w'', root, from, addr + HUGE_PAGE_SIZE, flags)
  {
    hide Walk, Has, More;
    forall a | from <= a < addr + HUGE_PAGE_SIZE ensures LeafSet(Walk(w, root, a), Walk(w'', root, a), flags) {
      if a < addr {
        assert LeafSet(Walk(w, root, a), Walk(w', root, a), flags) && Steady(Walk(w', root, a), Walk(w'', root, a), gain);
      } else {
        assert LeafSet(Walk(w', root, a), Walk(w'', root, a), flags) && Steady(Walk(w, root, a), Walk(w', root, a), gain);
      }
    }
  }

  lemma GrantedTrans(w: Words, w': Words, root: nat, from: nat, addr: nat, flags: bv12)
    requires RangeGranted(w, root, from, addr, flags) && KeepsAll(w, w', root)
    requires from <= addr && Page(addr) == addr && GrantsPage(w', root, addr, flags)
    ensures RangeGranted(w', root, from, addr + HUGE_PAGE_SIZE, flags)
  {
    hide Walk, Has, UserBit;
    forall a | from <= a < addr + HUGE_PAGE_SIZE ensures Grants(Walk(w', root, a), a, flags) {
      if a < addr {
        GrantsKept(Walk(w, root, a), Walk(w', root, a), a, flags);
      }
    }
  }

  lemma GrantsKept(x: Option<Access>, y: Option<Access>, a: nat, flags: bv12)
    requires Grants(x, a, flags) && Kept(x, y)
    ensures Grants(y, a, flags)
  {
    hide Has, UserBit, Page;
    Transitive(y.value.leaf, x.value.leaf, HUGE);
    Transitive(y.value.leaf, x.value.leaf, flags);
    Transitive(y.value.rights, x.value.rights, WRITABLE);
    Transitive(y.value.rights, x.value.rights, UserBit(flags));
  }

  /** The tables while the boot code fills in the first third-level table. */
  ghost predicate BootTables(l: Layout, w: Words, n: nat) {
    forall t: nat, i: nat :: (Load(w, t, i) ==
      if t == l.pml4 && i == 0 then Entry(l.pdpt, PRESENT | WRITABLE)
      else if t == l.pdpt && i == 0 then Entry(l.pd, PRESENT | WRITABLE)
      else if t == l.pd && i < n then Entry(i * HUGE_PAGE_SIZE, PRESENT | WRITABLE | HUGE)
      else ZERO)
  }

  lemma BootStep(l: Layout, w: Words, k: nat)
    requires WellPlaced(l) && BootTables(l, w, k)
    ensures BootTables(l, w[(l.pd, k) := Entry(k * HUGE_PAGE_SIZE, PRESENT | WRITABLE | HUGE)], k + 1)
  {
    var w' := w[(l.pd, k) := Entry(k * HUGE_PAGE_SIZE, PRESENT | WRITABLE | HUGE)];
    forall t: nat, i: nat
      ensures Load(w', t, i) == if (t, i) == (l.pd, k) then w'[(l.pd, k)] else Load(w, t, i)
    {
    }
  }

  lemma BootInv(l: Layout, s: State, h: Homes)
    requires WellPlaced(l) && BootTables(l, s.words, 512) && s.nextPdpt == 0 && s.nextPd == 0
    requires h == Homes(map[l.pdpt := 0], map[l.pd := (0, 0)])
    ensures Inv(l, s, h)
  {
  }

  lemma BootWalks(l: Layout, w: Words)
    requires WellPlaced(l) && BootTables(l, w, 512)
    ensures forall a: nat :: Walk(w, l.pml4, a).Some? <==> a < 0x4000_0000
  {
    forall a: nat ensures Walk(w, l.pml4, a).Some? <==> a < 0x4000_0000 {
      BootWalk(l, w, a);
    }
  }

  lemma BootWalk(l: Layout, w: Words, a: nat)
    requires WellPlaced(l) && BootTables(l, w, 512)
    ensures Walk(w, l.pml4, a).Some? <==> a < 0x4000_0000
  {
    hide Index1, Index2, Index3;
    if a < LOWER_HALF_LIMIT {
      LowIndices(a);
    } else if Canonical(a) {
      UpperHalf(a);
    }
  }

  lemma LowIndices(a: nat)
    requires a < LOWER_HALF_LIMIT
    ensures Index1(a) == 0 && Index2(a) == 0 <==> a < 0x4000_0000
    ensures Index3(a) < 512
  {
  }

  class AddressSpace {
    const layout: Layout
    var words: Words
    var nextPdpt: nat
    var nextPd: nat
    ghost var homes: Homes

    ghost predicate Valid()
      reads this
    {
      WellPlaced(layout) && Inv(layout, Now(), homes)
    }

    function Now(): State
      reads this
    {
      State(words, nextPdpt, nextPd)
    }

    /** The tables of the boot code: the first 1 GiB mapped onto itself. */
    constructor (place: Layout)
      requires WellPlaced(place)
      ensures Valid() && layout == place && nextPdpt == 0 && nextPd == 0
      ensures forall a: nat :: Walk(words, layout.pml4, a).Some? <==> a < 0x4000_0000
    {
      layout := place;
      nextPdpt, nextPd := 0, 0;
      homes := Homes(map[place.pdpt := 0], map[place.pd := (0, 0)]);
      words := map[];
      new;
      words := words[(layout.pml4, 0) := Entry(layout.pdpt, PRESENT | WRITABLE)];
      words := words[(layout.pdpt, 0) := Entry(layout.pd, PRESENT | WRITABLE)];
      var k := 0;
      while k < 512
        invariant k <= 512 && homes == Homes(map[layout.pdpt := 0], map[layout.pd := (0, 0)])
        invariant BootTables(layout, words, k)
        invariant nextPdpt == 0 && nextPd == 0
      {
        BootStep(layout, words, k);
        words := words[(layout.pd, k) := Entry(k * HUGE_PAGE_SIZE, PRESENT | WRITABLE | HUGE)];
        k := k + 1;
      }
      BootInv(layout, Now(), homes);
      BootWalks(layout, words);
    }

    /** The second-level table for root slot `i`, taken from the pool and linked when missing. */
    method RootTable(i: nat, flags: bv12) returns (t: Option<nat>)
      requires Valid() && i < 256
      modifies this
      ensures Valid() && nextPd == old(nextPd)
      ensures t.Some? <==> old(Present(Load(words, layout.pml4, i)) || nextPdpt < PDPT_POOL)
      ensures t.None? ==> Now() == old(Now()) && nextPdpt == PDPT_POOL
      ensures t.Some? ==> t.value in homes.second && homes.second[t.value] == i
      ensures t.Some? ==> Leads(words, layout.pml4, i, t.value, flags)
      ensures AllSteady(old(words), words, layout.pml4, UserBit(flags))
      ensures t.Some? ==>
        forall j :: (Present(Load(words, t.value, j)) <==> old(HasMiddle(words, layout.pml4, i, j)))
    {
      hide Has, More, Descend;
      var e := Load(words, layout.pml4, i);
      if !Present(e) {
        if nextPdpt >= PDPT_POOL {
          SteadySelf(words, layout.pml4, UserBit(flags));
          return None;
        }
        var table := layout.pdpts[nextPdpt];
        Link1(layout, Now(), homes, i, flags);
        words := Store(Zeroed(words, table), layout.pml4, i, Entry(table, PRESENT | WRITABLE | UserBit(flags)));
        nextPdpt := nextPdpt + 1;
        homes := homes.(second := homes.second[table := i]);
        return Some(table);
      }
      EnrichUpper(layout, Now(), homes, layout.pml4, i, flags);
      words := Store(words, layout.pml4, i, Add(e, UserBit(flags)));
      t := Some(e.base);
    }

    /** The third-level table for slot `j` of second-level table `t`. */
    method MiddleTable(t: nat, j: nat, flags: bv12) returns (u: Option<nat>)
      requires Valid() && t in homes.second && j < 512
      modifies this
      ensures Valid() && homes.second == old(homes.second)
      ensures u.Some? <==> old(Present(Load(words, t, j)) || nextPd < PD_POOL)
      ensures u.None? ==> Now() == old(Now()) && nextPd == PD_POOL
      ensures u.Some? ==> u.value in homes.third && homes.third[u.value] == (homes.second[t], j)
      ensures u.Some? ==> Leads(words, t, j, u.value, flags)
      ensures forall i :: Load(words, layout.pml4, i) == old(Load(words, layout.pml4, i))
      ensures AllSteady(old(words), words, layout.pml4, UserBit(flags))
    {
      hide Has, More, Descend;
      var e := Load(words, t, j);
      if !Present(e) {
        if nextPd >= PD_POOL {
          SteadySelf(words, layout.pml4, UserBit(flags));
          return None;
        }
        var table := layout.pds[nextPd];
        Link2(layout, Now(), homes, t, j, flags);
        words := Store(Zeroed(words, table), t, j, Entry(table, PRESENT | WRITABLE | UserBit(flags)));
        nextPd := nextPd + 1;
        homes := homes.(third := homes.third[table := (homes.second[t], j)]);
        return Some(table);
      }
      EnrichUpper(layout, Now(), homes, t, j, flags);
      words := Store(words, t, j, Add(e, UserBit(flags)));
      u := Some(e.base);
    }

    /** The leaf for the page `aligned` in slot `k` of third-level table `t`. */
    method SetLeaf(t: nat, k: nat, aligned: nat, flags: bv12)
      requires Valid() && t in homes.third && k < 512
      requires aligned == Base(homes.third[t].0, homes.third[t].1, k)
      requires Reached(words, layout.pml4, homes.third[t].0, homes.third[t].1, t)
      modifies this
      ensures Valid() && nextPdpt == old(nextPdpt) && nextPd == old(nextPd) && homes == old(homes)
      ensures Leaf(Load(words, t, k), homes.third[t].0, homes.third[t].1, k)
      ensures Present(Load(words, t, k)) && Has(Load(words, t, k).flags, flags)
      ensures forall u: nat, i: nat :: u == layout.pml4 || u in homes.second ==> Load(words, u, i) == old(Load(words, u, i))
      ensures LeafOnly(old(words), words, layout.pml4, homes.third[t].0, homes.third[t].1, k, flags)
    {
      hide Has, More, Descend, Base;
      var e := Load(words, t, k);
      if !Present(e) {
        NewLeaf(layout, Now(), homes, t, k, flags);
        words := Store(words, t, k, Entry(aligned, PRESENT | WRITABLE | HUGE | flags));
      } else {
        EnrichLeaf(layout, Now(), homes, t, k, flags);
        words := Store(words, t, k, Add(e, flags));
      }
    }

    /** One 2 MiB page mapped onto itself. It fails exactly for an upper-half address and when a
        missing table finds its pool used up; even then nothing that was mapped is lost. */
    method MapHuge(addr: nat, flags: bv12) returns (ok: bool)
      requires Valid() && addr < TWO_64
      modifies this
      ensures Valid()
      ensures ok <==> Page(addr) < LOWER_HALF_LIMIT && old(Room(Now(), layout.pml4, Index1(addr), Index2(addr)))
      ensures Elsewhere(old(words), words, layout.pml4, Page(addr), UserBit(flags))
      ensures KeepsAll(old(words), words, layout.pml4)
      ensures ok ==> GrantsPage(words, layout.pml4, Page(addr), flags) && PageSet(old(words), words, layout.pml4, Page(addr), flags)
      ensures !ok ==> AllSteady(old(words), words, layout.pml4, UserBit(flags))
      ensures !ok && Page(addr) < LOWER_HALF_LIMIT ==>
        Walk(words, layout.pml4, addr).None? && (nextPdpt == PDPT_POOL || nextPd == PD_POOL)
    {
      hide Has, More, Descend, Base, Page, Index1, Index2, Index3, Inv, WellPlaced, LeafOnly, AllSteady, LeafSet, UserBit;
      var aligned := Page(addr);
      if aligned >= LOWER_HALF_LIMIT {
        SteadySelf(words, layout.pml4, UserBit(flags));
        SteadyWalks(words, words, layout.pml4, UserBit(flags));
        return false;
      }
      BelowLimit(addr);
      var w := words;
      var i, j, k := Index1(addr), Index2(addr), Index3(addr);
      var pdpt := RootTable(i, flags);
      if pdpt.None? {
        Unmapped(words, layout.pml4, addr);
        SteadyWalks(w, words, layout.pml4, UserBit(flags));
        return false;
      }
      ghost var w1 := words;
      var pd := MiddleTable(pdpt.value, j, flags);
      AllSteadyTrans(w, w1, words, layout.pml4, UserBit(flags));
      if pd.None? {
        Unmapped(words, layout.pml4, addr);
        SteadyWalks(w, words, layout.pml4, UserBit(flags));
        return false;
      }
      ghost var w2 := words;
      SetLeaf(pd.value, k, aligned, flags);
      LeafWalks(w, w2, words, layout.pml4, addr, UserBit(flags), flags);
      PageGranted(words, layout.pml4, pdpt.value, pd.value, addr, flags);
      return true;
    }

    /** A page that is asked to be mapped elsewhere is refused. */
    method MapPage(virt: nat, phys: nat, flags: bv12) returns (ok: bool)
      requires Valid() && virt < TWO_64 && phys < TWO_64
      modifies this
      ensures Valid() && KeepsAll(old(words), words, layout.pml4)
      ensures virt != phys ==> !ok && Now() == old(Now())
      ensures virt == phys ==>
        (ok <==> Page(virt) < LOWER_HALF_LIMIT && old(Room(Now(), layout.pml4, Index1(virt), Index2(virt))))
      ensures Elsewhere(old(words), words, layout.pml4, Page(virt), UserBit(flags))
      ensures ok ==> GrantsPage(words, layout.pml4, Page(virt), flags) && PageSet(old(words), words, layout.pml4, Page(virt), flags)
    {
      hide Inv, Walk, WellPlaced, Steady, Kept, Grants, AllSteady;
      if virt != phys {
        SteadySelf(words, layout.pml4, UserBit(flags));
        SteadyWalks(words, words, layout.pml4, UserBit(flags));
        return false;
      }
      ok := MapHuge(phys, flags);
    }

    /** A range of pages. It succeeds exactly when it is empty, or fits and ends up mapped; failing
        on a range that fits means that a table pool is used up. */
    method MapRange(phys: nat, length: nat, flags: bv12) returns (ok: bool)
      requires Valid() && phys < TWO_64 && length < TWO_64
      modifies this
      ensures Valid() && KeepsAll(old(words), words, layout.pml4)
      ensures OutsideSteady(old(words), words, layout.pml4, Page(phys), RangeEnd(phys, length), UserBit(flags))
      ensures length == 0 || !RangeFits(phys, length) ==> ok == (length == 0) && Now() == old(Now())
      ensures ok && length > 0 ==>
        && RangeGranted(words, layout.pml4, Page(phys), RangeEnd(phys, length), flags)
        && RangeSet(old(words), words, layout.pml4, Page(phys), RangeEnd(phys, length), flags)
      ensures ok ==> (Covered(words, layout.pml4, phys, length) <==>
        length == 0 || phys + length + HUGE_PAGE_SIZE - 1 < TWO_64)
      ensures !ok && RangeFits(phys, length) ==>
        && (nextPdpt == PDPT_POOL || nextPd == PD_POOL)
        && exists a :: Page(phys) <= a < RangeEnd(phys, length) && Walk(words, layout.pml4, a).None?
    {
      hide Inv, Walk, AllSteady, Room, WellPlaced, Steady, Kept, Grants, Has, LeafSet, UserBit, OutsideSteady, RangeSet, RangeGranted, KeepsAll, Page, RangeEnd, AskedFor, Covered;
      RangePages(phys, length);
      var start, end := Page(phys), RangeEnd(phys, length);
      if length == 0 || end < start || end > LOWER_HALF_LIMIT {
        KeepsSelf(words, layout.pml4);
        SteadySelf(words, layout.pml4, UserBit(flags));
        SteadyWalks(words, words, layout.pml4, UserBit(flags));
        AllOutside(words, words, layout.pml4, start, end, UserBit(flags));
        NothingAsked(words, layout.pml4, phys);
        return length == 0;
      }
      ok := MapPages(start, end, flags);
      if ok {
        RangeCoverage(layout, Now(), homes, phys, length, flags);
      }
    }

    method MapPages(start: nat, end: nat, flags: bv12) returns (ok: bool)
      requires Valid() && Page(start) == start && Page(end) == end && start <= end <= LOWER_HALF_LIMIT
      modifies this
      ensures Valid() && KeepsAll(old(words), words, layout.pml4)
      ensures OutsideSteady(old(words), words, layout.pml4, start, end, UserBit(flags))
      ensures ok ==> RangeGranted(words, layout.pml4, start, end, flags) && RangeSet(old(words), words, layout.pml4, start, end, flags)
      ensures !ok ==>
        && (nextPdpt == PDPT_POOL || nextPd == PD_POOL)
        && exists a :: start <= a < end && Walk(words, layout.pml4, a).None?
    {
      hide Inv, Walk, AllSteady, Room, WellPlaced, Steady, Kept, Grants, Has, LeafSet, UserBit;
      SteadySelf(words, layout.pml4, UserBit(flags));
      SteadyWalks(words, words, layout.pml4, UserBit(flags));
      AllOutside(words, words, layout.pml4, start, start, UserBit(flags));
      var addr := start;
      while addr < end
        invariant Valid() && start <= addr <= end && Page(addr) == addr
        invariant KeepsAll(old(words), words, layout.pml4)
        invariant OutsideSteady(old(words), words, layout.pml4, start, addr, UserBit(flags))
        invariant RangeGranted(words, layout.pml4, start, addr, flags)
        invariant RangeSet(old(words), words, layout.pml4, start, addr, flags)
      {
        ghost var w := words;
        ok := MapHuge(addr, flags);
        KeepsAllTrans(old(words), w, words, layout.pml4);
        OutsideTrans(old(words), w, words, layout.pml4, start, addr, UserBit(flags));
        if !ok {
          OutsideWider(old(words), words, layout.pml4, start, addr + HUGE_PAGE_SIZE, end, UserBit(flags));
          return false;
        }
        GrantedTrans(w, words, layout.pml4, start, addr, flags);
        SetTrans(old(words), w, words, layout.pml4, start, addr, UserBit(flags), flags);
        addr := addr + HUGE_PAGE_SIZE;
      }
      return true;
    }
  }

  lemma AllOutside(w: Words, w': Words, root: nat, from: nat, to: nat, gain: bv12)
    requires AllSteady(w, w', root, gain)
    ensures OutsideSteady(w, w', root, from, to, gain)
  {
    hide Descend, Index1, Index2, Index3, Has, More;
  }

  lemma OutsideWider(w: Words, w': Words, root: nat, from: nat, to: nat, end: nat, gain: bv12)
    requires OutsideSteady(w, w', root, from, to, gain) && to <= end
    ensures OutsideSteady(w, w', root, from, end, gain)
  {
    hide Walk, Steady;
  }
}
