/** Reading the sections of a wireless firmware image (kernel/drivers/net/iwlwifi.c): a walk over
    type-length-value records that keeps the sections it finds sorted by load offset. */
module FirmwareTlv {
  import opened Basics
  import opened Bytes
  import opened Wrappers

  const HEADER := 88
  const SECTION_MAX := 96
  const MAIN_TEXT := 1
  const MAIN_DATA := 2
  const INIT_TEXT := 3
  const INIT_DATA := 4
  const BOOT_TEXT := 5
  const FLAGS := 18
  const SEC_RT := 19
  const SEC_INIT := 20
  const API_CHANGES := 29
  const CAPABILITIES := 30

  // ---------------------------------------------------------------- records

  /** A record: its type, its alternative, and where its `len` bytes start. */
  datatype Tlv = Tlv(kind: nat, alt: nat, at: nat, len: nat)

  function Word(image: seq<byte>, at: nat): nat
    requires at + 4 <= |image|
  {
    Le(image[at..at + 4])
  }

  function TlvAt(image: seq<byte>, pos: nat): Tlv
    requires pos + 8 <= |image|
  {
    Tlv(Le(image[pos..pos + 2]), Le(image[pos + 2..pos + 4]), pos + 8, Word(image, pos + 4))
  }

  /** `(len + 3u) & ~3u` */
  function Padded(len: nat): nat {
    var n := (len + 3) % TWO_32;
    n - n % 4
  }

  function After(t: Tlv): nat {
    t.at + Padded(t.len)
  }

  /** The records from `pos` on, up to one that reaches beyond the image. */
  function TlvsFrom(image: seq<byte>, pos: nat): seq<Tlv>
    decreases |image| - pos
  {
    if pos + 8 > |image| then [] else
    var t := TlvAt(image, pos);
    if t.at + t.len > |image| then [] else [t] + TlvsFrom(image, After(t))
  }

  /** Some record reaches beyond the image. */
  predicate Overruns(image: seq<byte>, pos: nat)
    decreases |image| - pos
  {
    pos + 8 <= |image| &&
    var t := TlvAt(image, pos);
    t.at + t.len > |image| || Overruns(image, After(t))
  }

  /** The highest of the alternatives 1 to 3 that the mask names, or 0. */
  function Alternative(mask: nat): nat {
    if mask / 8 % 2 == 1 then 3 else if mask / 4 % 2 == 1 then 2 else if mask / 2 % 2 == 1 then 1 else 0
  }

  // ---------------------------------------------------------------- sorted sections

  /** A section: where it is loaded, and which bytes of the image it is. */
  datatype Section = Section(offset: nat, at: nat, size: nat)

  predicate Sorted(s: seq<Section>) {
    forall i, j :: 0 <= i < j < |s| ==> s[i].offset <= s[j].offset
  }

  /** The sections loaded at `offset`, in order. */
  function Loaded(s: seq<Section>, offset: nat): seq<Section> {
    if s == [] then []
    else Loaded(s[..|s| - 1], offset) + if s[|s| - 1].offset == offset then [s[|s| - 1]] else []
  }

  /** `x` put behind all sections that are not loaded above it. */
  function Insert(s: seq<Section>, x: Section): (r: seq<Section>)
    ensures |r| == |s| + 1
  {
    if s == [] || s[|s| - 1].offset <= x.offset then s + [x]
    else Insert(s[..|s| - 1], x) + [s[|s| - 1]]
  }

  lemma {:induction false} InsertSorted(s: seq<Section>, x: Section)
    requires Sorted(s)
    ensures Sorted(Insert(s, x))
    ensures forall y :: y in Insert(s, x) ==> y in s || y == x
  {
    if s != [] && s[|s| - 1].offset > x.offset {
      var t, last := s[..|s| - 1], s[|s| - 1];
      InsertSorted(t, x);
      var r := Insert(t, x);
      forall i | 0 <= i < |r| ensures r[i].offset <= last.offset {
        assert r[i] in r;
      }
      assert Insert(s, x) == r + [last];
    }
  }

  /** Inserting keeps the order among sections with the same offset, the new one last. */
  lemma {:induction false} InsertStable(s: seq<Section>, x: Section, offset: nat)
    ensures Loaded(Insert(s, x), offset) == Loaded(s + [x], offset)
  {
    if s != [] && s[|s| - 1].offset > x.offset {
      var n := |s| - 1;
      InsertStable(s[..n], x, offset);
      LoadedSnoc(Insert(s[..n], x), s[n], offset);
      LoadedSnoc(s[..n], x, offset);
      LoadedSnoc(s, x, offset);
    }
  }

  lemma LoadedLast(s: seq<Section>, offset: nat)
    requires s != []
    ensures var t, x := s[..|s| - 1], s[|s| - 1];
      Loaded(s, offset) == if x.offset == offset then Loaded(t, offset) + [x] else Loaded(t, offset)
  {
  }

  lemma LoadedSnoc(s: seq<Section>, x: Section, offset: nat)
    ensures Loaded(s + [x], offset) == if x.offset == offset then Loaded(s, offset) + [x] else Loaded(s, offset)
  {
    assert (s + [x])[..|s|] == s;
  }

  /** The insertion sort as a whole. */
  function InsertAll(s: seq<Section>): (r: seq<Section>)
    ensures |r| == |s|
  {
    if s == [] then [] else Insert(InsertAll(s[..|s| - 1]), s[|s| - 1])
  }

  lemma {:induction false} StableSort(s: seq<Section>)
    ensures Sorted(InsertAll(s))
    ensures forall offset :: Loaded(InsertAll(s), offset) == Loaded(s, offset)
  {
    if s != [] {
      hide Loaded, Insert;
      var n := |s| - 1;
      StableSort(s[..n]);
      InsertSorted(InsertAll(s[..n]), s[n]);
      forall offset ensures Loaded(InsertAll(s), offset) == Loaded(s, offset) {
        InsertStable(InsertAll(s[..n]), s[n], offset);
        LoadedSnoc(InsertAll(s[..n]), s[n], offset);
        LoadedLast(s, offset);
      }
    }
  }

  /** Sorted and stable determine the result: no other sequence is both. */
  lemma {:induction false} StableSortUnique(s: seq<Section>, r: seq<Section>)
    requires Sorted(s) && Sorted(r) && forall offset :: Loaded(s, offset) == Loaded(r, offset)
    ensures s == r
  {
    if s == [] || r == [] {
      NothingLoaded(s, r);
      NothingLoaded(r, s);
    } else {
      SameLast(s, r);
      var t, u := s[..|s| - 1], r[..|r| - 1];
      forall offset ensures Loaded(t, offset) == Loaded(u, offset) {
        WithoutLast(s, r, offset);
      }
      StableSortUnique(t, u);
    }
  }

  lemma NothingLoaded(s: seq<Section>, r: seq<Section>)
    requires forall offset :: Loaded(s, offset) == Loaded(r, offset)
    ensures s == [] ==> r == []
  {
    if r != [] {
      var offset := r[|r| - 1].offset;
      assert Loaded(s, offset) == Loaded(r, offset);
    }
  }

  lemma WithoutLast(s: seq<Section>, r: seq<Section>, offset: nat)
    requires s != [] && r != [] && s[|s| - 1] == r[|r| - 1] && Loaded(s, offset) == Loaded(r, offset)
    ensures Loaded(s[..|s| - 1], offset) == Loaded(r[..|r| - 1], offset)
  {
    hide Loaded;
    LoadedLast(s, offset);
    LoadedLast(r, offset);
    if s[|s| - 1].offset == offset {
      SameInit(Loaded(s[..|s| - 1], offset), Loaded(r[..|r| - 1], offset), s[|s| - 1]);
    }
  }

  lemma SameInit(a: seq<Section>, b: seq<Section>, x: Section)
    requires a + [x] == b + [x]
    ensures a == b
  {
    assert a == (a + [x])[..|a|] && b == (b + [x])[..|b|];
  }

  lemma SameLast(s: seq<Section>, r: seq<Section>)
    requires Sorted(s) && Sorted(r) && s != [] && r != [] && forall offset :: Loaded(s, offset) == Loaded(r, offset)
    ensures s[|s| - 1] == r[|r| - 1]
  {
    hide Loaded;
    var x, y := s[|s| - 1], r[|r| - 1];
    LoadedLast(s, x.offset);
    LoadedLast(r, y.offset);
    assert Loaded(r, x.offset) == Loaded(s, x.offset);
    assert Loaded(s, y.offset) == Loaded(r, y.offset);
    LoadedIsThere(r, x.offset);
    LoadedIsThere(s, y.offset);
    assert x.offset == y.offset;
    EndsWith(Loaded(s, x.offset), Loaded(s[..|s| - 1], x.offset), x);
    EndsWith(Loaded(r, x.offset), Loaded(r[..|r| - 1], x.offset), y);
  }

  lemma EndsWith(l: seq<Section>, a: seq<Section>, x: Section)
    requires l == a + [x]
    ensures l != [] && l[|l| - 1] == x
  {
  }

  lemma {:induction false} LoadedIsThere(s: seq<Section>, offset: nat)
    ensures Loaded(s, offset) != [] ==> exists i :: 0 <= i < |s| && s[i].offset == offset
  {
    if s != [] {
      LoadedIsThere(s[..|s| - 1], offset);
      if s[|s| - 1].offset != offset && Loaded(s, offset) != [] {
        var i :| 0 <= i < |s| - 1 && s[..|s| - 1][i].offset == offset;
        assert s[i].offset == offset;
      }
    }
  }

  /** The driver's loop: move the sections above the new one up by one place, then put it there. */
  method InsertInPlace(sections: array<Section>, count: nat, x: Section) returns (newCount: nat)
    requires count < sections.Length
    modifies sections
    ensures newCount == count + 1
    ensures sections[..newCount] == Insert(old(sections[..count]), x)
  {
    hide Insert;
    ghost var was := sections[..count];
    var pos := count;
    while pos > 0 && sections[pos - 1].offset > x.offset
      invariant pos <= count
      invariant forall i :: 0 <= i < pos ==> sections[i] == was[i]
      invariant forall i :: pos < i <= count ==> sections[i] == was[i - 1]
      invariant forall i :: pos <= i < count ==> was[i].offset > x.offset
    {
      sections[pos] := sections[pos - 1];
      pos := pos - 1;
    }
    sections[pos] := x;
    InsertAt(was, x, pos);
    newCount := count + 1;
    ThreeParts(sections[..newCount], was, x, pos);
  }

  lemma ThreeParts(s: seq<Section>, was: seq<Section>, x: Section, pos: nat)
    requires pos <= |was| && |s| == |was| + 1 && s[pos] == x
    requires forall i :: 0 <= i < pos ==> s[i] == was[i]
    requires forall i :: pos < i < |s| ==> s[i] == was[i - 1]
    ensures s == was[..pos] + [x] + was[pos..]
  {
  }

  lemma {:induction false} InsertAt(s: seq<Section>, x: Section, pos: nat)
    requires pos <= |s|
    requires pos > 0 ==> s[pos - 1].offset <= x.offset
    requires forall i :: pos <= i < |s| ==> s[i].offset > x.offset
    ensures Insert(s, x) == s[..pos] + [x] + s[pos..]
  {
    if pos < |s| {
      var t := s[..|s| - 1];
      InsertAt(t, x, pos);
      assert s[..pos] == t[..pos] && s[pos..] == t[pos..] + [s[|s| - 1]];
    }
  }

  // ---------------------------------------------------------------- what a record does

  /** A text and a data part, as addresses in the image. */
  datatype Part = Part(text: Option<nat>, textSize: nat, data: Option<nat>, dataSize: nat)

  const NO_PART := Part(None, 0, None, 0)

  predicate Present(p: Part) {
    p.text.Some? && p.textSize != 0 && p.data.Some? && p.dataSize != 0
  }

  /** The sections for one use of the firmware, their bytes, and the parts found for it. */
  datatype Table = Table(sections: seq<Section>, bytes: nat, part: Part)

  const EMPTY := Table([], 0, NO_PART)

  datatype Found = Found(runtime: Table, init: Table, boot: Part, flags: nat, api: seq<nat>, capa: seq<nat>)

  const NOTHING := Found(EMPTY, EMPTY, NO_PART, 0, [0, 0, 0, 0], [0, 0, 0, 0])

  function WithSection(t: Table, s: Section): Table {
    if |t.sections| >= SECTION_MAX then t else
    Table(Insert(t.sections, s), t.bytes + s.size,
      t.part.(text := if t.part.text.None? then Some(s.at) else t.part.text, textSize := (t.part.textSize + s.size) % TWO_32))
  }

  predicate InImage(image: seq<byte>, t: Tlv) {
    t.at + t.len <= |image| && t.len < TWO_32
  }

  /** The section that a record of more than four bytes describes. */
  function SectionOf(image: seq<byte>, t: Tlv): Section
    requires InImage(image, t) && t.len > 4
  {
    Section(Word(image, t.at), t.at + 4, t.len - 4)
  }

  /** A word of a small table, set if the index is in range. */
  function WithWord(words: seq<nat>, image: seq<byte>, t: Tlv): seq<nat>
    requires InImage(image, t)
  {
    if t.len >= 8 && Word(image, t.at) < |words| then words[Word(image, t.at) := Word(image, t.at + 4)] else words
  }

  function Handled(f: Found, image: seq<byte>, alt: nat, t: Tlv): Found
    requires InImage(image, t)
  {
    if t.alt != 0 && t.alt != alt then f
    else if t.kind == MAIN_TEXT then f.(runtime := f.runtime.(part := f.runtime.part.(text := Some(t.at), textSize := t.len)))
    else if t.kind == MAIN_DATA then f.(runtime := f.runtime.(part := f.runtime.part.(data := Some(t.at), dataSize := t.len)))
    else if t.kind == INIT_TEXT then f.(init := f.init.(part := f.init.part.(text := Some(t.at), textSize := t.len)))
    else if t.kind == INIT_DATA then f.(init := f.init.(part := f.init.part.(data := Some(t.at), dataSize := t.len)))
    else if t.kind == BOOT_TEXT then f.(boot := f.boot.(text := Some(t.at), textSize := t.len))
    else if t.kind == FLAGS then if t.len >= 4 then f.(flags := Word(image, t.at)) else f
    else if t.kind == API_CHANGES then f.(api := WithWord(f.api, image, t))
    else if t.kind == CAPABILITIES then f.(capa := WithWord(f.capa, image, t))
    else if t.kind == SEC_RT && t.len > 4 then f.(runtime := WithSection(f.runtime, SectionOf(image, t)))
    else if t.kind == SEC_INIT && t.len > 4 then f.(init := WithSection(f.init, SectionOf(image, t)))
    else f
  }

  function AllHandled(f: Found, image: seq<byte>, alt: nat, ts: seq<Tlv>): Found
    requires forall t :: t in ts ==> InImage(image, t)
  {
    if ts == [] then f else Handled(AllHandled(f, image, alt, ts[..|ts| - 1]), image, alt, ts[|ts| - 1])
  }

  /** Both parts of the old format, or at least one section of the new one. */
  predicate Usable(f: Found) {
    (Present(f.runtime.part) && Present(f.init.part)) || f.runtime.sections != []
  }

  // ---------------------------------------------------------------- the sections that are kept

  /** The sections that the records of one kind describe, in file order. */
  function SectionsOf(image: seq<byte>, alt: nat, kind: nat, ts: seq<Tlv>): seq<Section>
    requires forall t :: t in ts ==> InImage(image, t)
  {
    if ts == [] then [] else
    var t := ts[|ts| - 1];
    var before := SectionsOf(image, alt, kind, ts[..|ts| - 1]);
    if Describes(alt, kind, t) then before + [SectionOf(image, t)] else before
  }

  /** The record describes a section of the kind, for the alternative in use. */
  predicate Describes(alt: nat, kind: nat, t: Tlv) {
    t.kind == kind && (t.alt == 0 || t.alt == alt) && t.len > 4
  }

  function Capped(s: seq<Section>): seq<Section> {
    if |s| <= SECTION_MAX then s else s[..SECTION_MAX]
  }

  function TotalSize(s: seq<Section>): nat {
    if s == [] then 0 else TotalSize(s[..|s| - 1]) + s[|s| - 1].size
  }

  /** What is kept is the insertion sort of the first 96 sections, and the byte total their sum. */
  predicate Keeps(t: Table, s: seq<Section>) {
    t.sections == InsertAll(Capped(s)) && t.bytes == TotalSize(Capped(s))
  }

  lemma KeepsOneMore(t: Table, s: seq<Section>, x: Section)
    requires Keeps(t, s)
    ensures Keeps(WithSection(t, x), s + [x])
  {
    if |s| < SECTION_MAX {
      assert (s + [x])[..|s|] == s;
    } else {
      assert Capped(s + [x]) == Capped(s);
    }
  }

  lemma {:induction false} KeepsAll(image: seq<byte>, alt: nat, ts: seq<Tlv>)
    requires forall t :: t in ts ==> InImage(image, t)
    ensures var f := AllHandled(NOTHING, image, alt, ts);
      Keeps(f.runtime, SectionsOf(image, alt, SEC_RT, ts)) && Keeps(f.init, SectionsOf(image, alt, SEC_INIT, ts))
  {
    if ts != [] {
      hide Keeps, Handled;
      var before, t := ts[..|ts| - 1], ts[|ts| - 1];
      KeepsAll(image, alt, before);
      var f := AllHandled(NOTHING, image, alt, before);
      HandledSections(f, image, alt, t);
      var rt, it := SectionsOf(image, alt, SEC_RT, before), SectionsOf(image, alt, SEC_INIT, before);
      if Describes(alt, SEC_RT, t) {
        KeepsOneMore(f.runtime, rt, SectionOf(image, t));
      } else {
        KeepsSame(f.runtime, Handled(f, image, alt, t).runtime, rt);
      }
      if Describes(alt, SEC_INIT, t) {
        KeepsOneMore(f.init, it, SectionOf(image, t));
      } else {
        KeepsSame(f.init, Handled(f, image, alt, t).init, it);
      }
    }
  }

  lemma HandledSections(f: Found, image: seq<byte>, alt: nat, t: Tlv)
    requires InImage(image, t)
    ensures var g := Handled(f, image, alt, t);
      && (if Describes(alt, SEC_RT, t) then g.runtime == WithSection(f.runtime, SectionOf(image, t))
          else g.runtime.sections == f.runtime.sections && g.runtime.bytes == f.runtime.bytes)
      && (if Describes(alt, SEC_INIT, t) then g.init == WithSection(f.init, SectionOf(image, t))
          else g.init.sections == f.init.sections && g.init.bytes == f.init.bytes)
  {
    hide WithSection, WithWord, SectionOf, Word;
  }

  lemma KeepsSame(t: Table, u: Table, s: seq<Section>)
    requires Keeps(t, s) && u.sections == t.sections && u.bytes == t.bytes
    ensures Keeps(u, s)
  {
  }

  // ---------------------------------------------------------------- the walk

  lemma {:induction false} TlvsInImage(image: seq<byte>, pos: nat)
    ensures forall t :: t in TlvsFrom(image, pos) ==> InImage(image, t) && t.at >= pos + 8
    decreases |image| - pos
  {
    if pos + 8 <= |image| {
      var t := TlvAt(image, pos);
      Pow256Words();
      if t.at + t.len <= |image| {
        TlvsInImage(image, After(t));
      }
    }
  }

  /** The sections for one use of the firmware, in a fixed array. */
  class SectionTable {
    const sections: array<Section>
    var count: nat
    var bytes: nat
    var part: Part

    ghost predicate Valid()
      reads this
    {
      sections.Length == SECTION_MAX && count <= SECTION_MAX
    }

    function View(): Table
      requires Valid()
      reads this, sections
    {
      Table(sections[..count], bytes, part)
    }

    constructor ()
      ensures Valid() && fresh(sections) && View() == EMPTY
    {
      sections := new Section[SECTION_MAX](_ => Section(0, 0, 0));
      count, bytes, part := 0, 0, NO_PART;
    }

    method Add(s: Section)
      requires Valid()
      modifies this, sections
      ensures Valid() && View() == WithSection(old(View()), s)
    {
      if count < SECTION_MAX {
        hide Insert;
        count := InsertInPlace(sections, count, s);
        bytes := bytes + s.size;
        if part.text.None? {
          part := part.(text := Some(s.at));
        }
        part := part.(textSize := (part.textSize + s.size) % TWO_32);
      }
    }
  }

  class Firmware {
    const runtime: SectionTable
    const init: SectionTable
    var boot: Part
    var flags: nat
    var api: seq<nat>
    var capa: seq<nat>

    ghost predicate Valid()
      reads this, runtime, init
    {
      runtime != init && runtime.sections != init.sections && runtime.Valid() && init.Valid()
    }

    function View(): Found
      requires Valid()
      reads this, runtime, init, runtime.sections, init.sections
    {
      Found(runtime.View(), init.View(), boot, flags, api, capa)
    }

    constructor ()
      ensures Valid() && View() == NOTHING
      ensures fresh(runtime) && fresh(init) && fresh(runtime.sections) && fresh(init.sections)
    {
      runtime := new SectionTable();
      init := new SectionTable();
      boot, flags, api, capa := NO_PART, 0, [0, 0, 0, 0], [0, 0, 0, 0];
    }

    method Handle(image: seq<byte>, alt: nat, t: Tlv)
      requires Valid() && InImage(image, t)
      modifies this, runtime, init, runtime.sections, init.sections
      ensures Valid() && View() == Handled(old(View()), image, alt, t)
    {
      hide Word, WithSection, Insert;
      if t.alt != 0 && t.alt != alt {
        return;
      }
      if t.kind == MAIN_TEXT {
        runtime.part := runtime.part.(text := Some(t.at), textSize := t.len);
      } else if t.kind == MAIN_DATA {
        runtime.part := runtime.part.(data := Some(t.at), dataSize := t.len);
      } else if t.kind == INIT_TEXT {
        init.part := init.part.(text := Some(t.at), textSize := t.len);
      } else if t.kind == INIT_DATA {
        init.part := init.part.(data := Some(t.at), dataSize := t.len);
      } else if t.kind == BOOT_TEXT {
        boot := boot.(text := Some(t.at), textSize := t.len);
      } else if t.kind == SEC_RT {
        if t.len > 4 {
          runtime.Add(SectionOf(image, t));
        }
      } else if t.kind == SEC_INIT {
        if t.len > 4 {
          init.Add(SectionOf(image, t));
        }
      } else {
        HandleWords(image, t);
      }
    }

    method HandleWords(image: seq<byte>, t: Tlv)
      requires InImage(image, t)
      modifies `flags, `api, `capa
      ensures flags == if t.kind == FLAGS && t.len >= 4 then Word(image, t.at) else old(flags)
      ensures api == if t.kind == API_CHANGES then WithWord(old(api), image, t) else old(api)
      ensures capa == if t.kind == CAPABILITIES then WithWord(old(capa), image, t) else old(capa)
    {
      if t.kind == FLAGS && t.len >= 4 {
        flags := Word(image, t.at);
      } else if t.kind == API_CHANGES && t.len >= 8 {
        var index := Word(image, t.at);
        if index < |api| {
          api := api[index := Word(image, t.at + 4)];
        }
      } else if t.kind == CAPABILITIES && t.len >= 8 {
        var index := Word(image, t.at);
        if index < |capa| {
          capa := capa[index := Word(image, t.at + 4)];
        }
      }
    }

    /** The walk over all records of an image whose header was accepted. */
    method Parse(image: seq<byte>) returns (ok: bool)
      requires Valid() && |image| >= HEADER
      modifies this, runtime, init, runtime.sections, init.sections
      ensures Valid()
      ensures forall t :: t in TlvsFrom(image, HEADER) ==> InImage(image, t)
      ensures View() == AllHandled(old(View()), image, Alternative(Le(image[80..88])), TlvsFrom(image, HEADER))
      ensures ok <==> !Overruns(image, HEADER) && Usable(View())
    {
      hide Handled, Alternative, Padded, TlvAt, InImage, TlvsFrom, Overruns, AllHandled, Usable;
      TlvsInImage(image, HEADER);
      NothingHandled(View(), image, Alternative(Le(image[80..88])));
      var alt := PickAlternative(Le(image[80..88]));
      var pos := HEADER;
      ghost var done: seq<Tlv> := [];
      while pos + 8 <= |image|
        invariant Valid() && done + TlvsFrom(image, pos) == TlvsFrom(image, HEADER)
        invariant Overruns(image, pos) == Overruns(image, HEADER)
        invariant forall t :: t in done ==> InImage(image, t)
        invariant View() == AllHandled(old(View()), image, alt, done)
        decreases |image| - pos
      {
        var t := TlvAt(image, pos);
        Progress(image, pos);
        NextTlv(image, pos, done);
        if t.at + t.len > |image| {
          return false;
        }
        OneHandled(old(View()), image, alt, done, t);
        Handle(image, alt, t);
        done := done + [t];
        pos := After(t);
      }
      NoTlv(image, pos, done);
      UsableIs(View());
      ok := (Present(runtime.part) && Present(init.part)) || runtime.count > 0;
    }
  }

  lemma NothingHandled(f: Found, image: seq<byte>, alt: nat)
    ensures AllHandled(f, image, alt, []) == f
  {
  }

  lemma OneHandled(f: Found, image: seq<byte>, alt: nat, done: seq<Tlv>, t: Tlv)
    requires (forall d :: d in done ==> InImage(image, d)) && InImage(image, t)
    ensures forall d :: d in done + [t] ==> InImage(image, d)
    ensures AllHandled(f, image, alt, done + [t]) == Handled(AllHandled(f, image, alt, done), image, alt, t)
  {
    hide Handled, InImage;
    assert (done + [t])[..|done|] == done;
  }

  lemma NextTlv(image: seq<byte>, pos: nat, done: seq<Tlv>)
    requires pos + 8 <= |image|
    ensures var t := TlvAt(image, pos);
      if t.at + t.len > |image| then done + TlvsFrom(image, pos) == done && Overruns(image, pos)
      else
        && t in done + TlvsFrom(image, pos)
        && done + TlvsFrom(image, pos) == done + [t] + TlvsFrom(image, After(t))
        && (Overruns(image, pos) <==> Overruns(image, After(t)))
  {
    hide TlvAt;
  }

  lemma NoTlv(image: seq<byte>, pos: nat, done: seq<Tlv>)
    requires pos + 8 > |image|
    ensures done + TlvsFrom(image, pos) == done && !Overruns(image, pos)
  {
  }

  lemma UsableIs(f: Found)
    ensures Usable(f) <==> (Present(f.runtime.part) && Present(f.init.part)) || f.runtime.sections != []
  {
  }

  lemma Progress(image: seq<byte>, pos: nat)
    requires pos + 8 <= |image|
    ensures After(TlvAt(image, pos)) >= pos + 8
  {
  }

  method PickAlternative(mask: nat) returns (alt: nat)
    ensures alt == Alternative(mask)
  {
    alt := 0;
    var candidate := 3;
    while candidate > 0 && alt == 0
      invariant candidate <= 3
      invariant alt != 0 ==> alt == Alternative(mask)
      invariant alt == 0 ==> candidate < 3 ==> mask / 8 % 2 == 0
      invariant alt == 0 ==> candidate < 2 ==> mask / 4 % 2 == 0
      invariant alt == 0 ==> candidate < 1 ==> mask / 2 % 2 == 0
    {
      var bit := if candidate == 3 then 8 else if candidate == 2 then 4 else 2;
      if mask / bit % 2 == 1 {
        alt := candidate;
      }
      candidate := candidate - 1;
    }
  }

  // ---------------------------------------------------------------- what holds of any image

  /** A fresh parse keeps the first 96 sections of each kind, sorted by load offset and otherwise in
      file order, with their total size, and each lies inside the image. */
  lemma ParsedSections(image: seq<byte>, kind: nat)
    requires |image| >= HEADER && kind in {SEC_RT, SEC_INIT}
    ensures forall t :: t in TlvsFrom(image, HEADER) ==> InImage(image, t)
    ensures var alt := Alternative(Le(image[80..88]));
      var f := AllHandled(NOTHING, image, alt, TlvsFrom(image, HEADER));
      var table := if kind == SEC_RT then f.runtime else f.init;
      var found := Capped(SectionsOf(image, alt, kind, TlvsFrom(image, HEADER)));
      && Sorted(table.sections)
      && (forall offset :: Loaded(table.sections, offset) == Loaded(found, offset))
      && |table.sections| == |found| <= SECTION_MAX
      && table.bytes == TotalSize(found)
      && (forall s :: s in table.sections ==> HEADER + 12 <= s.at && s.at + s.size <= |image|)
  {
    TlvsInImage(image, HEADER);
    var alt := Alternative(Le(image[80..88]));
    var ts := TlvsFrom(image, HEADER);
    hide TlvsFrom, Handled, Alternative, AllHandled;
    KeepsAll(image, alt, ts);
    StableSort(Capped(SectionsOf(image, alt, kind, ts)));
    SectionsInside(image, alt, kind, ts);
    InsertAllSame(Capped(SectionsOf(image, alt, kind, ts)));
  }

  lemma {:induction false} SectionsInside(image: seq<byte>, alt: nat, kind: nat, ts: seq<Tlv>)
    requires forall t :: t in ts ==> InImage(image, t) && t.at >= HEADER + 8
    ensures forall s :: s in SectionsOf(image, alt, kind, ts) ==> HEADER + 12 <= s.at && s.at + s.size <= |image|
  {
    if ts != [] {
      SectionsInside(image, alt, kind, ts[..|ts| - 1]);
    }
  }

  lemma {:induction false} InsertAllSame(s: seq<Section>)
    ensures forall x :: x in InsertAll(s) ==> x in s
  {
    if s != [] {
      InsertAllSame(s[..|s| - 1]);
      StableSort(s[..|s| - 1]);
      InsertSorted(InsertAll(s[..|s| - 1]), s[|s| - 1]);
    }
  }
}
