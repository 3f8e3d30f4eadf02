/** What a firmware image says: records read back as they were written, and of each kind of part the
    last record for the alternative in use counts. */
module FirmwareLaws {
  import opened Basics
  import opened Bytes
  import opened Wrappers
  import opened FirmwareTlv

  // ---------------------------------------------------------------- the alternative

  /** Bit `a` of the mask. */
  predicate Named(mask: nat, a: nat) {
    a in {1, 2, 3} && (a == 1 ==> mask / 2 % 2 == 1) && (a == 2 ==> mask / 4 % 2 == 1) && (a == 3 ==> mask / 8 % 2 == 1)
  }

  /** The highest alternative that the mask names, or 0 when it names none. */
  lemma AlternativeHighest(mask: nat)
    ensures var alt := Alternative(mask);
      && (alt != 0 ==> Named(mask, alt))
      && forall a: nat :: Named(mask, a) ==> a <= alt
  {
  }

  // ---------------------------------------------------------------- records that were written

  datatype Record = Record(kind: nat, alt: nat, data: seq<byte>)

  predicate Writable(r: Record) {
    r.kind < 0x1_0000 && r.alt < 0x1_0000 && |r.data| <= TWO_32 - 4
  }

  /** Type, alternative and length, the data, and zeros up to a multiple of four. */
  function Written(r: Record): seq<byte> {
    ToLe(r.kind, 2) + ToLe(r.alt, 2) + ToLe(|r.data|, 4) + r.data + Zeros((4 - |r.data| % 4) % 4)
  }

  function AllWritten(rs: seq<Record>): seq<byte> {
    if rs == [] then [] else Written(rs[0]) + AllWritten(rs[1..])
  }

  /** The records and where their data stand, if the first one is written at `pos`. */
  function Placed(rs: seq<Record>, pos: nat): (ts: seq<Tlv>)
    ensures |ts| == |rs|
  {
    if rs == [] then []
    else [Tlv(rs[0].kind, rs[0].alt, pos + 8, |rs[0].data|)] + Placed(rs[1..], pos + |Written(rs[0])|)
  }

  lemma WrittenParts(r: Record)
    ensures var w, n := Written(r), |r.data|;
      && n + 8 <= |w| && w[0..2] == ToLe(r.kind, 2) && w[2..4] == ToLe(r.alt, 2) && w[4..8] == ToLe(n, 4) && w[8..8 + n] == r.data
  {
    hide ToLe;
  }

  lemma WrittenLength(r: Record)
    requires Writable(r)
    ensures |Written(r)| == 8 + Padded(|r.data|)
  {
    hide ToLe;
    PaddedIs(|r.data|);
  }

  lemma PaddedIs(n: nat)
    requires n <= TWO_32 - 4
    ensures Padded(n) == n + (4 - n % 4) % 4
  {
  }

  /** The first record reads back, and the next one is looked for right behind it. */
  lemma FirstRead(image: seq<byte>, pos: nat, r: Record, rest: seq<byte>)
    requires Writable(r) && pos <= |image| && image[pos..] == Written(r) + rest
    ensures pos + 8 + |r.data| <= |image|
    ensures TlvAt(image, pos) == Tlv(r.kind, r.alt, pos + 8, |r.data|)
    ensures image[pos + 8..pos + 8 + |r.data|] == r.data
    ensures After(TlvAt(image, pos)) == pos + |Written(r)| <= |image| && image[pos + |Written(r)|..] == rest
  {
    hide Written, ToLe, Le, Padded;
    var w, n := Written(r), |r.data|;
    WrittenParts(r);
    WrittenLength(r);
    assert image[pos..pos + |w|] == w by { assert image[pos..][..|w|] == w; }
    assert image[pos + |w|..] == rest by { assert image[pos..][|w|..] == rest; }
    Nested(image, pos, w, 0, 2, ToLe(r.kind, 2));
    Nested(image, pos, w, 2, 4, ToLe(r.alt, 2));
    Nested(image, pos, w, 4, 8, ToLe(n, 4));
    Nested(image, pos, w, 8, 8 + n, r.data);
    Pow256Words();
    LeToLe(r.kind, 2);
    LeToLe(r.alt, 2);
    LeToLe(n, 4);
  }

  /** An image of written records is read as exactly these records, and nothing overruns it. */
  lemma {:induction false} RecordsRead(image: seq<byte>, pos: nat, rs: seq<Record>)
    requires (forall r :: r in rs ==> Writable(r)) && pos <= |image| && image[pos..] == AllWritten(rs)
    ensures TlvsFrom(image, pos) == Placed(rs, pos) && !Overruns(image, pos)
    ensures forall i :: 0 <= i < |rs| ==> ReadsAs(image, Placed(rs, pos)[i], rs[i])
    decreases |rs|
  {
    hide Written, TlvAt, Padded, Writable, ReadsAs, After;
    if rs == [] {
      NothingWritten(image, pos);
    } else {
      var r, next := rs[0], pos + |Written(rs[0])|;
      assert r in rs && forall x :: x in rs[1..] ==> x in rs;
      FirstRead(image, pos, r, AllWritten(rs[1..]));
      RecordsRead(image, next, rs[1..]);
      FirstReads(image, pos, r);
      OneBefore(rs, pos);
    }
  }

  /** The record that was read is the one that was written: type, alternative and data. */
  predicate ReadsAs(image: seq<byte>, t: Tlv, r: Record) {
    t.kind == r.kind && t.alt == r.alt && t.at + t.len <= |image| && image[t.at..t.at + t.len] == r.data
  }

  lemma NothingWritten(image: seq<byte>, pos: nat)
    requires pos <= |image| && image[pos..] == AllWritten([])
    ensures TlvsFrom(image, pos) == [] && !Overruns(image, pos)
  {
    assert |image[pos..]| == 0;
  }

  lemma FirstReads(image: seq<byte>, pos: nat, r: Record)
    requires pos + 8 + |r.data| <= |image| && image[pos + 8..pos + 8 + |r.data|] == r.data
    ensures ReadsAs(image, Tlv(r.kind, r.alt, pos + 8, |r.data|), r)
  {
  }

  lemma OneBefore(rs: seq<Record>, pos: nat)
    requires rs != []
    ensures Placed(rs, pos)[0] == Tlv(rs[0].kind, rs[0].alt, pos + 8, |rs[0].data|)
    ensures forall i :: 0 < i < |rs| ==>
      Placed(rs, pos)[i] == Placed(rs[1..], pos + |Written(rs[0])|)[i - 1] && rs[i] == rs[1..][i - 1]
  {
    hide Written;
  }

  // ---------------------------------------------------------------- the new format

  /** The record of a section: where it is to be loaded, and its bytes. */
  function SectionData(target: nat, data: seq<byte>): seq<byte> {
    ToLe(target, 4) + data
  }

  /** A section that was written reads back: its load address, and its bytes in the image. */
  lemma SectionRead(image: seq<byte>, t: Tlv, r: Record, target: nat, data: seq<byte>)
    requires ReadsAs(image, t, r) && r.data == SectionData(target, data) && t.len == |r.data|
    requires target < TWO_32 && data != [] && Writable(r)
    ensures InImage(image, t) && t.len > 4
    ensures var s := SectionOf(image, t);
      s.offset == target && s.size == |data| && s.at + s.size <= |image| && image[s.at..s.at + s.size] == data
  {
    hide ToLe, Le;
    var d := SectionData(target, data);
    assert d[..4] == ToLe(target, 4) && d[4..] == data;
    Nested(image, t.at, d, 0, 4, ToLe(target, 4));
    Nested(image, t.at, d, 4, |d|, data);
    Pow256Words();
    LeToLe(target, 4);
  }

  // ---------------------------------------------------------------- the old format

  /** A record that is handled, of a kind. */
  predicate Counts(t: Tlv, alt: nat, kind: nat) {
    t.kind == kind && (t.alt == 0 || t.alt == alt)
  }

  /** What a record of the kind sets, in what was found. */
  predicate IsPart(f: Found, kind: nat, t: Tlv) {
    && (kind == 1 ==> f.runtime.part.text == Some(t.at) && f.runtime.part.textSize == t.len)
    && (kind == 2 ==> f.runtime.part.data == Some(t.at) && f.runtime.part.dataSize == t.len)
    && (kind == 3 ==> f.init.part.text == Some(t.at) && f.init.part.textSize == t.len)
    && (kind == 4 ==> f.init.part.data == Some(t.at) && f.init.part.dataSize == t.len)
    && (kind == 5 ==> f.boot.text == Some(t.at) && f.boot.textSize == t.len)
  }

  /** A record that leaves the part of a kind alone: it is of another kind, or for another alternative;
      sections of the new format count towards the text parts. */
  predicate Aside(t: Tlv, alt: nat, kind: nat) {
    !Counts(t, alt, kind) && (kind == 1 ==> !Describes(alt, SEC_RT, t)) && (kind == 3 ==> !Describes(alt, SEC_INIT, t))
  }

  lemma PartSet(f: Found, image: seq<byte>, alt: nat, t: Tlv, kind: nat)
    requires InImage(image, t) && Counts(t, alt, kind) && 1 <= kind <= 5
    ensures IsPart(Handled(f, image, alt, t), kind, t)
  {
  }

  lemma PartKept(f: Found, image: seq<byte>, alt: nat, t: Tlv, kind: nat, u: Tlv)
    requires InImage(image, t) && Aside(t, alt, kind) && 1 <= kind <= 5 && IsPart(f, kind, u)
    ensures IsPart(Handled(f, image, alt, t), kind, u)
  {
    hide WithWord, Word, Insert;
  }

  /** Each part is the last record of its kind for the alternative in use. */
  lemma {:induction false} LastPartCounts(f: Found, image: seq<byte>, alt: nat, ts: seq<Tlv>, kind: nat, j: nat)
    requires (forall t :: t in ts ==> InImage(image, t)) && 1 <= kind <= 5
    requires j < |ts| && Counts(ts[j], alt, kind) && forall i :: j < i < |ts| ==> Aside(ts[i], alt, kind)
    ensures IsPart(AllHandled(f, image, alt, ts), kind, ts[j])
  {
    hide Handled, IsPart, Counts, Aside, InImage;
    var n := |ts| - 1;
    var before := AllHandled(f, image, alt, ts[..n]);
    if j == n {
      PartSet(before, image, alt, ts[n], kind);
    } else {
      LastPartCounts(f, image, alt, ts[..n], kind, j);
      PartKept(before, image, alt, ts[n], kind, ts[j]);
    }
  }

  /** A part of which there is no record stays absent. */
  lemma {:induction false} NoPartFound(image: seq<byte>, alt: nat, ts: seq<Tlv>, kind: nat)
    requires (forall t :: t in ts ==> InImage(image, t)) && 1 <= kind <= 5
    requires forall i :: 0 <= i < |ts| ==> Aside(ts[i], alt, kind)
    ensures Absent(AllHandled(NOTHING, image, alt, ts), kind)
  {
    hide Handled, Absent, Aside, InImage;
    if ts == [] {
      NothingFound(kind);
      assert AllHandled(NOTHING, image, alt, ts) == NOTHING;
    } else {
      var n := |ts| - 1;
      NoPartFound(image, alt, ts[..n], kind);
      StillAbsent(AllHandled(NOTHING, image, alt, ts[..n]), image, alt, ts[n], kind);
    }
  }

  predicate Absent(f: Found, kind: nat) {
    && (kind == 1 ==> f.runtime.part.text == None) && (kind == 2 ==> f.runtime.part.data == None)
    && (kind == 3 ==> f.init.part.text == None) && (kind == 4 ==> f.init.part.data == None)
    && (kind == 5 ==> f.boot.text == None)
  }

  lemma NothingFound(kind: nat)
    ensures Absent(NOTHING, kind)
  {
  }

  lemma StillAbsent(f: Found, image: seq<byte>, alt: nat, t: Tlv, kind: nat)
    requires InImage(image, t) && Aside(t, alt, kind) && Absent(f, kind)
    ensures Absent(Handled(f, image, alt, t), kind)
  {
    hide WithWord, Word, Insert;
  }

  /** The flags are the first word of the last record of their kind that has one. */
  lemma {:induction false} LastFlagsCount(f: Found, image: seq<byte>, alt: nat, ts: seq<Tlv>, j: nat)
    requires forall t :: t in ts ==> InImage(image, t)
    requires j < |ts| && InImage(image, ts[j]) && Counts(ts[j], alt, 18) && ts[j].len >= 4
    requires forall i :: j < i < |ts| ==> !(Counts(ts[i], alt, 18) && ts[i].len >= 4)
    ensures AllHandled(f, image, alt, ts).flags == Le(image[ts[j].at..ts[j].at + 4])
  {
    hide Handled, Le;
    var n := |ts| - 1;
    var before := AllHandled(f, image, alt, ts[..n]);
    FlagsStep(before, image, alt, ts[n]);
    if j < n {
      LastFlagsCount(f, image, alt, ts[..n], j);
    }
  }

  lemma FlagsStep(f: Found, image: seq<byte>, alt: nat, t: Tlv)
    requires InImage(image, t)
    ensures Handled(f, image, alt, t).flags == if Counts(t, alt, 18) && t.len >= 4 then Le(image[t.at..t.at + 4]) else f.flags
  {
    hide WithWord, WithSection;
  }
}
