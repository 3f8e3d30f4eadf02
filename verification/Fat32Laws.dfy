/** Where things are on the volume of the installation image, in numbers. */
module Fat32Laws {
  import opened Bytes
  import opened Fat32

  /** Two tables behind 32 reserved sectors, then the clusters from number two on. */
  lemma Placement(g: Geometry, cluster: nat)
    requires cluster >= 2
    ensures FatOffset(g, 0) == 32 * 512 && FatOffset(g, 1) == 32 * 512 + g.fatSectors * 512
    ensures ClusterOffset(g, 2) == 32 * 512 + g.fatSectors * 512 + g.fatSectors * 512
    ensures ClusterOffset(g, cluster + 1) == ClusterOffset(g, cluster) + g.spc * 512
  {
    OffsetOf(g, cluster);
  }

  /** Byte by byte: the data, and zeros behind them. */
  lemma FilledAt(data: seq<byte>, n: nat, k: nat)
    requires k < n
    ensures Filled(data, n)[k] == if k < |data| then data[k] else 0
  {
  }

  /** As many clusters as the bytes need and no more; one for no bytes. */
  lemma NeededLeast(g: Geometry, byteCount: nat)
    requires g.spc > 0
    ensures var n := Needed(g, byteCount);
      && n >= 1 && byteCount <= n * ClusterBytes(g)
      && (n > 1 ==> (n - 1) * ClusterBytes(g) < byteCount)
  {
    var c := ClusterBytes(g);
    var n := (byteCount + c - 1) / c;
    QuotientBounds(byteCount + c - 1, c);
  }

  lemma QuotientBounds(a: nat, c: nat)
    requires c > 0
    ensures a / c * c <= a < a / c * c + c && (a / c - 1) * c == a / c * c - c
  {
  }

  /** What tells a FAT32 boot sector: media byte, extended signature, title, type and the last two bytes. */
  lemma BootMarks(g: Geometry, title: seq<byte>)
    requires |title| == 11
    ensures var b := BootSector(g, title);
      && b[0] == 0xeb && b[21] == 0xf8 && b[66] == 0x29 && b[510] == 0x55 && b[511] == 0xaa
      && b[71..82] == title
      && b[82..87] == [0x46, 0x41, 0x54, 0x33, 0x32]
  {
    hide ToLe, BootSizes;
    var b, head, rest := BootSector(g, title), BootHead(g), BootRest(title);
    assert b[48..] == rest && b[..48] == head;
    RestMarks(title);
    HeadMarks(g);
    assert b[66] == rest[18] && b[510] == rest[462] && b[511] == rest[463];
    assert b[71..82] == rest[23..34] && b[82..87] == rest[34..39];
  }

  lemma RestMarks(title: seq<byte>)
    requires |title| == 11
    ensures var r := BootRest(title);
      r[18] == 0x29 && r[23..34] == title && r[34..39] == [0x46, 0x41, 0x54, 0x33, 0x32] && r[462] == 0x55 && r[463] == 0xaa
  {
    hide ToLe;
  }

  lemma HeadMarks(g: Geometry)
    ensures BootHead(g)[0] == 0xeb && BootHead(g)[21] == 0xf8
  {
    hide ToLe, BootSizes;
    assert BootHead(g)[21] == BootShape(g)[10];
  }
}
