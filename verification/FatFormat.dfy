/** What the formatter leaves on a disk, and that a volume mounted from it meets what the engine
    and the run theorems ask for. */
module FatFormat {
  import opened Bytes
  import opened Arith
  import opened FatChains
  import opened FatFiles
  import opened FatDisk
  import opened FatVolume
  import opened FatDir
  import opened FatNames
  import opened FatMount
  import opened FatRoot
  import opened FatRuns
  import opened FatEngine
  import opened FatBacking

  /** The table size `fat16_format_at` computes for `total` sectors, in the registers it uses. */
  function FormatFatSz(total: nat): (n: nat)
    ensures 1 <= n < TWO16
  {
    var clusters := U32(total - (1 + 32 + 2 * 250)) / 4;
    var n := (clusters * 2 + 511) / 512 % 0x1_0000;
    if n < 1 then 1 else n
  }

  /** The layout it writes: two tables, 512 root entries, four sectors a cluster. */
  function FormatGeometry(base: nat, total: nat): (g: Geometry) {
    Geometry(base + 1, FormatFatSz(total), 2, 32, 4)
  }

  // ---------------------------------------------------------------- the boot sector

  const OEM: seq<byte> := [0x4F, 0x52, 0x49, 0x4F, 0x4E, 0x4F, 0x53, 0x20]
  const FS_TYPE: seq<byte> := [0x46, 0x41, 0x54, 0x31, 0x36, 0x20, 0x20, 0x20]
  const STUB: seq<byte> := [0xFA, 0x31, 0xC0, 0x8E, 0xD0, 0xBC, 0x00, 0x7C, 0xFB, 0xE9, 0x00, 0x00]

  /** Byte `k` of a little-endian word. */
  function ByteOf(v: nat, k: nat): byte {
    if k == 0 then v % 256 else if k == 1 then v / 0x100 % 256 else if k == 2 then v / 0x1_0000 % 256
    else v / 0x100_0000 % 256
  }

  /** Byte `k` of the boot sector the formatter builds. */
  function BootByte(base: nat, total: nat, name: seq<byte>, k: nat): byte {
    if k == 0 then 0xEB else if k == 1 then 0x3C else if k == 2 then 0x90
    else if k < 11 then OEM[k - 3]
    else if k < 13 then ByteOf(512, k - 11)
    else if k == 13 then 4
    else if k < 16 then ByteOf(1, k - 14)
    else if k == 16 then 2
    else if k < 19 then ByteOf(512, k - 17)
    else if k < 21 then ByteOf(if total < 65536 then total else 0, k - 19)
    else if k == 21 then 0xF8
    else if k < 24 then ByteOf(FormatFatSz(total), k - 22)
    else if k < 26 then ByteOf(32, k - 24)
    else if k < 28 then ByteOf(64, k - 26)
    else if k < 32 then ByteOf(base, k - 28)
    else if k < 36 then ByteOf(if total < 65536 then 0 else total, k - 32)
    else if k == 36 then 0x80 else if k == 37 then 0 else if k == 38 then 0x29
    else if k < 43 then ByteOf(0x1234_5678, k - 39)
    else if k < 54 then (if k - 43 < |name| then name[k - 43] else 0x20)
    else if k < 62 then FS_TYPE[k - 54]
    else if k < 74 then STUB[k - 62]
    else if k == 510 then 0x55 else if k == 511 then 0xAA
    else 0
  }

  function BootSector(base: nat, total: nat, name: seq<byte>): (s: Sector)
    ensures forall k :: 0 <= k < 512 ==> s[k] == BootByte(base, total, name, k)
  {
    seq(512, k requires 0 <= k < 512 => BootByte(base, total, name, k))
  }

  lemma Word16(v: nat)
    requires v < TWO16
    ensures ByteOf(v, 0) as int + 256 * ByteOf(v, 1) as int == v
  {
  }

  lemma Word32(v: nat)
    requires v < TWO32
    ensures ByteOf(v, 0) as int + 256 * ByteOf(v, 1) as int
            + 0x1_0000 * (ByteOf(v, 2) as int + 256 * ByteOf(v, 3) as int) == v
  {
    var hi, lo := v / 0x1_0000, v % 0x1_0000;
    assert v == 0x1_0000 * hi + lo;
    DivUnique(v / 0x100, 256, hi);
    DivUnique(v, 0x100_0000, hi / 256);
    Word16(lo);
    Word16(hi);
  }

  /** What the mount reads back of it. */
  lemma BootReads(base: nat, total: nat, name: seq<byte>)
    requires 0 < total < TWO32
    ensures var s := BootSector(base, total, name);
            && Signed(s) && Jumps(s)
            && ReadBpb(s) == Bpb(512, 4, 1, 2, 512, if total < 65536 then total else 0, FormatFatSz(total),
                                 if total < 65536 then 0 else total)
  {
    hide ByteOf, FormatFatSz, BootSector;
    Word16(512);
    Word16(1);
    Word16(if total < 65536 then total else 0);
    Word16(FormatFatSz(total));
    Word32(if total < 65536 then 0 else total);
  }

  /** Every field of the boot sector in its place. */
  lemma BootFields(base: nat, total: nat, name: seq<byte>)
    requires base < TWO32 && 0 < total < TWO32
    ensures var s := BootSector(base, total, name);
            && s[3..11] == [0x4F, 0x52, 0x49, 0x4F, 0x4E, 0x4F, 0x53, 0x20] && s[21] == 0xF8
            && Field16(s, 24) == 32 && Field16(s, 26) == 64 && Field32(s, 28) == base
            && s[36] == 0x80 && s[37] == 0 && s[38] == 0x29 && Field32(s, 39) == 0x1234_5678
            && (forall i :: 0 <= i < 11 ==> s[43 + i] == if i < |name| then name[i] else 0x20)
            && s[54..62] == [0x46, 0x41, 0x54, 0x31, 0x36, 0x20, 0x20, 0x20]
            && forall i :: 74 <= i < 510 ==> s[i] == 0
  {
    hide ByteOf, FormatFatSz, BootSector;
    Word16(32);
    Word16(64);
    Word32(base);
    Word32(0x1234_5678);
  }

  /** The clusters the mount counts on a volume formatted with `total` sectors. */
  function ClusterCount(total: nat): nat { U32(total - (1 + 2 * FormatFatSz(total) + 32)) / 4 }

  /** The formatter's boot sector is accepted exactly when that count is one of a FAT16 volume, and then
      gives the layout it wrote. */
  lemma ProbeFormatted(base: nat, total: nat, name: seq<byte>)
    requires 0 < total < TWO32
    ensures var r := Probe(BootSector(base, total, name));
            && (r.Some? <==> 4085 <= ClusterCount(total) < 65525)
            && (r.Some? ==> r.value.Layout(base) == FormatGeometry(base, total))
  {
    hide FormatFatSz, BootSector, ReadBpb, Signed, Jumps;
    BootReads(base, total, name);
  }

  /** Told from the number of sectors: volumes from 16405 to 262644 sectors are mounted again. */
  lemma MountableExactly(total: nat)
    requires 0 < total < TWO32
    ensures 4085 <= ClusterCount(total) < 65525 <==> 16405 <= total <= 262644
    ensures 16405 <= total <= 262644 ==> (FormatFatSz(total) <= 255 <==> total <= 261656)
  {
    hide FormatFatSz, U32;
    var f := FormatFatSz(total);
    U32Means(total - (33 + 2 * f));
    if total < 537 {
      FatSzSmall(total);
    } else if total < 0x100_0000 {
      FatSzBounds(total);
      CountRange(total, (total - 533) / 4, f, ClusterCount(total));
    }
  }

  lemma U32Means(x: int)
    requires -TWO32 <= x < TWO32
    ensures U32(x) == if x < 0 then x + TWO32 else x
  {
  }

  lemma FatSzSmall(total: nat)
    requires 0 < total < 537
    ensures FormatFatSz(total) == 1
  {
  }

  lemma FatSzBounds(total: nat)
    requires 537 <= total < 0x100_0000
    ensures 2 * ((total - 533) / 4) <= 512 * FormatFatSz(total) < 2 * ((total - 533) / 4) + 512
  {
    hide U32;
    U32Means(total - 533);
    var x := (total - 533) / 4 * 2 + 511;
    QuotRem(x, 512);
    assert 1 <= x / 512 < TWO16;
  }

  /** The number `n` of clusters, when the table is sized by an estimate `c` of it. */
  lemma CountRange(total: nat, c: nat, f: nat, n: nat)
    requires 537 <= total && 4 * c <= total - 533 < 4 * c + 4 && 2 * c <= 512 * f < 2 * c + 512
    requires 4 * n <= total - 33 - 2 * f < 4 * n + 4
    ensures 4085 <= n < 65525 <==> 16405 <= total <= 262644
    ensures 16405 <= total <= 262644 ==> (f <= 255 <==> total <= 261656)
  {
  }

  /** The first sector of the first table; every other sector of the tables is zero. */
  const MEDIA: Sector := Splice(Fill(512, 0), 0, [0xF8, 0xFF, 0xFF, 0xFF])

  const ZEROS: Sector := Fill(512, 0)

  function FormatEntry(f: nat, c: nat): nat {
    if f == 0 && c == 0 then 0xFFF8 else if f == 0 && c == 1 then 0xFFFF else 0
  }

  /** The state of a freshly formatted disk. */
  ghost predicate Formatted(g: Geometry, d: seq<Sector>) {
    && g.Fits(d)
    && (forall f, c :: 0 <= f < g.numFats && 0 <= c < g.Total() ==> Entry(g, d, f, c) == FormatEntry(f, c))
    && (forall i :: 0 <= i < 16 * g.rootSectors ==> SlotOf(g, d, i) == Fill(32, 0))
  }

  // ---------------------------------------------------------------- the formatter

  /** The table sectors `[start, end)` are written. */
  ghost predicate TablesTo(d: seq<Sector>, start: nat, end: nat) {
    forall s :: start <= s < end && s < |d| ==> d[s] == if s == start then MEDIA else ZEROS
  }

  ghost predicate Zeroed(d: seq<Sector>, lo: nat, hi: nat) {
    forall s :: lo <= s < hi && s < |d| ==> d[s] == ZEROS
  }

  lemma MediaEntries(c: nat)
    requires c < 256
    ensures Le16(MEDIA, 2 * c) == FormatEntry(0, c) && Le16(ZEROS, 2 * c) == 0
  {
  }

  lemma TableEntry(g: Geometry, d: seq<Sector>, f: nat, c: nat)
    requires g.Fits(d) && f < g.numFats && c < g.Total() && TablesTo(d, g.fatStart, g.RootStart())
    ensures Entry(g, d, f, c) == FormatEntry(f, c)
  {
    FatInside(g, d, f, c);
    var s := f * g.fatSz + c / 256;
    MulMono(0, f, g.fatSz);
    if f > 0 { MulMono(1, f, g.fatSz); }
    assert d[g.fatStart + s] == if s == 0 then MEDIA else ZEROS;
    MediaEntries(c % 256);
  }

  lemma RootSlot(g: Geometry, d: seq<Sector>, i: nat)
    requires g.Fits(d) && i < 16 * g.rootSectors
    requires Zeroed(d, g.RootStart(), g.DataStart())
    ensures SlotOf(g, d, i) == Fill(32, 0)
  {
    RootInside(g, d);
    assert d[g.RootStart() + i / 16] == ZEROS;
  }

  lemma SectorsFormatted(g: Geometry, d: seq<Sector>)
    requires g.Fits(d) && TablesTo(d, g.fatStart, g.RootStart()) && Zeroed(d, g.RootStart(), g.DataStart())
    ensures Formatted(g, d)
  {
    hide Entry, SlotOf, TablesTo, Zeroed;
    forall f, c | 0 <= f < g.numFats && 0 <= c < g.Total()
      ensures Entry(g, d, f, c) == FormatEntry(f, c)
    {
      TableEntry(g, d, f, c);
    }
    forall i | 0 <= i < 16 * g.rootSectors
      ensures SlotOf(g, d, i) == Fill(32, 0)
    {
      RootSlot(g, d, i);
    }
  }

  /** `fat16_format_at`. The sector buffer holds the media bytes for the first write only. */
  method Format(disk: seq<Sector>, base: nat, total: nat, name: seq<byte>) returns (ok: bool, d: seq<Sector>)
    requires total > 0 ==> FormatGeometry(base, total).Fits(disk)
    ensures ok <==> total > 0
    ensures !ok ==> d == disk
    ensures ok ==>
              && |d| == |disk| && d[base] == BootSector(base, total, name) && Formatted(FormatGeometry(base, total), d)
              && SameOutside(disk, d, base, FormatGeometry(base, total).DataStart())
  {
    d := disk;
    if total == 0 { return false, d; }
    var g := FormatGeometry(base, total);
    d := d[base := BootSector(base, total, name)];
    d := WriteTables(d, g);
    d := WriteRoot(d, g);
    SectorsFormatted(g, d);
    ok := true;
  }

  method WriteTables(disk: seq<Sector>, g: Geometry) returns (d: seq<Sector>)
    requires g.Fits(disk)
    ensures SameOutside(disk, d, g.fatStart, g.RootStart()) && TablesTo(d, g.fatStart, g.RootStart())
  {
    d := disk;
    var sector := MEDIA;
    for f := 0 to g.numFats
      invariant SameOutside(disk, d, g.fatStart, g.RootStart()) && TablesTo(d, g.fatStart, g.fatStart + f * g.fatSz)
      invariant sector == if f == 0 then MEDIA else ZEROS
    {
      hide TablesTo;
      MulStep(f, g.fatSz);
      MulMono(f + 1, g.numFats, g.fatSz);
      MulMono(0, f, g.fatSz);
      if f > 0 { MulMono(1, f, g.fatSz); }
      d := WriteTable(d, g.fatStart, g.fatStart + f * g.fatSz, g.fatSz, sector);
      sector := ZEROS;
    }
  }

  /** One copy of the table. */
  method WriteTable(disk: seq<Sector>, ghost start: nat, lba: nat, n: nat, first: Sector) returns (d: seq<Sector>)
    requires 1 <= n && start <= lba && lba + n <= |disk| && TablesTo(disk, start, lba)
    requires first == if lba == start then MEDIA else ZEROS
    ensures SameOutside(disk, d, lba, lba + n) && TablesTo(d, start, lba + n)
  {
    d := disk;
    var sector := first;
    for i := 0 to n
      invariant SameOutside(disk, d, lba, lba + n) && TablesTo(d, start, lba + i)
      invariant sector == if i == 0 then first else ZEROS
    {
      d := d[lba + i := sector];
      sector := ZEROS;
    }
  }

  method WriteRoot(disk: seq<Sector>, g: Geometry) returns (d: seq<Sector>)
    requires g.Fits(disk) && TablesTo(disk, g.fatStart, g.RootStart())
    ensures SameOutside(disk, d, g.RootStart(), g.DataStart()) && TablesTo(d, g.fatStart, g.RootStart())
    ensures Zeroed(d, g.RootStart(), g.DataStart())
  {
    d := disk;
    for s := 0 to g.rootSectors
      invariant SameOutside(disk, d, g.RootStart(), g.DataStart()) && Zeroed(d, g.RootStart(), g.RootStart() + s)
    {
      d := d[g.RootStart() + s := ZEROS];
    }
  }

  // ---------------------------------------------------------------- what it leaves

  /** The copies of the table agree from entry 2 on, and on entries 0 and 1 only if there is a
      single copy: the media bytes reach the first copy alone. */
  lemma FormattedAgrees(g: Geometry, d: seq<Sector>, c: nat)
    requires Formatted(g, d) && c < g.Total()
    ensures Agree(g, d, c) <==> c >= 2 || g.numFats == 1
  {
    hide Entry;
    if c < 2 && g.numFats > 1 {
      assert Entry(g, d, 1, c) == FormatEntry(1, c) != FormatEntry(0, c) == Entry(g, d, 0, c);
    }
  }

  /** The engine reads an empty table and an empty root, which is a good volume. */
  lemma FormattedGood(g: Geometry, d: seq<Sector>, hint: nat)
    requires Formatted(g, d) && g.Narrow()
    ensures Good(Vol(StoreOf(g, d, hint), RootOf(g, d)), g.ClusterBytes(), map[])
  {
    hide Entry, SlotOf, FatOf, RootOf, DataOf, Good;
    FatElements(g, d);
    RootElements(g, d);
    FreshGood(Vol(StoreOf(g, d, hint), RootOf(g, d)), g.ClusterBytes());
  }

  lemma {:induction false} StretchSize(fat: seq<nat>, lo: nat, hi: nat)
    requires lo <= hi <= |fat| && forall c :: lo <= c < hi ==> fat[c] == 0
    ensures |FreeBetween(fat, lo, hi)| == hi - lo
    decreases hi
  {
    if lo < hi {
      StretchSize(fat, lo, hi - 1);
      assert FreeBetween(fat, lo, hi) == FreeBetween(fat, lo, hi - 1) + {hi - 1};
    } else {
      assert FreeBetween(fat, lo, hi) == {};
    }
  }

  /** From a formatted disk, `n` clusters can be taken safely exactly when the table has no cluster
      beyond the disk or `n` of them are on it. */
  lemma FormattedSafe(g: Geometry, d: seq<Sector>, n: nat)
    requires Formatted(g, d) && g.Narrow()
    ensures HintBelow(StoreOf(g, d, 2), g.Limit(|d|))
    ensures Safe(FatOf(g, d), 2, g.Limit(|d|), n) <==> g.Limit(|d|) == g.Total() || n <= g.Limit(|d|) - 2
  {
    hide Entry, FatOf, Safe, DataOf;
    var fat, limit := FatOf(g, d), g.Limit(|d|);
    FatElements(g, d);
    StretchSize(fat, 2, limit);
    if limit < g.Total() { assert fat[limit] == 0; }
    SafeExactly(fat, 2, limit, n);
  }

  /** On 40000 sectors the table has 9984 entries, and its last ten clusters are not on the disk. */
  lemma FormatLeavesUnbacked()
    ensures var g := FormatGeometry(0, 40000);
            g.fatSz == 39 && g.Total() == 9984 && g.DataStart() == 111 && g.Valid() && g.Limit(40000) == 9974
    ensures FormatGeometry(0, 40000).ClusterLba(9974) + 4 > 40000
  {
    hide FormatFatSz;
    FatSzOf40000();
    var g := Geometry(1, 39, 2, 32, 4);
    assert FormatGeometry(0, 40000) == g && g.DataStart() == 111;
    DivUnique(40000 - 111, 4, 9972);
  }

  lemma FatSzOf40000()
    ensures FormatFatSz(40000) == 39
  {
    assert U32(40000 - 533) == 39467;
    DivUnique(39467, 4, 9866);
    DivUnique(9866 * 2 + 511, 512, 39);
  }

  // ---------------------------------------------------------------- mounting what was formatted

  /** Whatever else is on the disk, the formatted volume is what `fat16_init` mounts for its address
      exactly when it has from 16405 to 262644 sectors. */
  lemma MountsExactly(d: seq<Sector>, base: nat, total: nat, name: seq<byte>)
    requires 0 < total < TWO32 && base < |d| && d[base] == BootSector(base, total, name)
    ensures var r := Located(d, base);
            && (r.Some? && r.value.base == base <==> 16405 <= total <= 262644)
            && (16405 <= total <= 262644 ==> r.value.bpb.Layout(base) == FormatGeometry(base, total))
  {
    hide Probe, Located, BootSector, FormatFatSz, ClusterCount;
    LocatedMeans(d, base);
    ProbeFormatted(base, total, name);
    MountableExactly(total);
  }

  /** A whole disk of 10000 sectors is formatted and then not mounted: it has 2486 clusters, and its boot
      sector has no partitions. */
  lemma SmallVolumeRefused(d: seq<Sector>, name: seq<byte>)
    requires d != [] && d[0] == BootSector(0, 10000, name)
    ensures FormatFatSz(10000) == 10 && ClusterCount(10000) == 2486 && Located(d, 0).None?
  {
    FatSzOf10000();
    hide FormatFatSz, ClusterCount, Probe;
    ProbeFormatted(0, 10000, name);
    NoPartitions(d, 0, 10000, name, 0);
  }

  lemma FatSzOf10000()
    ensures FormatFatSz(10000) == 10 && ClusterCount(10000) == 2486
  {
    assert U32(10000 - 533) == 9467;
    DivUnique(9467, 4, 2366);
    DivUnique(2366 * 2 + 511, 512, 10);
    assert U32(10000 - 53) == 9947;
    DivUnique(9947, 4, 2486);
  }

  lemma {:induction false} NoPartitions(d: seq<Sector>, base: nat, total: nat, name: seq<byte>, i: nat)
    requires d != [] && d[0] == BootSector(base, total, name) && i <= 4
    ensures PartsFrom(d, i).None?
    decreases 4 - i
  {
    hide Probe, FormatFatSz, PartStart;
    if i < 4 {
      assert d[0][0x1BE + 16 * i + 4] == BootByte(base, total, name, 0x1BE + 16 * i + 4) == 0;
      NoPartitions(d, base, total, name, i + 1);
    }
  }

  /** Formatting a disk and mounting it through `fat16_init`: the volume is mounted at its address exactly
      for 16405 to 262644 sectors. Up to 261656 of them, where its cluster numbers stay below the end
      marks, it is valid, good and empty, with copies that agree on every entry the engine uses. */
  method FormatAndMount(disk: seq<Sector>, base: nat, total: nat, name: seq<byte>)
    returns (m: Option<Found>, vol: Volume?)
    requires 0 < total < TWO32 && FormatGeometry(base, total).Fits(disk)
    ensures m.Some? && m.value.base == base <==> 16405 <= total <= 262644
    ensures m.Some? && m.value.base == base ==> m.value.bpb.Layout(base) == FormatGeometry(base, total)
    ensures vol != null <==> 16405 <= total <= 261656
    ensures vol != null ==>
              && fresh(vol) && vol.Valid() && vol.g == FormatGeometry(base, total) && vol.sectors == |disk|
              && Good(VolOf(vol), vol.g.ClusterBytes(), map[]) && HintBelow(VolOf(vol).store, vol.Limit())
              && vol.hint == 2 && forall c: nat :: c in vol.agreed <==> 2 <= c < vol.g.Total()
  {
    hide Located, BootSector, FormatFatSz, Formatted, Good, HintBelow;
    var ok, d := Format(disk, base, total, name);
    m := Init(d, base);
    MountsExactly(d, base, total, name);
    MountableExactly(total);
    vol := null;
    if m.Some? && m.value.base == base {
      var g := m.value.bpb.Layout(base);
      if g.fatSz <= 255 {
        FormattedMounts(g, d);
        vol := new Volume(g, d);
      }
    }
  }

  lemma FormattedMounts(g: Geometry, d: seq<Sector>)
    requires Formatted(g, d) && g.Narrow() && g.numFats > 1
    ensures g.Fits(d) && Good(Vol(StoreOf(g, d, 2), RootOf(g, d)), g.ClusterBytes(), map[])
    ensures HintBelow(StoreOf(g, d, 2), g.Limit(|d|))
    ensures forall c: nat :: c in Agreed(g, d) <==> 2 <= c < g.Total()
  {
    hide Formatted, Good, HintBelow, StoreOf, Safe;
    FormattedFits(g, d);
    FormattedGood(g, d, 2);
    FormattedSafe(g, d, 0);
    forall c: nat | c < g.Total()
      ensures Agree(g, d, c) <==> c >= 2
    {
      FormattedAgrees(g, d, c);
    }
  }

  lemma FormattedFits(g: Geometry, d: seq<Sector>)
    requires Formatted(g, d)
    ensures g.Fits(d)
  {
  }
}
