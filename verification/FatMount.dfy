/** Finding a FAT16 volume on a disk: the test of a boot sector, the partition table, and the layout
    that is mounted. */
module FatMount {
  import opened Bytes
  import opened Arith
  import opened FatDisk
  import opened FatNames

  /** The fields of a boot sector the mount depends on. */
  datatype Bpb = Bpb(bytsPerSec: nat, secPerClus: nat, rsvd: nat, numFats: nat, rootEnt: nat, tot16: nat, fatSz: nat,
                     tot32: nat)
  {
    function TotSec(): nat { if tot16 != 0 then tot16 else tot32 }

    function RootSectors(): nat { (rootEnt * 32 + 511) / 512 }

    /** Data sectors, in a 32-bit register. */
    function DataSec(): nat { U32(TotSec() - (rsvd + numFats * fatSz + RootSectors())) }

    /** A power of two up to 128. */
    predicate SpcOk() { secPerClus in {1, 2, 4, 8, 16, 32, 64, 128} }

    function Clusters(): nat
      requires SpcOk()
    {
      DataSec() / secPerClus
    }

    predicate Accepted() {
      && bytsPerSec == 512 && SpcOk() && numFats != 0 && fatSz != 0
      && 4085 <= Clusters() < 65525
    }

    /** The layout `fat16_init` sets up for a volume at `base`. */
    function Layout(base: nat): Geometry { Geometry(base + rsvd, fatSz, numFats, RootSectors(), secPerClus) }
  }

  function ReadBpb(s: Sector): (r: Bpb) {
    Bpb(Le16(s, 11), s[13], Le16(s, 14), s[16], Le16(s, 17), Le16(s, 19), Le16(s, 22), Le32(s, 32))
  }

  predicate Signed(s: Sector) { s[510] == 0x55 && s[511] == 0xAA }

  predicate Jumps(s: Sector) { (s[0] == 0xEB && s[2] == 0x90) || s[0] == 0xE9 }

  /** `probe_fat16_pbr` on a sector that could be read. */
  function Probe(s: Sector): (r: Option<Bpb>)
    ensures r.Some? ==> r.value == ReadBpb(s) && r.value.Accepted()
  {
    if Signed(s) && Jumps(s) && ReadBpb(s).Accepted() then Some(ReadBpb(s)) else None
  }

  /** The same at an address; reading beyond the disk fails. */
  function ProbeAt(d: seq<Sector>, lba: nat): (r: Option<Bpb>) {
    if lba < |d| then Probe(d[lba]) else None
  }

  /** Partition `i` is of a FAT16 type; its first sector. */
  predicate FatType(s: Sector, i: nat)
    requires i < 4
  {
    s[0x1BE + 16 * i + 4] in {0x04, 0x06, 0x0E}
  }

  function PartStart(s: Sector, i: nat): nat
    requires i < 4
  {
    Le32(s, 0x1BE + 16 * i + 8)
  }

  /** What a successful search finds: the first sector of the volume and its fields. */
  datatype Found = Found(base: nat, bpb: Bpb)

  function PartsFrom(d: seq<Sector>, i: nat): (r: Option<Found>)
    requires d != [] && i <= 4
    decreases 4 - i
  {
    if i == 4 then None
    else if FatType(d[0], i) && PartStart(d[0], i) != 0 && ProbeAt(d, PartStart(d[0], i)).Some?
    then Some(Found(PartStart(d[0], i), ProbeAt(d, PartStart(d[0], i)).value))
    else PartsFrom(d, i + 1)
  }

  /** `find_fat16_in_mbr` */
  function InMbr(d: seq<Sector>): (r: Option<Found>) {
    if d == [] || !Signed(d[0]) then None else PartsFrom(d, 0)
  }

  /** What `fat16_init` mounts: the volume asked for, else one of the partition table, else one at
      sector 0. */
  function Located(d: seq<Sector>, base: nat): (r: Option<Found>) {
    if ProbeAt(d, base).Some? then Some(Found(base, ProbeAt(d, base).value))
    else if InMbr(d).Some? then InMbr(d)
    else if ProbeAt(d, 0).Some? then Some(Found(0, ProbeAt(d, 0).value))
    else None
  }

  method FindInMbr(d: seq<Sector>) returns (r: Option<Found>)
    ensures r == InMbr(d)
  {
    hide Probe, FatType, PartStart;
    if d == [] || !Signed(d[0]) { return None; }
    for i := 0 to 4
      invariant InMbr(d) == PartsFrom(d, i)
    {
      var lba := PartStart(d[0], i);
      if FatType(d[0], i) && lba != 0 {
        var bpb := ProbeAt(d, lba);
        if bpb.Some? { return Some(Found(lba, bpb.value)); }
      }
    }
    return None;
  }

  /** `fat16_init` */
  method Init(d: seq<Sector>, base: nat) returns (r: Option<Found>)
    ensures r == Located(d, base)
  {
    hide Probe, InMbr;
    var bpb := ProbeAt(d, base);
    if bpb.Some? { return Some(Found(base, bpb.value)); }
    r := FindInMbr(d);
    if r.Some? { return; }
    bpb := ProbeAt(d, 0);
    if bpb.Some? { return Some(Found(0, bpb.value)); }
    return None;
  }

  lemma {:induction false} PartsProbed(d: seq<Sector>, i: nat)
    requires d != [] && i <= 4
    ensures var r := PartsFrom(d, i); r.Some? ==> ProbeAt(d, r.value.base) == Some(r.value.bpb) && r.value.base != 0
    decreases 4 - i
  {
    hide Probe, FatType, PartStart;
    if i < 4 { PartsProbed(d, i + 1); }
  }

  /** Whatever is mounted was accepted where it is, and a volume that is refused is mounted by no
      detour. */
  lemma LocatedMeans(d: seq<Sector>, base: nat)
    ensures var r := Located(d, base); r.Some? ==> ProbeAt(d, r.value.base) == Some(r.value.bpb)
    ensures (Located(d, base).Some? && Located(d, base).value.base == base) <==> ProbeAt(d, base).Some?
  {
    hide Probe, PartsFrom;
    if d != [] && Signed(d[0]) { PartsProbed(d, 0); }
  }

  /** A volume that is mounted has clusters that fit the 32 KB buffer of `fat16_read_file` exactly when it
      does not have 128 sectors a cluster, which the test lets pass. */
  lemma BufferExact(s: Sector)
    requires Probe(s).Some?
    ensures Probe(s).value.Layout(0).ClusterBytes() <= 32768 <==> Probe(s).value.secPerClus != 128
  {
    hide ReadBpb, Signed, Jumps;
  }

  // ---------------------------------------------------------------- where the parts of a mounted volume lie

  /** A 16-bit and a 32-bit field of a sector. */
  function Field16(s: Sector, k: nat): nat
    requires k < 511
  {
    s[k] as int + 256 * s[k + 1] as int
  }

  function Field32(s: Sector, k: nat): nat
    requires k < 509
  {
    Field16(s, k) + 0x1_0000 * Field16(s, k + 2)
  }

  /** Tables, root directory and data of a volume that is mounted, told from the bytes of its boot sector:
      the tables follow the reserved sectors, the root the tables, the data the root. */
  lemma LayoutMeans(s: Sector, base: nat)
    requires Probe(s).Some?
    ensures var g := Probe(s).value.Layout(base);
            && g.FatLba(0, 0) == base + Field16(s, 14)
            && g.numFats == s[16] && g.fatSz == Field16(s, 22) && g.spc == s[13]
            && g.RootStart() == base + Field16(s, 14) + s[16] as int * Field16(s, 22)
            && g.DataStart() == g.RootStart() + (Field16(s, 17) * 32 + 511) / 512
            && (forall f, c :: 0 <= f < g.numFats && 0 <= c < g.Total() ==>
                  g.FatLba(f, c) == base + Field16(s, 14) + f * Field16(s, 22) + c / 256)
  {
    hide Bpb.Accepted, Signed, Jumps;
  }

  /** The sectors in front of the data. */
  function Ahead(b: Bpb): nat { b.rsvd + b.numFats * b.fatSz + b.RootSectors() }

  lemma AheadSmall(b: Bpb)
    requires b.rsvd < 0x1_0000 && b.numFats < 256 && b.fatSz < 0x1_0000 && b.rootEnt < 0x1_0000
    ensures Ahead(b) < 0x200_0000
  {
    MulMono(b.numFats, 255, b.fatSz);
  }

  lemma ReadSmall(s: Sector)
    ensures var b := ReadBpb(s);
            && b.rsvd < 0x1_0000 && b.numFats < 256 && b.fatSz < 0x1_0000 && b.rootEnt < 0x1_0000
            && b.TotSec() < TWO32
  {
  }

  /** A volume with more sectors in front of its data than it has sectors is never mounted: the 32-bit
      difference wraps to more clusters than a FAT16 volume has. */
  lemma NoWrapMounted(b: Bpb)
    requires b.Accepted() && Ahead(b) < 0x200_0000 && b.TotSec() < TWO32
    ensures Ahead(b) <= b.TotSec() && b.DataSec() == b.TotSec() - Ahead(b)
  {
    hide Bpb.TotSec, Bpb.RootSectors;
    var x := b.TotSec() - Ahead(b);
    if x < 0 {
      assert U32(x) == x + TWO32;
      assert b.secPerClus <= 128;
      TooMany(b.DataSec(), b.secPerClus);
    } else {
      assert U32(x) == x;
    }
  }

  lemma TooMany(n: nat, spc: nat)
    requires n >= TWO32 - 0x200_0000 && spc in {1, 2, 4, 8, 16, 32, 64, 128}
    ensures n / spc >= 65525
  {
  }

  /** Reserved sectors, tables, root and data together are the volume, and its clusters are the whole
      clusters of the data. */
  lemma RegionsPartition(s: Sector, base: nat)
    requires Probe(s).Some?
    ensures var g, b := Probe(s).value.Layout(base), Probe(s).value;
            && g.DataStart() + b.DataSec() == base + b.TotSec()
            && b.TotSec() == (if Field16(s, 19) != 0 then Field16(s, 19) else Field32(s, 32))
            && g.ClusterLba(2) == g.DataStart()
            && g.ClusterLba(2 + b.Clusters()) <= base + b.TotSec() < g.ClusterLba(2 + b.Clusters()) + g.spc
  {
    hide Signed, Jumps, U32;
    var b := Probe(s).value;
    ReadSmall(s);
    AheadSmall(b);
    NoWrapMounted(b);
    QuotRem(b.DataSec(), b.secPerClus);
  }

  /** A boot sector is accepted if and only if, on its bytes: it is signed and starts with a jump, has 512 bytes
      a sector, a power of two up to 128 sectors a cluster, a table, and from 4085 to 65524 clusters behind
      what lies ahead of them. */
  lemma ProbeMeans(s: Sector)
    ensures Probe(s).Some? <==>
              && s[510] == 0x55 && s[511] == 0xAA && ((s[0] == 0xEB && s[2] == 0x90) || s[0] == 0xE9)
              && Field16(s, 11) == 512 && s[13] in {1, 2, 4, 8, 16, 32, 64, 128} && s[16] > 0 && Field16(s, 22) > 0
              && AheadOf(s) <= TotalOf(s) && 4085 <= (TotalOf(s) - AheadOf(s)) / s[13] < 65525
  {
    var b := ReadBpb(s);
    ReadSmall(s);
    AheadSmall(b);
    AcceptedMeans(b);
    ReadIs(s);
    hide ReadBpb, Field16, AheadOf, TotalOf, Bpb.Accepted, Ahead, Bpb.TotSec;
  }

  /** The sectors ahead of the data, and all of them. */
  function AheadOf(s: Sector): int {
    Field16(s, 14) + s[16] as int * Field16(s, 22) + (Field16(s, 17) * 32 + 511) / 512
  }

  function TotalOf(s: Sector): nat { if Field16(s, 19) != 0 then Field16(s, 19) else Field32(s, 32) }

  lemma ReadIs(s: Sector)
    ensures var b := ReadBpb(s);
            && b.bytsPerSec == Field16(s, 11) && b.secPerClus == s[13] && b.numFats == s[16]
            && b.fatSz == Field16(s, 22)
            && Ahead(b) == AheadOf(s) && b.TotSec() == TotalOf(s)
  {
  }

  lemma AcceptedMeans(b: Bpb)
    requires Ahead(b) < 0x200_0000 && b.TotSec() < TWO32
    ensures b.Accepted() <==>
            && b.bytsPerSec == 512 && b.SpcOk() && b.numFats != 0 && b.fatSz != 0
            && Ahead(b) <= b.TotSec() && 4085 <= (b.TotSec() - Ahead(b)) / b.secPerClus < 65525
  {
    hide U32, Bpb.TotSec, Bpb.RootSectors;
    if b.Accepted() {
      NoWrapMounted(b);
    } else if Ahead(b) <= b.TotSec() {
      Below32(b.TotSec() - Ahead(b));
    }
  }

  lemma Below32(x: int)
    requires 0 <= x < TWO32
    ensures U32(x) == x
  {
  }

  /** The first sector of partition `i`. */
  function StartOf(s: Sector, i: nat): nat
    requires i < 4
  {
    Field32(s, 446 + 16 * i + 8)
  }

  /** Entry `i` of the partition table: a FAT16 type at byte 4, a first sector at bytes 8 to 11 that is not 0,
      and an accepted boot sector there. */
  ghost predicate Usable(d: seq<Sector>, i: nat)
    requires d != [] && i < 4
  {
    var start := StartOf(d[0], i);
    d[0][446 + 16 * i + 4] in {4, 6, 14} && 0 < start < |d| && Probe(d[start]).Some?
  }

  lemma {:induction false} PartsMean(d: seq<Sector>, i: nat)
    requires d != [] && i <= 4
    ensures var r := PartsFrom(d, i);
            && (r.None? <==> forall k :: i <= k < 4 ==> !Usable(d, k))
            && (r.Some? ==>
                  exists k :: i <= k < 4 && Usable(d, k) && r.value.base == StartOf(d[0], k)
                              && forall j :: i <= j < k ==> !Usable(d, j))
    decreases 4 - i
  {
    hide Usable, StartOf;
    if i < 4 {
      PartStep(d, i);
      hide PartsFrom;
      PartsMean(d, i + 1);
    }
  }

  lemma PartStep(d: seq<Sector>, i: nat)
    requires d != [] && i < 4
    ensures if Usable(d, i) then PartsFrom(d, i).Some? && PartsFrom(d, i).value.base == StartOf(d[0], i)
            else PartsFrom(d, i) == PartsFrom(d, i + 1)
  {
    assert PartStart(d[0], i) == StartOf(d[0], i);
    hide Probe, PartStart, StartOf;
  }

  /** The first sector is signed and has a usable entry; the first usable one starts at `lba`. */
  ghost predicate Partitioned(d: seq<Sector>) {
    d != [] && d[0][510] == 0x55 && d[0][511] == 0xAA && exists k :: 0 <= k < 4 && Usable(d, k)
  }

  ghost predicate FirstUsable(d: seq<Sector>, lba: nat) {
    && d != []
    && exists k :: 0 <= k < 4 && Usable(d, k) && lba == StartOf(d[0], k) && forall j :: 0 <= j < k ==> !Usable(d, j)
  }

  /** The volume of a partition table is the first usable one. */
  lemma MbrMeans(d: seq<Sector>)
    ensures var r := InMbr(d);
            && (r.Some? <==> Partitioned(d))
            && (r.Some? ==> FirstUsable(d, r.value.base))
  {
    hide Usable, StartOf, PartsFrom;
    if d != [] { PartsMean(d, 0); }
  }

  /** Sector `lba` is on the disk and an accepted boot sector. */
  ghost predicate AcceptedAt(d: seq<Sector>, lba: nat) { lba < |d| && Probe(d[lba]).Some? }

  /** What a mount settles on: the address asked for if a volume is there; else the first usable partition of
      a signed first sector; else the start of the disk; else nothing. */
  lemma InitMeans(d: seq<Sector>, base: nat)
    ensures var r := Located(d, base);
            && (r.Some? <==> AcceptedAt(d, base) || Partitioned(d) || AcceptedAt(d, 0))
            && (AcceptedAt(d, base) ==> r.value.base == base)
            && (!AcceptedAt(d, base) && Partitioned(d) ==> FirstUsable(d, r.value.base))
            && (!AcceptedAt(d, base) && !Partitioned(d) && AcceptedAt(d, 0) ==> r.value.base == 0)
            && (r.Some? ==> AcceptedAt(d, r.value.base) && r.value.bpb == ReadBpb(d[r.value.base]))
  {
    hide Partitioned, FirstUsable, InMbr, Probe, ReadBpb;
    MbrMeans(d);
    LocatedMeans(d, base);
  }
}
