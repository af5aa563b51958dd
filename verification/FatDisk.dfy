/** The on-disk layout of a FAT16 volume: table copies, the fixed root directory and the data
    region as 512-byte sectors, and what one sector write means for each of them. */
module FatDisk {
  import opened Bytes
  import opened Arith
  import opened FatChains

  type Sector = s: seq<byte> | |s| == 512 witness Fill(512, 0)
  type Slot = s: seq<byte> | |s| == 32 witness Fill(32, 0)

  /** The mounted layout (`fat16_init`). */
  datatype Geometry = Geometry(fatStart: nat, fatSz: nat, numFats: nat, rootSectors: nat, spc: nat) {
    predicate Valid() { 1 <= fatSz && 1 <= numFats && 1 <= spc }

    /** Cluster numbers of the table stay below the end marks, and a cluster fits the reader's buffer. */
    predicate Narrow() { fatSz <= 255 && spc <= 64 }

    function Total(): nat { fatSz * 256 }
    function RootStart(): nat { fatStart + numFats * fatSz }
    function DataStart(): nat { RootStart() + rootSectors }
    function ClusterBytes(): (n: nat)
      ensures n % 512 == 0 && (spc > 0 ==> n >= 512)
    {
      spc * 512
    }

    /** `cluster_to_lba` */
    function ClusterLba(c: nat): nat
      requires 2 <= c
    {
      DataStart() + (c - 2) * spc
    }

    function FatLba(f: nat, c: nat): nat { fatStart + f * fatSz + c / 256 }

    /** The tables and the root directory lie on the disk. */
    predicate Fits(d: seq<Sector>) { Valid() && DataStart() <= |d| }

    /** The first cluster that is not in the table or not on a disk of `sectors` sectors. */
    function Limit(sectors: nat): (n: nat)
      requires Valid() && DataStart() <= sectors
      ensures 2 <= n <= Total()
    {
      var room := 2 + (sectors - DataStart()) / spc;
      if room < Total() then room else Total()
    }
  }

  lemma FatLbaBounds(g: Geometry, f: nat, c: nat)
    requires g.Valid() && f < g.numFats && c < g.Total()
    ensures g.fatStart + f * g.fatSz <= g.FatLba(f, c) < g.fatStart + f * g.fatSz + g.fatSz <= g.RootStart()
  {
    MulMono(f + 1, g.numFats, g.fatSz);
    MulStep(f, g.fatSz);
  }

  /** Different copies, or different sectors of one copy, are different disk sectors. */
  lemma FatLbaDistinct(g: Geometry, f: nat, c: nat, f': nat, c': nat)
    requires g.Valid() && f < g.numFats && f' < g.numFats && c < g.Total() && c' < g.Total()
    ensures g.FatLba(f, c) == g.FatLba(f', c') <==> f == f' && c / 256 == c' / 256
  {
    FatLbaBounds(g, f, c);
    FatLbaBounds(g, f', c');
    if f < f' {
      MulMono(f + 1, f', g.fatSz);
      MulStep(f, g.fatSz);
    } else if f' < f {
      MulMono(f' + 1, f, g.fatSz);
      MulStep(f', g.fatSz);
    }
  }

  lemma ClusterLbaBounds(g: Geometry, d: seq<Sector>, c: nat)
    requires g.Fits(d) && 2 <= c < g.Limit(|d|)
    ensures g.DataStart() <= g.ClusterLba(c) && g.ClusterLba(c) + g.spc <= |d|
  {
    BackedExactly(g, |d|, c);
    MulMono(0, c - 2, g.spc);
  }

  /** A cluster of the table lies on the disk exactly when it is below the limit. */
  lemma BackedExactly(g: Geometry, sectors: nat, c: nat)
    requires g.Valid() && g.DataStart() <= sectors && 2 <= c < g.Total()
    ensures g.ClusterLba(c) + g.spc <= sectors <==> c < g.Limit(sectors)
  {
    var room := sectors - g.DataStart();
    QuotRem(room, g.spc);
    var q := room / g.spc;
    MulStep(c - 2, g.spc);
    if c - 1 <= q { MulMono(c - 1, q, g.spc); } else { MulMono(q, c - 2, g.spc); }
  }

  lemma ClusterLbaDistinct(g: Geometry, c: nat, c': nat)
    requires g.Valid() && 2 <= c < c'
    ensures g.ClusterLba(c) + g.spc <= g.ClusterLba(c')
  {
    MulMono(c - 1, c' - 2, g.spc);
    MulStep(c - 2, g.spc);
  }

  /** The allocator counts table entries, not clusters: every cluster it can hand out lies on a
      volume of `sectors` sectors exactly when the table is not larger than the data region. */
  lemma AllBackedExactly(g: Geometry, sectors: nat)
    requires g.Valid() && g.DataStart() <= sectors
    ensures (forall c :: 2 <= c < g.Total() ==> g.ClusterLba(c) + g.spc <= sectors) <==>
            g.Total() - 2 <= (sectors - g.DataStart()) / g.spc
  {
    hide Geometry.ClusterLba;
    forall c | 2 <= c < g.Total()
      ensures g.ClusterLba(c) + g.spc <= sectors <==> c < g.Limit(sectors)
    {
      BackedExactly(g, sectors, c);
    }
    var last := g.Total() - 1;
    assert g.ClusterLba(last) + g.spc <= sectors <==> last < g.Limit(sectors);
  }

  lemma FatInside(g: Geometry, d: seq<Sector>, f: nat, c: nat)
    requires g.Fits(d) && f < g.numFats && c < g.Total()
    ensures g.FatLba(f, c) < g.RootStart() <= g.DataStart() <= |d|
  {
    FatLbaBounds(g, f, c);
  }

  // ---------------------------------------------------------------- reading the layout

  /** Entry `c` of table copy `f`. */
  function Entry(g: Geometry, d: seq<Sector>, f: nat, c: nat): (v: nat)
    requires g.Fits(d) && f < g.numFats && c < g.Total()
    ensures v < TWO16
  {
    FatInside(g, d, f, c);
    Le16(d[g.FatLba(f, c)], 2 * (c % 256))
  }

  /** The table the engine reads: copy 0. (This and the other views of the disk are built by
      recursion, so that a proof unfolds them only where it asks for an element.) */
  function FatUpTo(g: Geometry, d: seq<Sector>, n: nat): (r: seq<nat>)
    requires g.Fits(d) && n <= g.Total()
    ensures |r| == n
  {
    if n == 0 then [] else FatUpTo(g, d, n - 1) + [Entry(g, d, 0, n - 1)]
  }

  function FatOf(g: Geometry, d: seq<Sector>): (r: seq<nat>)
    requires g.Fits(d)
    ensures |r| == g.Total()
  {
    FatUpTo(g, d, g.Total())
  }

  lemma {:induction false} FatUpToAt(g: Geometry, d: seq<Sector>, n: nat, c: nat)
    requires g.Fits(d) && c < n <= g.Total()
    ensures FatUpTo(g, d, n)[c] == Entry(g, d, 0, c)
  {
    if c < n - 1 { FatUpToAt(g, d, n - 1, c); }
  }

  lemma FatElements(g: Geometry, d: seq<Sector>)
    requires g.Fits(d)
    ensures forall c :: 0 <= c < g.Total() ==> FatOf(g, d)[c] == Entry(g, d, 0, c)
  {
    forall c | 0 <= c < g.Total()
      ensures FatOf(g, d)[c] == Entry(g, d, 0, c)
    {
      FatUpToAt(g, d, g.Total(), c);
    }
  }

  /** A table is a row of 16-bit words, low byte first: entry `c` of copy `f` is at byte 2c of the copy. */
  lemma TableBytes(g: Geometry, d: seq<Sector>, f: nat, c: nat)
    requires g.Fits(d) && f < g.numFats && c < g.Total()
    ensures g.fatStart + f * g.fatSz + g.fatSz <= |d|
    ensures var table := Span(d, g.fatStart + f * g.fatSz, g.fatSz);
            2 * c + 1 < |table| && Entry(g, d, f, c) == table[2 * c] as int + 256 * table[2 * c + 1] as int
  {
    hide Span;
    FatLbaBounds(g, f, c);
    FatInside(g, d, f, c);
    var lba, s, j := g.fatStart + f * g.fatSz, c / 256, 2 * (c % 256);
    assert 2 * c == 512 * s + j;
    SpanAt(d, lba, g.fatSz, s, j);
    SpanAt(d, lba, g.fatSz, s, j + 1);
  }

  /** All copies of the table agree on entry `c`. */
  ghost predicate Agree(g: Geometry, d: seq<Sector>, c: nat)
    requires g.Fits(d) && c < g.Total()
  {
    forall f :: 0 <= f < g.numFats ==> Entry(g, d, f, c) == Entry(g, d, 0, c)
  }

  /** The entries on which all copies agree. The engine reads copy 0 alone, so nothing depends on
      this set; what it writes goes to every copy, so the set never shrinks. */
  ghost function Agreed(g: Geometry, d: seq<Sector>): (r: set<nat>)
    requires g.Fits(d)
  {
    set c: nat | c < g.Total() && Agree(g, d, c)
  }

  ghost predicate Mirrored(g: Geometry, d: seq<Sector>, cs: set<nat>)
    requires g.Fits(d)
  {
    forall c :: c in cs && c < g.Total() ==> Agree(g, d, c)
  }

  /** The bytes of `n` consecutive sectors. */
  function Span(d: seq<Sector>, lba: nat, n: nat): (r: seq<byte>)
    requires lba + n <= |d|
    ensures |r| == n * 512 && |r| % 512 == 0
  {
    if n == 0 then [] else Span(d, lba, n - 1) + d[lba + n - 1]
  }

  lemma {:induction false} SpanAt(d: seq<Sector>, lba: nat, n: nat, s: nat, j: nat)
    requires lba + n <= |d| && s < n && j < 512
    ensures Span(d, lba, n)[512 * s + j] == d[lba + s][j]
  {
    if s < n - 1 { SpanAt(d, lba, n - 1, s, j); }
  }

  lemma {:induction false} SpanFrame(d: seq<Sector>, d': seq<Sector>, lba: nat, n: nat)
    requires lba + n <= |d| && lba + n <= |d'|
    requires forall i :: lba <= i < lba + n ==> d'[i] == d[i]
    ensures Span(d', lba, n) == Span(d, lba, n)
  {
    if n > 0 { SpanFrame(d, d', lba, n - 1); }
  }

  /** The bytes of cluster `c`; zeros stand in for a cluster that is not on the disk. */
  function ClusterOf(g: Geometry, d: seq<Sector>, c: nat): (r: seq<byte>)
    requires g.Fits(d) && c < g.Total()
    ensures |r| == g.ClusterBytes()
  {
    if c < 2 || c >= g.Limit(|d|) then Fill(g.ClusterBytes(), 0)
    else
      ClusterLbaBounds(g, d, c);
      Span(d, g.ClusterLba(c), g.spc)
  }

  function DataUpTo(g: Geometry, d: seq<Sector>, n: nat): (r: seq<seq<byte>>)
    requires g.Fits(d) && n <= g.Total()
    ensures |r| == n && forall c :: 0 <= c < n ==> |r[c]| == g.ClusterBytes()
  {
    if n == 0 then [] else DataUpTo(g, d, n - 1) + [ClusterOf(g, d, n - 1)]
  }

  function DataOf(g: Geometry, d: seq<Sector>): (r: seq<seq<byte>>)
    requires g.Fits(d)
    ensures |r| == g.Total() && forall c :: 0 <= c < g.Total() ==> |r[c]| == g.ClusterBytes()
  {
    DataUpTo(g, d, g.Total())
  }

  lemma {:induction false} DataUpToAt(g: Geometry, d: seq<Sector>, n: nat, c: nat)
    requires g.Fits(d) && c < n <= g.Total()
    ensures DataUpTo(g, d, n)[c] == ClusterOf(g, d, c)
  {
    if c < n - 1 { DataUpToAt(g, d, n - 1, c); }
  }

  lemma DataElements(g: Geometry, d: seq<Sector>)
    requires g.Fits(d)
    ensures forall c :: 0 <= c < g.Total() ==> DataOf(g, d)[c] == ClusterOf(g, d, c)
  {
    forall c | 0 <= c < g.Total()
      ensures DataOf(g, d)[c] == ClusterOf(g, d, c)
    {
      DataUpToAt(g, d, g.Total(), c);
    }
  }

  lemma RootInside(g: Geometry, d: seq<Sector>)
    requires g.Fits(d)
    ensures g.RootStart() + g.rootSectors == g.DataStart() <= |d|
  {
  }

  /** Slot `i` of the fixed root directory: sixteen 32-byte slots a sector. */
  function SlotOf(g: Geometry, d: seq<Sector>, i: nat): (s: Slot)
    requires g.Fits(d) && i < 16 * g.rootSectors
  {
    RootInside(g, d);
    d[g.RootStart() + i / 16][32 * (i % 16)..32 * (i % 16) + 32]
  }

  function RootUpTo(g: Geometry, d: seq<Sector>, n: nat): (r: seq<Slot>)
    requires g.Fits(d) && n <= 16 * g.rootSectors
    ensures |r| == n
  {
    if n == 0 then [] else RootUpTo(g, d, n - 1) + [SlotOf(g, d, n - 1)]
  }

  function RootOf(g: Geometry, d: seq<Sector>): (r: seq<Slot>)
    requires g.Fits(d)
    ensures |r| == 16 * g.rootSectors
  {
    RootUpTo(g, d, 16 * g.rootSectors)
  }

  lemma {:induction false} RootUpToAt(g: Geometry, d: seq<Sector>, n: nat, i: nat)
    requires g.Fits(d) && i < n <= 16 * g.rootSectors
    ensures RootUpTo(g, d, n)[i] == SlotOf(g, d, i)
  {
    if i < n - 1 { RootUpToAt(g, d, n - 1, i); }
  }

  lemma RootElements(g: Geometry, d: seq<Sector>)
    requires g.Fits(d)
    ensures forall i :: 0 <= i < 16 * g.rootSectors ==> RootOf(g, d)[i] == SlotOf(g, d, i)
  {
    forall i | 0 <= i < 16 * g.rootSectors
      ensures RootOf(g, d)[i] == SlotOf(g, d, i)
    {
      RootUpToAt(g, d, 16 * g.rootSectors, i);
    }
  }

  /** The whole volume as the value the other modules reason about. */
  ghost function StoreOf(g: Geometry, d: seq<Sector>, hint: nat): (v: Store)
    requires g.Fits(d) && g.Narrow()
    ensures WellFormed(v, g.ClusterBytes())
  {
    Store(FatOf(g, d), DataOf(g, d), hint)
  }

  // ---------------------------------------------------------------- writing the layout

  /** The two disks agree outside the sectors `[lo, hi)`. */
  ghost predicate SameOutside(d: seq<Sector>, d': seq<Sector>, lo: nat, hi: nat) {
    |d| == |d'| && forall i :: 0 <= i < |d| && !(lo <= i < hi) ==> d'[i] == d[i]
  }

  lemma FatFrame(g: Geometry, d: seq<Sector>, d': seq<Sector>, lo: nat, hi: nat)
    requires g.Fits(d) && SameOutside(d, d', lo, hi) && g.RootStart() <= lo
    ensures FatOf(g, d') == FatOf(g, d)
    ensures forall cs :: Mirrored(g, d, cs) ==> Mirrored(g, d', cs)
  {
    forall f, c | 0 <= f < g.numFats && 0 <= c < g.Total()
      ensures Entry(g, d', f, c) == Entry(g, d, f, c)
    {
      FatInside(g, d, f, c);
    }
    FatElements(g, d);
    FatElements(g, d');
    EntriesMirror(g, d, d');
  }

  lemma EntriesMirror(g: Geometry, d: seq<Sector>, d': seq<Sector>)
    requires g.Fits(d) && g.Fits(d')
    requires forall f, c :: 0 <= f < g.numFats && 0 <= c < g.Total() ==> Entry(g, d', f, c) == Entry(g, d, f, c)
    ensures forall cs :: Mirrored(g, d, cs) ==> Mirrored(g, d', cs)
  {
    forall c: nat | c < g.Total() && Agree(g, d, c)
      ensures Agree(g, d', c)
    {
    }
  }

  lemma RootFrame(g: Geometry, d: seq<Sector>, d': seq<Sector>, lo: nat, hi: nat)
    requires g.Fits(d) && SameOutside(d, d', lo, hi)
    requires hi <= g.RootStart() || g.DataStart() <= lo
    ensures RootOf(g, d') == RootOf(g, d)
  {
    RootInside(g, d);
    RootElements(g, d);
    RootElements(g, d');
  }

  lemma ClusterFrame(g: Geometry, d: seq<Sector>, d': seq<Sector>, lo: nat, hi: nat, c: nat)
    requires g.Fits(d) && SameOutside(d, d', lo, hi) && c < g.Total()
    requires 2 <= c < g.Limit(|d|) ==> hi <= g.ClusterLba(c) || g.ClusterLba(c) + g.spc <= lo
    ensures ClusterOf(g, d', c) == ClusterOf(g, d, c)
  {
    if 2 <= c < g.Limit(|d|) {
      ClusterLbaBounds(g, d, c);
      SpanFrame(d, d', g.ClusterLba(c), g.spc);
    }
  }

  lemma DataFrame(g: Geometry, d: seq<Sector>, d': seq<Sector>, lo: nat, hi: nat)
    requires g.Fits(d) && SameOutside(d, d', lo, hi) && hi <= g.DataStart()
    ensures DataOf(g, d') == DataOf(g, d)
  {
    forall c | 0 <= c < g.Total()
      ensures ClusterOf(g, d', c) == ClusterOf(g, d, c)
    {
      if 2 <= c < g.Limit(|d|) { ClusterLbaBounds(g, d, c); }
      ClusterFrame(g, d, d', lo, hi, c);
    }
    DataElements(g, d);
    DataElements(g, d');
  }

  /** Writing inside one cluster changes that cluster alone. */
  lemma ClusterWrite(g: Geometry, d: seq<Sector>, d': seq<Sector>, c: nat)
    requires g.Fits(d) && 2 <= c < g.Limit(|d|)
    requires SameOutside(d, d', g.ClusterLba(c), g.ClusterLba(c) + g.spc)
    ensures DataOf(g, d') == DataOf(g, d)[c := ClusterOf(g, d', c)]
    ensures FatOf(g, d') == FatOf(g, d) && RootOf(g, d') == RootOf(g, d)
    ensures forall cs :: Mirrored(g, d, cs) ==> Mirrored(g, d', cs)
  {
    ClusterLbaBounds(g, d, c);
    var lo, hi := g.ClusterLba(c), g.ClusterLba(c) + g.spc;
    FatFrame(g, d, d', lo, hi);
    RootFrame(g, d, d', lo, hi);
    forall x | 0 <= x < g.Total() && x != c
      ensures ClusterOf(g, d', x) == ClusterOf(g, d, x)
    {
      if 2 <= x < c { ClusterLbaDistinct(g, x, c); }
      if c < x { ClusterLbaDistinct(g, c, x); }
      ClusterFrame(g, d, d', lo, hi, x);
    }
    DataElements(g, d);
    DataElements(g, d');
  }

  /** One read-modify-write of a table sector, as `fat16_set_fat_entry` does it per copy. */
  function PatchEntry(s: Sector, c: nat, v: nat): (r: Sector)
    requires v < TWO16
    ensures Le16(r, 2 * (c % 256)) == v
    ensures forall x: nat :: x < 256 && x != c % 256 ==> Le16(r, 2 * x) == Le16(s, 2 * x)
  {
    Splice(s, 2 * (c % 256), Enc16(v))
  }

  /** Patching entry `c` in copy `f` changes that one entry of that one copy. */
  lemma EntryWrite(g: Geometry, d: seq<Sector>, f: nat, c: nat, v: nat)
    requires g.Fits(d) && f < g.numFats && c < g.Total() && v < TWO16
    ensures g.FatLba(f, c) < |d|
    ensures var d' := d[g.FatLba(f, c) := PatchEntry(d[g.FatLba(f, c)], c, v)];
            && g.Fits(d')
            && SameOutside(d, d', g.fatStart, g.RootStart())
            && (forall f', c' :: 0 <= f' < g.numFats && 0 <= c' < g.Total() ==>
                  Entry(g, d', f', c') == if f' == f && c' == c then v else Entry(g, d, f', c'))
  {
    FatInside(g, d, f, c);
    FatLbaBounds(g, f, c);
    var lba := g.FatLba(f, c);
    var d' := d[lba := PatchEntry(d[lba], c, v)];
    MulMono(0, f, g.fatSz);
    forall f', c' | 0 <= f' < g.numFats && 0 <= c' < g.Total()
      ensures Entry(g, d', f', c') == if f' == f && c' == c then v else Entry(g, d, f', c')
    {
      FatInside(g, d, f', c');
      FatLbaDistinct(g, f, c, f', c');
      if g.FatLba(f', c') == lba && c' != c {
        assert c' % 256 != c % 256;
      }
    }
  }

  /** Writing one slot of the root directory changes that slot alone. */
  lemma SlotWrite(g: Geometry, d: seq<Sector>, i: nat, s: Slot)
    requires g.Fits(d) && i < 16 * g.rootSectors
    ensures g.RootStart() + i / 16 < |d|
    ensures var lba := g.RootStart() + i / 16;
            var d' := d[lba := Splice(d[lba], 32 * (i % 16), s)];
            && g.Fits(d')
            && RootOf(g, d') == RootOf(g, d)[i := s]
            && DataOf(g, d') == DataOf(g, d)
            && FatOf(g, d') == FatOf(g, d)
            && (forall cs :: Mirrored(g, d, cs) ==> Mirrored(g, d', cs))
  {
    RootInside(g, d);
    var lba := g.RootStart() + i / 16;
    var d' := d[lba := Splice(d[lba], 32 * (i % 16), s)];
    hide FatOf, DataOf, RootOf, Splice, Mirrored, SlotOf;
    DataFrame(g, d, d', lba, lba + 1);
    FatFrame(g, d, d', lba, lba + 1);
    forall j: nat | j < 16 * g.rootSectors
      ensures SlotOf(g, d', j) == if j == i then s else SlotOf(g, d, j)
    {
      SlotAfter(g, d, i, s, j);
    }
    RootElements(g, d);
    RootElements(g, d');
  }

  lemma SlotAfter(g: Geometry, d: seq<Sector>, i: nat, s: Slot, j: nat)
    requires g.Fits(d) && i < 16 * g.rootSectors && j < 16 * g.rootSectors
    ensures g.RootStart() + i / 16 < |d|
    ensures var lba := g.RootStart() + i / 16;
            SlotOf(g, d[lba := Splice(d[lba], 32 * (i % 16), s)], j) == if j == i then s else SlotOf(g, d, j)
  {
    RootInside(g, d);
    var sec := d[g.RootStart() + i / 16];
    hide Splice;
    SlotDigits(i, j);
    if j / 16 == i / 16 { SpliceSlots(sec, i % 16, s, j % 16); }
  }

  lemma SlotDigits(i: nat, j: nat)
    ensures i == j <==> i / 16 == j / 16 && i % 16 == j % 16
  {
  }

  /** Slots of one sector do not overlap. */
  lemma SpliceSlots(sec: Sector, p: nat, s: Slot, q: nat)
    requires p < 16 && q < 16
    ensures Splice(sec, 32 * p, s)[32 * q..32 * q + 32] == if q == p then s else sec[32 * q..32 * q + 32]
  {
    var r := Splice(sec, 32 * p, s);
    hide Splice;
    var got, want := r[32 * q..32 * q + 32], if q == p then s else sec[32 * q..32 * q + 32];
    forall k | 0 <= k < 32
      ensures got[k] == want[k]
    {
      assert got[k] == r[32 * q + k];
    }
  }
}
