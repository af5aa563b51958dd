/** The engine in directories other than the root: their slots through the sectors of their cluster
    chain, the lookups that walk the chain, and the create that may make it longer. */
module FatDirEngine {
  import opened Bytes
  import opened Arith
  import opened FatChains
  import opened FatFiles
  import opened FatDisk
  import opened FatVolume
  import opened FatLfn
  import opened FatDir
  import opened FatNames
  import opened FatRoot
  import opened FatRuns
  import opened FatEngine
  import opened FatTree
  import opened FatGrowth
  import opened FatTreeRuns

  // ---------------------------------------------------------------- a slot of a cluster

  lemma SlotByte(w: nat, j: nat)
    requires j < 32
    ensures 32 * w + j == 512 * (w / 16) + (32 * (w % 16) + j) && 32 * (w % 16) + j < 512
  {
  }

  lemma SpanSlot(d: seq<Sector>, lba: nat, n: nat, w: nat)
    requires lba + n <= |d| && w < 16 * n
    ensures w / 16 < n && 32 * w + 32 <= |Span(d, lba, n)|
    ensures Span(d, lba, n)[32 * w..32 * w + 32] == d[lba + w / 16][32 * (w % 16)..32 * (w % 16) + 32]
  {
    hide Span;
    var a, b := Span(d, lba, n)[32 * w..32 * w + 32], d[lba + w / 16][32 * (w % 16)..32 * (w % 16) + 32];
    forall j | 0 <= j < 32
      ensures a[j] == b[j]
    {
      SlotByte(w, j);
      SpanAt(d, lba, n, w / 16, 32 * (w % 16) + j);
    }
  }

  /** The root is a row of 32-byte slots: slot `i` is at byte 32i. */
  lemma RootBytes(g: Geometry, d: seq<Sector>, i: nat)
    requires g.Fits(d) && i < 16 * g.rootSectors
    ensures g.RootStart() + g.rootSectors <= |d|
    ensures var root := Span(d, g.RootStart(), g.rootSectors);
            32 * i + 32 <= |root| && RootOf(g, d)[i] == root[32 * i..32 * i + 32]
  {
    hide Span, RootOf;
    RootInside(g, d);
    RootElements(g, d);
    SpanSlot(d, g.RootStart(), g.rootSectors, i);
  }

  lemma SpanSpliced(d: seq<Sector>, lba: nat, n: nat, w: nat, s: Slot)
    requires lba + n <= |d| && w < 16 * n
    ensures w / 16 < n && 32 * w + 32 <= |Span(d, lba, n)|
    ensures var d' := d[lba + w / 16 := Splice(d[lba + w / 16], 32 * (w % 16), s)];
            Span(d', lba, n) == Splice(Span(d, lba, n), 32 * w, s)
  {
    hide Span, Splice;
    var at := lba + w / 16;
    var d' := d[at := Splice(d[at], 32 * (w % 16), s)];
    var got, want := Span(d', lba, n), Splice(Span(d, lba, n), 32 * w, s);
    forall k: nat | k < n * 512
      ensures got[k] == want[k]
    {
      SectorPlace(k, n);
      SpanAt(d, lba, n, k / 512, k % 512);
      SpanAt(d', lba, n, k / 512, k % 512);
      SlotByte(w, 0);
    }
  }

  /** Slot `w` of cluster `c`, read through its sector. */
  method ReadSlotAt(vol: Volume, c: nat, w: nat) returns (s: Slot)
    requires vol.Valid() && 2 <= c < vol.Limit() && w < 16 * vol.g.spc
    ensures w < |BlockSlots(vol.View().data[c])| && s == BlockSlots(vol.View().data[c])[w]
  {
    hide Mirrored, FatOf, DataOf, Span;
    ClusterLbaBounds(vol.g, vol.disk, c);
    DataElements(vol.g, vol.disk);
    SpanSlot(vol.disk, vol.g.ClusterLba(c), vol.g.spc, w);
    var buf := vol.disk[vol.g.ClusterLba(c) + w / 16];
    s := buf[32 * (w % 16)..32 * (w % 16) + 32];
  }

  /** `fat16_dir_write_raw` in a cluster. */
  method WriteSlotAt(vol: Volume, c: nat, w: nat, s: Slot)
    requires vol.Valid() && 2 <= c < vol.Limit() && w < 16 * vol.g.spc
    modifies vol`disk
    ensures vol.Valid() && 32 * w + 32 <= |old(vol.View()).data[c]|
    ensures vol.View() ==
            old(vol.View()).(data := old(vol.View()).data[c := Splice(old(vol.View()).data[c], 32 * w, s)])
    ensures RootOf(vol.g, vol.disk) == old(RootOf(vol.g, vol.disk))
  {
    hide Mirrored, FatOf, DataOf, Span, RootOf, Splice;
    ClusterLbaBounds(vol.g, vol.disk, c);
    ghost var d := vol.disk;
    SpanSpliced(d, vol.g.ClusterLba(c), vol.g.spc, w, s);
    var lba := vol.g.ClusterLba(c) + w / 16;
    vol.disk := vol.disk[lba := Splice(vol.disk[lba], 32 * (w % 16), s)];
    ClusterWrite(vol.g, d, vol.disk, c);
    DataElements(vol.g, d);
  }

  // ---------------------------------------------------------------- a slot of a chain

  /** Every block holds `cb` bytes. */
  ghost predicate Even(data: seq<seq<byte>>, cb: nat) { forall c :: 0 <= c < |data| ==> |data[c]| == cb }

  lemma {:induction false} ChainSlots(data: seq<seq<byte>>, ds: seq<nat>, cb: nat)
    requires InData(data, ds) && Even(data, cb)
    ensures |DirSlots(data, ds)| == SlotsIn(|ds|, cb)
  {
    if ds == [] {
      NoSlots(cb);
    } else {
      hide DirSlots, SlotsIn;
      DirSlotsStep(data, ds);
      ChainSlots(data, ds[1..], cb);
      MoreSlots(|ds| - 1, cb);
    }
  }

  /** Slot `w` of the `k`-th cluster of a directory. */
  lemma {:induction false} ChainSlotAt(data: seq<seq<byte>>, ds: seq<nat>, cb: nat, k: nat, w: nat)
    requires InData(data, ds) && Even(data, cb) && k < |ds| && w < cb / 32
    ensures SlotsIn(k, cb) + w < |DirSlots(data, ds)| && w < |BlockSlots(data[ds[k]])|
    ensures DirSlots(data, ds)[SlotsIn(k, cb) + w] == BlockSlots(data[ds[k]])[w]
  {
    hide DirSlots, SlotsIn, BlockSlots;
    DirSlotsStep(data, ds);
    if k == 0 {
      NoSlots(cb);
    } else {
      ChainSlotAt(data, ds[1..], cb, k - 1, w);
      MoreSlots(k - 1, cb);
    }
  }

  lemma BlockWhole(block: seq<byte>)
    requires |block| % 32 == 0
    ensures BlockOf(BlockSlots(block)) == block
  {
    var got := BlockOf(BlockSlots(block));
    forall k: nat | k < |block|
      ensures got[k] == block[k]
    {
      BlockOfAt(BlockSlots(block), k / 32);
      assert got[k] == got[32 * (k / 32)..32 * (k / 32) + 32][k % 32];
    }
  }

  /** Putting back what is there changes nothing. */
  lemma {:induction false} PutSame(data: seq<seq<byte>>, ds: seq<nat>)
    requires InData(data, ds) && WholeSlots(data)
    ensures PutDir(data, ds, DirSlots(data, ds)) == data
  {
    if ds != [] {
      hide PutDir, DirSlots, BlockOf, BlockSlots;
      var slots := DirSlots(data, ds);
      DirSlotsStep(data, ds);
      PutDirStep(data, ds, slots);
      var n := |data[ds[0]]| / 32;
      BlockCount(data[ds[0]]);
      assert slots[..n] == BlockSlots(data[ds[0]]) && slots[n..] == DirSlots(data, ds[1..]);
      PutSame(data, ds[1..]);
      BlockWhole(data[ds[0]]);
    }
  }

  lemma BlockCount(block: seq<byte>)
    ensures |BlockSlots(block)| == |block| / 32
  {
  }

  lemma BlockPatched(slots: seq<Slot>, w: nat, s: Slot)
    requires w < |slots|
    ensures BlockOf(slots[w := s]) == Splice(BlockOf(slots), 32 * w, s)
  {
    var got, want := BlockOf(slots[w := s]), Splice(BlockOf(slots), 32 * w, s);
    hide BlockOf, Splice;
    forall k: nat | k < 32 * |slots|
      ensures got[k] == want[k]
    {
      BlockOfAt(slots, k / 32);
      BlockOfAt(slots[w := s], k / 32);
      assert got[k] == got[32 * (k / 32)..32 * (k / 32) + 32][k % 32];
      assert BlockOf(slots)[k] == BlockOf(slots)[32 * (k / 32)..32 * (k / 32) + 32][k % 32];
    }
  }

  /** Writing one slot of the `k`-th cluster is putting the directory with that slot changed. */
  lemma {:induction false} PutSlot(data: seq<seq<byte>>, ds: seq<nat>, cb: nat, slots: seq<Slot>, k: nat, w: nat,
                                   s: Slot)
    requires InData(data, ds) && Even(data, cb) && cb % 32 == 0 && Distinct(ds) && |slots| == |DirSlots(data, ds)|
    requires k < |ds| && w < cb / 32
    ensures SlotsIn(k, cb) + w < |slots| && 32 * w + 32 <= |PutDir(data, ds, slots)[ds[k]]|
    ensures var was := PutDir(data, ds, slots);
            PutDir(data, ds, slots[SlotsIn(k, cb) + w := s]) == was[ds[k] := Splice(was[ds[k]], 32 * w, s)]
  {
    hide PutDir, DirSlots, SlotsIn, BlockOf, Splice, Distinct;
    DirSlotsStep(data, ds);
    PutDirStep(data, ds, slots);
    TailDistinct(ds);
    var n, rest := cb / 32, ds[1..];
    assert |data[ds[0]]| == cb;
    if k == 0 {
      NoSlots(cb);
      PutDirStep(data, ds, slots[w := s]);
      assert slots[w := s][..n] == slots[..n][w := s] && slots[w := s][n..] == slots[n..];
      BlockPatched(slots[..n], w, s);
    } else {
      MoreSlots(k - 1, cb);
      PutSlot(data, rest, cb, slots[n..], k - 1, w, s);
      var i := SlotsIn(k, cb) + w;
      PutDirStep(data, ds, slots[i := s]);
      assert slots[i := s][..n] == slots[..n] && slots[i := s][n..] == slots[n..][i - n := s];
    }
  }

  // ---------------------------------------------------------------- walking the chain

  /** `ds` is the chain of the directory that starts at cluster `d`, and all of it is on the disk. */
  ghost predicate DirAt(vol: Volume, d: nat, ds: seq<nat>)
    reads vol
  {
    && vol.Valid() && ds != [] && ds[0] == d && IsChain(vol.View().fat, ds) && Below(ds, vol.Limit())
    && InData(vol.View().data, ds)
  }

  ghost function DirOf(vol: Volume, d: nat, ds: seq<nat>): (r: seq<Slot>)
    requires DirAt(vol, d, ds)
    reads vol
  {
    DirSlots(vol.View().data, ds)
  }

  /** The walk stands before slot `i`, which is slot `w` of `cluster`, the `k`-th of the chain. */
  ghost predicate Cursor(ds: seq<nat>, per: nat, k: nat, cluster: nat, w: nat, i: nat) {
    && k <= |ds| && Standing(ds, k, cluster) && i == k * per + w
    && (if k < |ds| then w < per else w == 0)
  }

  lemma PerCluster(g: Geometry)
    ensures g.ClusterBytes() / 32 == 16 * g.spc && g.ClusterBytes() % 32 == 0
  {
  }

  lemma CursorStart(ds: seq<nat>, fat: seq<nat>, per: nat)
    requires ds != [] && IsChain(fat, ds) && |fat| <= EOC && per > 0
    ensures Cursor(ds, per, 0, ds[0], 0, 0)
  {
  }

  /** A walk at the end of the chain has seen every slot. */
  lemma CursorEnd(vol: Volume, d: nat, ds: seq<nat>, k: nat, cluster: nat, w: nat, i: nat)
    requires DirAt(vol, d, ds) && Cursor(ds, 16 * vol.g.spc, k, cluster, w, i) && k == |ds|
    ensures i == |DirOf(vol, d, ds)|
  {
    hide DirSlots, IsChain, FatOf, DataOf, Mirrored;
    PerCluster(vol.g);
    ChainSlots(vol.View().data, ds, vol.g.ClusterBytes());
  }

  /** The slot the walk stands before. */
  method Fetch(vol: Volume, d: nat, cluster: nat, w: nat, ghost ds: seq<nat>, ghost k: nat, ghost i: nat)
    returns (s: Slot)
    requires DirAt(vol, d, ds) && Cursor(ds, 16 * vol.g.spc, k, cluster, w, i) && k < |ds|
    ensures i < |DirOf(vol, d, ds)| && s == DirOf(vol, d, ds)[i]
  {
    hide DirSlots, BlockSlots, FatOf, DataOf, Mirrored;
    PerCluster(vol.g);
    ChainInside(vol.View().fat, ds);
    ChainSlotAt(vol.View().data, ds, vol.g.ClusterBytes(), k, w);
    s := ReadSlotAt(vol, cluster, w);
  }

  /** On to the next slot, and behind the last slot of a cluster to the next cluster. */
  method Advance(vol: Volume, d: nat, cluster: nat, w: nat, ghost ds: seq<nat>, ghost k: nat, ghost i: nat)
    returns (cluster': nat, w': nat, ghost k': nat)
    requires DirAt(vol, d, ds) && Cursor(ds, 16 * vol.g.spc, k, cluster, w, i) && k < |ds|
    ensures Cursor(ds, 16 * vol.g.spc, k', cluster', w', i + 1)
    ensures (k' == k && w' == w + 1) || (k' == k + 1 && w' == 0)
  {
    hide FatOf, DataOf, Mirrored, IsChain;
    cluster', w', k' := cluster, w + 1, k;
    if w' == 16 * vol.g.spc {
      ChainNext(vol.View().fat, ds, k);
      cluster' := vol.GetFatEntry(cluster);
      MulStep(k, 16 * vol.g.spc);
      w', k' := 0, k + 1;
    }
  }

  /** `fat16_short_name_exists` in a directory other than the root. */
  method ShortNameExistsIn(vol: Volume, d: nat, short: Short, ghost ds: seq<nat>) returns (r: bool)
    requires DirAt(vol, d, ds)
    ensures r == Taken(DirOf(vol, d, ds), short)
  {
    hide DirAt, DirOf, Cursor, TakenFrom;
    ghost var slots := DirOf(vol, d, ds);
    var cluster: nat, w: nat := d, 0;
    ghost var k, i: nat := 0, 0;
    WalkStarts(vol, d, ds);
    while cluster < EOC
      invariant Cursor(ds, 16 * vol.g.spc, k, cluster, w, i) && i <= |slots|
      invariant Taken(slots, short) == TakenFrom(slots, short, i)
      decreases |slots| - i
    {
      CursorInside(ds, 16 * vol.g.spc, k, cluster, w, i);
      var s := Fetch(vol, d, cluster, w, ds, k, i);
      TakenStep(slots, short, i);
      if s[0] == 0 { return false; }
      if s[0] != DELETED && s[11] != LFN_ATTR && s[..8] == short[..8] && s[8..11] == short[8..] {
        assert s[..11] == s[..8] + s[8..11] == short;
        return true;
      }
      assert s[..11] == short ==> s[..8] == short[..8] && s[8..11] == short[8..] by {
        if s[..11] == short { assert s[..11][..8] == s[..8] && s[..11][8..] == s[8..11]; }
      }
      cluster, w, k := Advance(vol, d, cluster, w, ds, k, i);
      i := i + 1;
    }
    CursorOutside(ds, 16 * vol.g.spc, k, cluster, w, i);
    CursorEnd(vol, d, ds, k, cluster, w, i);
    TakenEnd(slots, short);
    return false;
  }

  lemma WalkStarts(vol: Volume, d: nat, ds: seq<nat>)
    requires DirAt(vol, d, ds)
    ensures vol.Valid() && Cursor(ds, 16 * vol.g.spc, 0, d, 0, 0)
  {
    hide FatOf, DataOf, Mirrored, IsChain;
    CursorStart(ds, vol.View().fat, 16 * vol.g.spc);
  }

  lemma CursorInside(ds: seq<nat>, per: nat, k: nat, cluster: nat, w: nat, i: nat)
    requires Cursor(ds, per, k, cluster, w, i) && cluster < EOC
    ensures k < |ds|
  {
  }

  lemma CursorOutside(ds: seq<nat>, per: nat, k: nat, cluster: nat, w: nat, i: nat)
    requires Cursor(ds, per, k, cluster, w, i) && cluster >= EOC
    ensures k == |ds|
  {
  }

  lemma TakenStep(slots: seq<Slot>, short: Short, i: nat)
    requires i < |slots|
    ensures TakenFrom(slots, short, i) ==
            if slots[i][0] == 0 then false
            else if IsLive(slots[i]) && slots[i][..11] == short then true
            else TakenFrom(slots, short, i + 1)
  {
  }

  lemma TakenEnd(slots: seq<Slot>, short: Short)
    ensures !TakenFrom(slots, short, |slots|)
  {
  }

  /** `fat16_iterate_dir` with the lookup callback, in a directory other than the root. */
  method FindEntrySlotIn(vol: Volume, d: nat, name: seq<byte>, ghost ds: seq<nat>) returns (r: Option<Item>)
    requires DirAt(vol, d, ds)
    ensures r == FirstMatch(Items(DirOf(vol, d, ds)), name)
  {
    hide Push, MakeItem, Matches, Scan, FirstMatch, DirAt, DirOf, Cursor;
    ghost var slots := DirOf(vol, d, ds);
    ghost var goal := FirstMatch(Items(slots), name);
    var cluster: nat, w: nat, i: nat, st := d, 0, 0, Idle;
    ghost var k: nat := 0;
    WalkStarts(vol, d, ds);
    while cluster < EOC
      invariant Cursor(ds, 16 * vol.g.spc, k, cluster, w, i) && i <= |slots|
      invariant goal == FirstMatch(Scan(slots, i, st), name)
      decreases |slots| - i
    {
      CursorInside(ds, 16 * vol.g.spc, k, cluster, w, i);
      var s := Fetch(vol, d, cluster, w, ds, k, i);
      LookupStep(slots, i, st, name);
      if s[0] == 0 { return None; }
      if s[0] == DELETED {
        st := Idle;
      } else if s[11] == LFN_ATTR {
        st := Push(st, s, i);
      } else {
        var item := MakeItem(st, s, i);
        if Matches(item, name) { return Some(item); }
        st := Idle;
      }
      cluster, w, k := Advance(vol, d, cluster, w, ds, k, i);
      i := i + 1;
    }
    CursorOutside(ds, 16 * vol.g.spc, k, cluster, w, i);
    CursorEnd(vol, d, ds, k, cluster, w, i);
    LookupEnd(slots, i, st, name);
    return None;
  }

  /** `fat16_generate_short_name` in a directory other than the root. */
  method GenerateShortNameIn(vol: Volume, d: nat, name: seq<byte>, ghost ds: seq<nat>) returns (r: Option<Short>)
    requires DirAt(vol, d, ds)
    ensures r == Generate(DirOf(vol, d, ds), name)
  {
    hide Candidate, Taken, DirAt, DirOf;
    ghost var slots := DirOf(vol, d, ds);
    var n := 0;
    while n < 10000
      invariant 0 <= n <= 10000
      invariant Generate(slots, name) == GenerateFrom(slots, name, n)
    {
      var taken := ShortNameExistsIn(vol, d, Candidate(name, n), ds);
      if !taken { return Some(Candidate(name, n)); }
      n := n + 1;
    }
    return None;
  }

  /** The checks and names of `fat16_create_file` in a directory other than the root. */
  method SettleIn(vol: Volume, d: nat, name: seq<byte>, ghost ds: seq<nat>) returns (r: Option<Spot>)
    requires DirAt(vol, d, ds)
    ensures r == Settle(DirOf(vol, d, ds), name)
  {
    hide Items, Prepare, Taken, Generate, NeedsLong, Format83, FragmentCount, DirAt, DirOf;
    if name == [] || IsDots(name) { return None; }
    var found := FindEntrySlotIn(vol, d, name, ds);
    if found.Some? { return None; }
    if NeedsLong(name) {
      var long := Prepare(name);
      if long.None? { return None; }
      var short := GenerateShortNameIn(vol, d, long.value, ds);
      if short.None? { return None; }
      return Some(Spot(long.value, FragmentCount(long.value), short.value, 0));
    }
    var taken := ShortNameExistsIn(vol, d, Format83(name), ds);
    if taken { return None; }
    return Some(Spot(name, 0, Format83(name), 0));
  }

  // ---------------------------------------------------------------- room in the chain

  /** Where a slot lies. */
  datatype At = At(cluster: nat, w: nat)

  /** `p` is where slot `i` of the chain lies. */
  ghost predicate OnSlot(ds: seq<nat>, per: nat, p: At, i: nat) {
    p.w < per && exists k :: 0 <= k < |ds| && p.cluster == ds[k] && i == k * per + p.w
  }

  /** The slots from `a` on. */
  ghost predicate Places(ds: seq<nat>, per: nat, a: nat, ps: seq<At>) {
    forall j :: 0 <= j < |ps| ==> OnSlot(ds, per, ps[j], a + j)
  }

  lemma PlacesMore(ds: seq<nat>, per: nat, a: nat, ps: seq<At>, k: nat, cluster: nat, w: nat)
    requires Places(ds, per, a, ps) && Cursor(ds, per, k, cluster, w, a + |ps|) && k < |ds|
    ensures Places(ds, per, a, ps + [At(cluster, w)])
  {
  }

  /** `fat16_find_free_slots` in a directory other than the root, as far as the chain reaches; without a run
      it ends at the last cluster. */
  method FindRunIn(vol: Volume, d: nat, needed: nat, ghost ds: seq<nat>)
    returns (found: bool, run: seq<At>, last: nat)
    requires DirAt(vol, d, ds) && needed > 0
    ensures var r := FindRun(DirOf(vol, d, ds), 0, needed);
            found == r.Some? && (found ==> |run| == needed && Places(ds, 16 * vol.g.spc, r.value, run))
    ensures !found ==> last == ds[|ds| - 1]
  {
    hide DirAt, DirOf, Cursor, FindRun, Places;
    ghost var slots, per := DirOf(vol, d, ds), 16 * vol.g.spc;
    var cluster: nat, w: nat, i: nat := d, 0, 0;
    ghost var k: nat := 0;
    run, last := [], 0;
    WalkStarts(vol, d, ds);
    NoPlaces(ds, per, 0);
    while cluster < EOC
      invariant Cursor(ds, per, k, cluster, w, i) && i <= |slots| && |run| <= i && |run| < needed
      invariant FreeRun(slots, i - |run|, |run|)
      invariant FindRun(slots, 0, needed) == FindRun(slots, i - |run|, needed)
      invariant Places(ds, per, i - |run|, run)
      invariant k <= |ds| && (if w > 0 then k < |ds| && last == ds[k] else k > 0 ==> last == ds[k - 1])
      decreases |slots| - i
    {
      CursorInside(ds, per, k, cluster, w, i);
      CursorAt(ds, per, k, cluster, w, i);
      var s := Fetch(vol, d, cluster, w, ds, k, i);
      last := cluster;
      if s[0] == 0 || s[0] == DELETED {
        PlacesMore(ds, per, i - |run|, run, k, cluster, w);
        run := run + [At(cluster, w)];
        if |run| == needed {
          RunFound(slots, i + 1 - |run|, needed);
          return true, run, last;
        }
      } else {
        SkipUsed(slots, i - |run|, i, needed);
        run := [];
        NoPlaces(ds, per, i + 1);
      }
      cluster, w, k := Advance(vol, d, cluster, w, ds, k, i);
      i := i + 1;
      CursorBounds(ds, per, k, cluster, w, i);
    }
    CursorOutside(ds, per, k, cluster, w, i);
    CursorAtEnd(ds, per, k, cluster, w, i);
    CursorEnd(vol, d, ds, k, cluster, w, i);
    NoRunLeft(slots, i - |run|, needed);
    ChainStarts(vol, d, ds);
    return false, run, last;
  }

  lemma NoPlaces(ds: seq<nat>, per: nat, a: nat)
    ensures Places(ds, per, a, [])
  {
  }

  lemma CursorAt(ds: seq<nat>, per: nat, k: nat, cluster: nat, w: nat, i: nat)
    requires Cursor(ds, per, k, cluster, w, i) && k < |ds|
    ensures cluster == ds[k]
  {
  }

  lemma CursorBounds(ds: seq<nat>, per: nat, k: nat, cluster: nat, w: nat, i: nat)
    requires Cursor(ds, per, k, cluster, w, i)
    ensures k <= |ds| && (w > 0 ==> k < |ds|)
  {
  }

  lemma CursorAtEnd(ds: seq<nat>, per: nat, k: nat, cluster: nat, w: nat, i: nat)
    requires Cursor(ds, per, k, cluster, w, i) && k == |ds|
    ensures w == 0
  {
  }

  lemma ChainStarts(vol: Volume, d: nat, ds: seq<nat>)
    requires DirAt(vol, d, ds)
    ensures |ds| > 0 && ds[0] == d
  {
  }

  // ---------------------------------------------------------------- growth

  lemma PlacesBehind(ds: seq<nat>, cs: seq<nat>, per: nat, ps: seq<At>)
    requires Places(cs, per, 0, ps)
    ensures Places(ds + cs, per, |ds| * per, ps)
  {
    forall j | 0 <= j < |ps|
      ensures OnSlot(ds + cs, per, ps[j], |ds| * per + j)
    {
      assert OnSlot(cs, per, ps[j], 0 + j);
      var k :| 0 <= k < |cs| && ps[j].cluster == cs[k] && j == k * per + ps[j].w;
      assert (ds + cs)[|ds| + k] == cs[k];
      Scaled(|ds|, k, per);
    }
  }

  lemma Scaled(a: nat, b: nat, per: nat)
    ensures (a + b) * per == a * per + b * per
  {
  }

  /** The slots of the new clusters, walked from the first. */
  method NewPlaces(vol: Volume, first: nat, needed: nat, ghost cs: seq<nat>) returns (ps: seq<At>)
    requires DirAt(vol, first, cs) && needed <= |cs| * (16 * vol.g.spc)
    ensures |ps| == needed && Places(cs, 16 * vol.g.spc, 0, ps)
  {
    hide DirAt, Cursor, Places;
    ghost var per := 16 * vol.g.spc;
    var cluster: nat, w: nat := first, 0;
    ghost var k: nat := 0;
    ps := [];
    WalkStarts(vol, first, cs);
    NoPlaces(cs, per, 0);
    while |ps| < needed
      invariant |ps| <= needed && Cursor(cs, per, k, cluster, w, |ps|) && Places(cs, per, 0, ps)
    {
      CursorShort(cs, per, k, cluster, w, |ps|);
      PlacesMore(cs, per, 0, ps, k, cluster, w);
      var next, w', k' := Advance(vol, first, cluster, w, cs, k, |ps|);
      ps := ps + [At(cluster, w)];
      cluster, w, k := next, w', k';
    }
  }

  lemma CursorShort(ds: seq<nat>, per: nat, k: nat, cluster: nat, w: nat, i: nat)
    requires Cursor(ds, per, k, cluster, w, i) && i < |ds| * per
    ensures k < |ds|
  {
  }

  /** The second half of `fat16_find_free_slots`: new clusters behind the last, and the first slots of
      them. */
  method GrowDir(vol: Volume, d: nat, needed: nat, last: nat, ghost ds: seq<nat>)
    returns (ok: bool, ps: seq<At>, ghost cs: seq<nat>)
    requires DirAt(vol, d, ds) && last == ds[|ds| - 1] && vol.g.ClusterBytes() >= 512 && needed > 0
    requires Safe(vol.View().fat, vol.hint, vol.Limit(), GrowCount(needed, vol.g.ClusterBytes()))
    modifies vol
    ensures vol.Valid() && RootOf(vol.g, vol.disk) == old(RootOf(vol.g, vol.disk))
    ensures last < |old(vol.View()).fat|
    ensures var m := GrowCount(needed, vol.g.ClusterBytes());
            && (vol.View(), cs) == Reserve(old(vol.View()), vol.g.ClusterBytes(), m, last, Zeroed)
            && (ok <==> |cs| == m)
    ensures DirAt(vol, d, ds + cs)
    ensures ok ==> |ps| == needed && Places(ds + cs, 16 * vol.g.spc, SlotsIn(|ds|, vol.g.ClusterBytes()), ps)
  {
    hide FatOf, DataOf, RootOf, Mirrored, Reserve, Safe, GrowCount, Places, IsChain, Grown, Below, InData,
         SlotsIn;
    ghost var v, cb := vol.View(), vol.g.ClusterBytes();
    var m := GrowCount(needed, vol.g.ClusterBytes());
    LastUsed(v.fat, ds);
    ReserveGrows(v, cb, m, last, Zeroed);
    var first, got;
    first, got, cs := vol.ReserveChain(m, last, Zeroed);
    GrownDirAt(vol, d, v, ds, cs);
    ok, ps := got == m, [];
    if ok {
      GrowCountHolds(needed, cb);
      PerCluster(vol.g);
      GrownNotEmpty(needed, cb);
      NewDirAt(vol, v, last, cs);
      SlotsInIs(m, vol.g);
      ps := NewPlaces(vol, first, needed, cs);
      PlacesBehind(ds, cs, 16 * vol.g.spc, ps);
      SlotsInIs(|ds|, vol.g);
    }
  }

  lemma LastUsed(fat: seq<nat>, ds: seq<nat>)
    requires IsChain(fat, ds) && ds != []
    ensures InTable(fat, ds[|ds| - 1]) && fat[ds[|ds| - 1]] != 0
  {
    assert ds[|ds| - 1] in ds;
    ChainEntryUsed(fat, ds, ds[|ds| - 1]);
  }

  lemma GrownNotEmpty(needed: nat, cb: nat)
    requires needed > 0 && cb >= 32
    ensures GrowCount(needed, cb) > 0
  {
    GrowCountHolds(needed, cb);
  }

  lemma SlotsInIs(m: nat, g: Geometry)
    ensures SlotsIn(m, g.ClusterBytes()) == m * (16 * g.spc)
  {
    PerCluster(g);
  }

  lemma GrownDirAt(vol: Volume, d: nat, v: Store, ds: seq<nat>, cs: seq<nat>)
    requires vol.Valid() && ds != [] && ds[0] == d && IsChain(v.fat, ds) && |v.fat| == |vol.View().fat|
    requires Grown(v.fat, vol.View().fat, ds[|ds| - 1], cs) && Below(ds, vol.Limit()) && Below(cs, vol.Limit())
    ensures DirAt(vol, d, ds + cs)
  {
    hide FatOf, DataOf, Mirrored, IsChain, Grown;
    GrownExtends(v.fat, vol.View().fat, ds, cs);
    ChainInside(vol.View().fat, ds + cs);
  }

  lemma NewDirAt(vol: Volume, v: Store, last: nat, cs: seq<nat>)
    requires vol.Valid() && cs != [] && Grown(v.fat, vol.View().fat, last, cs) && Below(cs, vol.Limit())
    ensures DirAt(vol, cs[0], cs)
  {
    hide FatOf, DataOf, Mirrored, IsChain, Grown;
    GrownIsChain(v.fat, vol.View().fat, last, cs);
    ChainInside(vol.View().fat, cs);
  }

  // ---------------------------------------------------------------- writing the entry

  /** The volume's data is `data` with directory `ds` holding `slots`. */
  ghost predicate Holds(vol: Volume, v: Store, ds: seq<nat>, slots: seq<Slot>)
    reads vol
  {
    && vol.Valid() && InData(v.data, ds) && |slots| == |DirSlots(v.data, ds)|
    && vol.View() == v.(data := PutDir(v.data, ds, slots))
  }

  /** One slot of the directory. */
  method WritePlace(vol: Volume, p: At, s: Slot, ghost v: Store, ghost ds: seq<nat>, ghost slots: seq<Slot>,
                    ghost i: nat)
    requires Holds(vol, v, ds, slots) && WellFormed(v, vol.g.ClusterBytes()) && IsChain(v.fat, ds)
    requires Below(ds, vol.Limit()) && OnSlot(ds, 16 * vol.g.spc, p, i)
    modifies vol`disk
    ensures i < |slots| && Holds(vol, v, ds, slots[i := s])
    ensures RootOf(vol.g, vol.disk) == old(RootOf(vol.g, vol.disk))
  {
    hide FatOf, DataOf, RootOf, Mirrored, DirSlots, PutDir, Splice, IsChain, SlotsIn;
    ghost var k: nat :| k < |ds| && p.cluster == ds[k] && i == k * (16 * vol.g.spc) + p.w;
    PerCluster(vol.g);
    SlotsInIs(k, vol.g);
    ChainInside(v.fat, ds);
    ChainDistinct(v.fat, ds);
    PutSlot(v.data, ds, vol.g.ClusterBytes(), slots, k, p.w, s);
    WriteSlotAt(vol, p.cluster, p.w, s);
  }

  /** The fragments and then the short entry, into the places found. */
  method StoreEntryIn(vol: Volume, ps: seq<At>, s: Spot, e: Slot, ghost v: Store, ghost ds: seq<nat>,
                      ghost slots: seq<Slot>, ghost a: nat)
    requires Holds(vol, v, ds, slots) && WellFormed(v, vol.g.ClusterBytes()) && IsChain(v.fat, ds)
    requires Below(ds, vol.Limit()) && Places(ds, 16 * vol.g.spc, a, ps) && |ps| == s.count + 1
    requires s.count <= MAX_ENTRIES && (s.count == 0 || s.count == FragmentCount(s.long))
    requires a + s.count < |slots|
    modifies vol`disk
    ensures Holds(vol, v, ds, Place(slots, a, s.long, s.count, e))
    ensures RootOf(vol.g, vol.disk) == old(RootOf(vol.g, vol.disk))
  {
    hide Holds, Fragment, RootOf, WellFormed, IsChain, Below;
    HoldsValid(vol, v, ds, slots);
    ghost var root, sum := RootOf(vol.g, vol.disk), Checksum(e[..11]);
    ghost var now := slots;
    for i := 0 to s.count
      invariant now == PlaceRun(slots, a, s.long, s.count, sum, i) && Holds(vol, v, ds, now)
      invariant vol.Valid() && RootOf(vol.g, vol.disk) == root
    {
      assert OnSlot(ds, 16 * vol.g.spc, ps[i], a + i);
      var f := BuildFragment(s.long, s.count, i, Checksum(e[..11]));
      WritePlace(vol, ps[i], f, v, ds, now, a + i);
      HoldsValid(vol, v, ds, now[a + i := f]);
      assert a + (i + 1) - 1 == a + i && (i + 1) - 1 == i;
      now := now[a + i := f];
    }
    assert OnSlot(ds, 16 * vol.g.spc, ps[s.count], a + s.count);
    WritePlace(vol, ps[s.count], e, v, ds, now, a + s.count);
    HoldsValid(vol, v, ds, now[a + s.count := e]);
  }

  lemma HoldsValid(vol: Volume, v: Store, ds: seq<nat>, slots: seq<Slot>)
    requires Holds(vol, v, ds, slots)
    ensures vol.Valid()
  {
  }

  // ---------------------------------------------------------------- create

  /** The volume with its directories as the value the tree theorems speak of. */
  ghost function TreeOf(vol: Volume, dirs: map<nat, seq<nat>>): (t: Tree)
    requires vol.Valid()
    reads vol
  {
    Tree(vol.View(), RootOf(vol.g, vol.disk), dirs)
  }

  /** The directory is on the disk, and so is every cluster the create takes for it and for the file. */
  ghost predicate CreateInBacked(t: Tree, cb: nat, d: nat, name: seq<byte>, n: nat, limit: nat)
    requires Usable(t, cb, d) && d in t.dirs
  {
    && Below(t.dirs[d], limit)
    && var s, w := Settle(Slots(t, d), name), RoomFor(t, cb, d, name);
       && 2 <= |w.t.store.fat|
       && (s.Some? && FindRun(Slots(t, d), 0, s.value.count + 1).None? ==>
             Safe(t.store.fat, t.store.hint, limit, GrowCount(s.value.count + 1, cb)))
       && (w.spot.Some? ==> Safe(w.t.store.fat, w.t.store.hint, limit, n))
  }

  lemma GoodDirAt(vol: Volume, dirs: map<nat, seq<nat>>, chains: map<Key, seq<nat>>, d: nat)
    requires vol.Valid() && TreeGood(TreeOf(vol, dirs), vol.g.ClusterBytes(), chains) && d in dirs
    requires Below(dirs[d], vol.Limit())
    ensures DirAt(vol, d, dirs[d]) && DirOf(vol, d, dirs[d]) == Slots(TreeOf(vol, dirs), d)
    ensures d != 0 && vol.g.ClusterBytes() >= 512
  {
    hide FatOf, DataOf, RootOf, Mirrored, TreeFiles, DirOk, Sound, IsChain, DirSlots;
    var t := TreeOf(vol, dirs);
    var k := HomeOf(t, vol.g.ClusterBytes(), chains, d);
    HomeIsKey(t, chains, d, k);
    SoundChain(t.store.fat, TreeFiles(t), chains, k);
  }

  /** Room for the entry, in the chain or in new clusters. */
  method FindRoomIn(vol: Volume, d: nat, name: seq<byte>, ghost dirs: map<nat, seq<nat>>,
                    ghost chains: map<Key, seq<nat>>, ghost n: nat)
    returns (spot: Option<Spot>, ps: seq<At>, ghost dirs': map<nat, seq<nat>>)
    requires vol.Valid() && TreeGood(TreeOf(vol, dirs), vol.g.ClusterBytes(), chains) && d in dirs
    requires Usable(TreeOf(vol, dirs), vol.g.ClusterBytes(), d)
    requires CreateInBacked(TreeOf(vol, dirs), vol.g.ClusterBytes(), d, name, n, vol.Limit())
    modifies vol
    ensures vol.Valid() && d in dirs' && Below(dirs'[d], vol.Limit())
    ensures var w := RoomFor(old(TreeOf(vol, dirs)), vol.g.ClusterBytes(), d, name);
            TreeOf(vol, dirs') == w.t && (spot.Some? <==> w.spot.Some?)
            && (spot.Some? ==>
                  && spot.value.(at := w.spot.value.at) == w.spot.value && |ps| == spot.value.count + 1
                  && (spot.value.count == 0 || spot.value.count == FragmentCount(spot.value.long))
                  && Places(dirs'[d], 16 * vol.g.spc, w.spot.value.at, ps))
  {
    hide DirAt, DirOf, Places, Settle, FindRun, Safe, GrowCount, SlotsIn, RootOf, FatOf, DataOf, Mirrored, Reserve,
         TreeGood, Usable, Slots, Below;
    ghost var t, cb, ds := TreeOf(vol, dirs), vol.g.ClusterBytes(), dirs[d];
    GoodDirAt(vol, dirs, chains, d);
    dirs' := dirs;
    var s := SettleIn(vol, d, name, ds);
    ps := [];
    SettledCount(Slots(t, d), name);
    RoomIs(t, cb, d, name);
    if s.None? { return None, ps, dirs'; }
    var found, last;
    found, ps, last := FindRunIn(vol, d, s.value.count + 1, ds);
    if found { return s, ps, dirs'; }
    ChainStarts(vol, d, ds);
    ghost var cs;
    var ok;
    DirSize(vol, d, ds);
    ok, ps, cs := GrowDir(vol, d, s.value.count + 1, last, ds);
    dirs' := dirs[d := ds + cs];
    DirBelow(vol, d, ds + cs);
    if !ok { return None, ps, dirs'; }
    return s, ps, dirs';
  }

  lemma DirBelow(vol: Volume, d: nat, ds: seq<nat>)
    requires DirAt(vol, d, ds)
    ensures Below(ds, vol.Limit())
  {
  }

  lemma DirSize(vol: Volume, d: nat, ds: seq<nat>)
    requires DirAt(vol, d, ds)
    ensures |DirOf(vol, d, ds)| == SlotsIn(|ds|, vol.g.ClusterBytes())
  {
    hide FatOf, DataOf, Mirrored, DirSlots, SlotsIn, IsChain;
    ChainSlots(vol.View().data, ds, vol.g.ClusterBytes());
  }

  lemma SettledCount(slots: seq<Slot>, name: seq<byte>)
    ensures var s := Settle(slots, name);
            s.Some? ==> s.value.count == 0 || s.value.count == FragmentCount(s.value.long)
  {
    hide Settle, FragmentCount, NeedsLong, Prepare, Taken, Items, FirstMatch;
    SettleMeans(slots, name);
  }

  /** The cases of `RoomFor`. */
  lemma RoomIs(t: Tree, cb: nat, d: nat, name: seq<byte>)
    requires Usable(t, cb, d) && d in t.dirs && d != 0
    ensures var s, w := Settle(Slots(t, d), name), RoomFor(t, cb, d, name);
            && (s.None? ==> w == Room(None, t))
            && (s.Some? ==>
                  var run := FindRun(Slots(t, d), 0, s.value.count + 1);
                  && (run.Some? ==> w == Room(Some(s.value.(at := run.value)), t))
                  && (run.None? ==>
                        && cb >= 512 && t.dirs[d] != [] && 2 <= |t.store.fat| == |t.store.data|
                        && t.dirs[d][|t.dirs[d]| - 1] < |t.store.fat|
                        && var m := GrowCount(s.value.count + 1, cb);
                           var (st, cs) := Reserve(t.store, cb, m, t.dirs[d][|t.dirs[d]| - 1], Zeroed);
                           && w.t == t.(store := st, dirs := t.dirs[d := t.dirs[d] + cs])
                           && w.spot == if |cs| == m then Some(s.value.(at := |Slots(t, d)|)) else None))
  {
    hide Settle, FindRun, GrowCount, Reserve, Slots, ZeroSuffix, Unique;
  }

  /** The room found is inside the directory. */
  lemma RoomInside(t: Tree, cb: nat, chains: map<Key, seq<nat>>, d: nat, name: seq<byte>)
    requires TreeGood(t, cb, chains) && Usable(t, cb, d) && d in t.dirs && d != 0
    ensures var w := RoomFor(t, cb, d, name);
            w.spot.Some? ==>
              w.spot.value.count <= MAX_ENTRIES && w.spot.value.at + w.spot.value.count < |Slots(w.t, d)|
  {
    hide Settle, FindRun, GrowCount, SlotsIn, Slots, TreeGood, NewClusters, Grow, FragmentCount, NeedsLong, Prepare,
         FirstMatch, Items, Taken, TreeFiles, DirKey, KeptKey, FreeSet, Wider;
    var w, s := RoomFor(t, cb, d, name), Settle(Slots(t, d), name);
    if w.spot.Some? {
      SettleMeans(Slots(t, d), name);
      var run := FindRun(Slots(t, d), 0, s.value.count + 1);
      if run.Some? {
        FindRunMeans(Slots(t, d), 0, s.value.count + 1);
      } else {
        ShapedStore(t, cb);
        var m := GrowCount(s.value.count + 1, cb);
        var chains1 := GrowKeeps(t, cb, chains, d, m);
        WiderAt(t, w.t, d, SlotsIn(|NewClusters(t, cb, d, m).1|, cb));
        GrowCountHolds(s.value.count + 1, cb);
      }
    }
  }

  /** The cases of `AddAt`. */
  lemma AddIs(g: Tree, cb: nat, chains: map<Key, seq<nat>>, d: nat, s: Spot, n: nat, size: nat, scratch: nat -> bool)
    requires TreeGood(g, cb, chains) && IsDir(g, d) && size < TWO32
    requires s.count <= MAX_ENTRIES && s.at + s.count < |Slots(g, d)|
    ensures 2 <= |g.store.fat| == |g.store.data| && |g.store.fat| <= EOC
    ensures var (st, cs) := Reserve(g.store, cb, n, 0, scratch);
            var r := AddAt(In(g, d), cb, s, ATTR_FILE, n, size, scratch);
            && (cs == [] ==> r.None?)
            && (cs != [] ==>
                  && cs[0] < EOC
                  && var e := ShortEntry(s.short, ATTR_FILE, cs[0], size);
                     r == Some(Vol(st, Place(Slots(g, d), s.at, s.long, s.count, e))))
  {
    hide Reserve, Place, Slots, TreeGood, ShortEntry, Shaped;
    RoomStore(g, cb, chains, d);
    GoodUsable(g, cb, chains, d);
    ShapedStore(g, cb);
    ReserveInTable(g.store, cb, n, scratch);
  }

  /** After the clusters of the file are taken the directory still holds its slots. */
  lemma AddHolds(vol: Volume, g: Tree, cb: nat, chains: map<Key, seq<nat>>, d: nat, n: nat, scratch: nat -> bool)
    requires vol.Valid() && TreeGood(g, cb, chains) && d in g.dirs && d != 0 && cb == vol.g.ClusterBytes()
    requires 2 <= |g.store.fat| == |g.store.data| && vol.View() == Reserve(g.store, cb, n, 0, scratch).0
    ensures Holds(vol, vol.View(), g.dirs[d], Slots(g, d)) && IsChain(vol.View().fat, g.dirs[d])
  {
    hide FatOf, DataOf, Mirrored, Reserve, DirSlots, PutDir, TreeFiles, DirOk, Sound, IsChain, Grown, Slots, DirsKept,
         DirKey;
    var v, ds, cs := vol.View(), g.dirs[d], Reserve(g.store, cb, n, 0, scratch).1;
    GoodUsable(g, cb, chains, d);
    ReserveGrows(g.store, cb, n, 0, scratch);
    ReserveFrame(g.store, cb, n, 0, scratch);
    GrownDirs(g, cb, chains, v.fat, cs, v.data);
    KeptSlots(g, cb, v.data, d);
    BlocksWhole(v, cb);
    PutSame(v.data, ds);
    var k := HomeOf(g, cb, chains, d);
    HomeIsKey(g, chains, d, k);
    SoundChain(g.store.fat, TreeFiles(g), chains, k);
    ChainMissesGrown(g.store.fat, v.fat, ds, cs);
  }

  /** What the volume holds then is the tree with the directory's slots put back. */
  lemma AddedTree(vol: Volume, g: Tree, d: nat, v: Store, slots: seq<Slot>)
    requires d in g.dirs && d != 0 && Holds(vol, v, g.dirs[d], slots) && RootOf(vol.g, vol.disk) == g.root
    ensures TreeOf(vol, g.dirs) == Back(g, d, Vol(v, slots))
  {
    hide FatOf, DataOf, Mirrored, DirSlots, PutDir, RootOf;
  }

  /** The clusters of the file, then its entry at the places found. */
  method AddIn(vol: Volume, d: nat, ps: seq<At>, s: Spot, n: nat, size: nat, scratch: nat -> bool, ghost g: Tree,
               ghost chains: map<Key, seq<nat>>, ghost at: nat)
    returns (ok: bool)
    requires vol.Valid() && TreeOf(vol, g.dirs) == g && TreeGood(g, vol.g.ClusterBytes(), chains)
    requires d in g.dirs && d != 0 && size < TWO32 && Below(g.dirs[d], vol.Limit())
    requires s.count <= MAX_ENTRIES && (s.count == 0 || s.count == FragmentCount(s.long))
    requires at + s.count < |Slots(g, d)| && |ps| == s.count + 1 && Places(g.dirs[d], 16 * vol.g.spc, at, ps)
    requires 2 <= |g.store.fat| == |g.store.data| && |g.store.fat| <= EOC
    requires Safe(g.store.fat, g.store.hint, vol.Limit(), n)
    modifies vol
    ensures vol.Valid()
    ensures var r := AddAt(In(g, d), vol.g.ClusterBytes(), s.(at := at), ATTR_FILE, n, size, scratch);
            ok == r.Some? && TreeOf(vol, g.dirs) == if ok then Back(g, d, r.value) else g
  {
    hide Places, Safe, RootOf, FatOf, DataOf, Mirrored, Reserve, TreeGood, Slots, Below, Back, AddAt, Place,
         FragmentCount, Holds, IsChain, ShortEntry;
    ghost var cb := vol.g.ClusterBytes();
    AddIs(g, cb, chains, d, s.(at := at), n, size, scratch);
    var first, got;
    ghost var cs;
    first, got, cs := vol.ReserveChain(n, 0, scratch);
    if first == 0 { return false; }
    AddHolds(vol, g, cb, chains, d, n, scratch);
    var e := ShortEntry(s.short, ATTR_FILE, first, size);
    ghost var v, slots := vol.View(), Slots(g, d);
    StoreEntryIn(vol, ps, s, e, v, g.dirs[d], slots, at);
    HoldsValid(vol, v, g.dirs[d], Place(slots, at, s.long, s.count, e));
    AddedTree(vol, g, d, v, Place(slots, at, s.long, s.count, e));
    ok := true;
  }

  /** `fat16_create_file` in a directory other than the root. */
  method Fat16CreateIn(vol: Volume, d: nat, name: seq<byte>, size: nat, scratch: nat -> bool,
                       ghost dirs: map<nat, seq<nat>>, ghost chains: map<Key, seq<nat>>)
    returns (ok: bool, ghost dirs': map<nat, seq<nat>>)
    requires vol.Valid() && TreeGood(TreeOf(vol, dirs), vol.g.ClusterBytes(), chains) && d in dirs && size < TWO32
    requires Usable(TreeOf(vol, dirs), vol.g.ClusterBytes(), d)
    requires CreateInBacked(TreeOf(vol, dirs), vol.g.ClusterBytes(), d, name, CreateCount(size, vol.g.ClusterBytes()),
                            vol.Limit())
    modifies vol
    ensures vol.Valid()
    ensures var r := CreateIn(old(TreeOf(vol, dirs)), vol.g.ClusterBytes(), d, name, size, scratch);
            ok == r.ok && TreeOf(vol, dirs') == r.t
  {
    hide Places, Settle, FindRun, Safe, GrowCount, SlotsIn, RootOf, FatOf, DataOf, Mirrored, Reserve, TreeGood, Usable,
         Slots, Below, RoomFor, Back, AddAt, Place, CreateCount, FragmentCount, Holds, IsChain;
    ghost var t, cb := TreeOf(vol, dirs), vol.g.ClusterBytes();
    var n := CreateCount(size, vol.g.ClusterBytes());
    GoodDirAt(vol, dirs, chains, d);
    var spot, ps;
    spot, ps, dirs' := FindRoomIn(vol, d, name, dirs, chains, n);
    ghost var w := RoomFor(t, cb, d, name);
    if spot.None? { return false, dirs'; }
    ghost var k, chains1 := RoomKeeps(t, cb, chains, d, name);
    RoomStore(w.t, cb, chains1, d);
    RoomInside(t, cb, chains, d, name);
    ok := AddIn(vol, d, ps, spot.value, n, size, scratch, w.t, chains1, w.spot.value.at);
  }
}
