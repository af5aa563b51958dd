/** The FAT16 engine over a mutable disk. Every method is proved against the value-level
    functions of FatChains and FatFiles. */
module FatVolume {
  import opened Bytes
  import opened Arith
  import opened FatChains
  import opened FatDisk
  import opened FatFiles

  class Volume {
    const g: Geometry
    const sectors: nat
    var disk: seq<Sector>
    var hint: nat
    /** The table entries on which the copies agreed when the volume was mounted. */
    ghost const agreed: set<nat>

    ghost predicate Valid()
      reads this
    {
      g.Fits(disk) && g.Narrow() && |disk| == sectors && Mirrored(g, disk, agreed)
    }

    /** The first cluster that is not on the disk or not in the table. */
    function Limit(): nat
      requires g.Valid() && g.DataStart() <= sectors
    {
      g.Limit(sectors)
    }

    ghost function View(): (v: Store)
      requires Valid()
      reads this
      ensures WellFormed(v, g.ClusterBytes())
    {
      StoreOf(g, disk, hint)
    }

    /** A mounted volume. The copies of the table need not agree. */
    constructor (g: Geometry, disk: seq<Sector>)
      requires g.Fits(disk) && g.Narrow()
      ensures Valid() && this.g == g && this.disk == disk && hint == 2 && agreed == Agreed(g, disk)
    {
      this.g := g;
      this.disk := disk;
      sectors := |disk|;
      hint := 2;
      agreed := Agreed(g, disk);
    }

    method GetFatEntry(c: nat) returns (v: nat)
      requires Valid() && c < g.Total()
      ensures v == View().fat[c] && v < TWO16
    {
      hide Mirrored, DataOf, FatOf, Le16;
      FatInside(g, disk, 0, c);
      FatElements(g, disk);
      EntryPlace(c);
      var sector := disk[g.fatStart + c * 2 / 512];
      v := Le16(sector, c * 2 % 512);
    }

    /** Patches entry `c` in every copy of the table. */
    method SetFatEntry(c: nat, v: nat)
      requires Valid() && c < g.Total() && v < TWO16
      modifies this`disk
      ensures Valid()
      ensures View() == old(View()).(fat := old(View()).fat[c := v])
      ensures RootOf(g, disk) == old(RootOf(g, disk)) && Agree(g, disk, c)
    {
      ghost var d0 := disk;
      for f := 0 to g.numFats
        invariant g.Fits(disk) && SameOutside(d0, disk, g.fatStart, g.RootStart())
        invariant forall f', c' :: 0 <= f' < g.numFats && 0 <= c' < g.Total() ==>
                    Entry(g, disk, f', c') == if f' < f && c' == c then v else Entry(g, d0, f', c')
      {
        EntryWrite(g, disk, f, c, v);
        var lba := g.fatStart + f * g.fatSz + c * 2 / 512;
        assert lba == g.FatLba(f, c);
        disk := disk[lba := PatchEntry(disk[lba], c, v)];
      }
      FatElements(g, d0);
      FatElements(g, disk);
      CopiesAgree(g, d0, disk, c, v, agreed);
      DataFrame(g, d0, disk, g.fatStart, g.RootStart());
      RootFrame(g, d0, disk, g.fatStart, g.RootStart());
    }

    /** The search of `_alloc_cluster` over `[lo, end)`. */
    method ScanFree(lo: nat, end: nat) returns (i: nat)
      requires Valid() && lo <= end <= g.Total()
      ensures i == FirstFree(View().fat, lo, end)
    {
      ghost var fat := View().fat;
      i := lo;
      while i < end
        invariant lo <= i <= end
        invariant FirstFree(fat, i, end) == FirstFree(fat, lo, end)
      {
        var e := GetFatEntry(i);
        if e == 0 { return; }
        i := i + 1;
      }
    }

    /** Next-fit in two passes: from the hint to the end, then from 2 up to the hint. */
    method AllocCluster() returns (r: nat)
      requires Valid()
      modifies this
      ensures Valid()
      ensures (View(), r) == Take(old(View()))
      ensures r != 0 ==> InTable(old(View()).fat, r)
      ensures RootOf(g, disk) == old(RootOf(g, disk))
    {
      hide Mirrored, FatOf, DataOf, RootOf, FirstFree;
      var total := g.Total();
      var start := hint;
      if start < 2 || start >= total { start := 2; }
      r := ScanFree(start, total);
      if r == total {
        r := ScanFree(2, start);
        if r == start { return 0; }
      }
      SetFatEntry(r, LAST);
      hint := r + 1;
    }

    method ReadCluster(c: nat) returns (buf: seq<byte>)
      requires Valid() && 2 <= c < Limit()
      ensures buf == View().data[c]
    {
      ClusterLbaBounds(g, disk, c);
      var lba := g.DataStart() + (c - 2) * g.spc;
      buf := [];
      for i := 0 to g.spc
        invariant buf == Span(disk, lba, i)
      {
        buf := buf + disk[lba + i];
      }
      DataElements(g, disk);
    }

    /** Writes zero sectors over the whole cluster. */
    method ZeroCluster(c: nat)
      requires Valid() && 2 <= c < Limit()
      modifies this`disk
      ensures Valid()
      ensures View() == old(View()).(data := old(View()).data[c := Fill(g.ClusterBytes(), 0)])
      ensures RootOf(g, disk) == old(RootOf(g, disk))
    {
      ClusterLbaBounds(g, disk, c);
      ghost var d0 := disk;
      var lba := g.ClusterLba(c);
      for i := 0 to g.spc
        invariant SameOutside(d0, disk, lba, lba + g.spc)
        invariant forall s :: lba <= s < lba + i ==> disk[s] == Fill(512, 0)
      {
        disk := disk[lba + i := Fill(512, 0)];
      }
      ClusterWrite(g, d0, disk, c);
      ZeroSpan(disk, lba, g.spc);
    }

    /** `ata_write` of the whole sectors of `chunk` followed by one zero-padded sector. */
    method StoreChunk(c: nat, chunk: seq<byte>)
      requires Valid() && 2 <= c < Limit() && |chunk| <= g.ClusterBytes()
      modifies this`disk
      ensures Valid()
      ensures View() == old(View()).(data := old(View()).data[c := Patch(old(View()).data[c], chunk)])
      ensures RootOf(g, disk) == old(RootOf(g, disk))
    {
      hide Mirrored, FatOf, DataOf, RootOf, Patch, PatchedSector;
      ClusterLbaBounds(g, disk, c);
      ghost var d0 := disk;
      var lba := g.ClusterLba(c);
      var full := |chunk| / 512;
      for i := 0 to full
        invariant SameOutside(d0, disk, lba, lba + i)
        invariant forall s :: lba <= s < lba + i ==> disk[s] == PatchedSector(d0[s], chunk, s - lba)
      {
        disk := disk[lba + i := PatchedSector(disk[lba + i], chunk, i)];
      }
      if |chunk| % 512 > 0 {
        disk := disk[lba + full := PatchedSector(disk[lba + full], chunk, full)];
      }
      ChunkStored(g, d0, disk, c, chunk);
    }

    /** `free_cluster_chain`: frees the chain and leaves the data alone. */
    method FreeClusterChain(start: nat)
      requires Valid() && LinksInside(View().fat) && StartsInside(View().fat, start)
      modifies this`disk
      ensures Valid()
      ensures View() == old(View()).(fat := ZeroFat(old(View()).fat, Visit(old(View()).fat, start)))
      ensures RootOf(g, disk) == old(RootOf(g, disk))
    {
      var cl: nat := start;
      ghost var v, v0, done: seq<nat> := View(), View(), [];
      ghost var all := Visit(v0.fat, start);
      ReleasingStart(v0.fat, start);
      while cl >= 2 && cl < EOC
        invariant Valid() && v == View() && RootOf(g, disk) == old(RootOf(g, disk))
        invariant Releasing(v0.fat, all, v.fat, cl, done)
        invariant v == v0.(fat := v.fat)
        decreases Rank(v.fat, cl)
      {
        ReleasingStep(v0.fat, all, v.fat, cl, done);
        var next := GetFatEntry(cl);
        SetFatEntry(cl, 0);
        v, done := v.(fat := v.fat[cl := 0]), done + [cl];
        cl := next;
      }
      ReleasingEnd(v0.fat, all, v.fat, cl, done);
    }

    method ReleaseOne(cl: nat) returns (next: nat)
      requires Valid() && 2 <= cl < Limit()
      modifies this`disk
      ensures Valid() && next == old(View()).fat[cl]
      ensures View() == old(View()).(fat := old(View()).fat[cl := 0],
                                     data := old(View()).data[cl := Fill(g.ClusterBytes(), 0)])
      ensures RootOf(g, disk) == old(RootOf(g, disk))
    {
      next := GetFatEntry(cl);
      SetFatEntry(cl, 0);
      ZeroCluster(cl);
    }

    /** The release loop of `fat16_write_file` and `fat16_rm`: frees the chain and zeroes its data. */
    method ReleaseChain(start: nat)
      requires Valid() && LinksInside(View().fat) && StartsInside(View().fat, start)
      requires Below(Visit(View().fat, start), Limit())
      modifies this`disk
      ensures Valid() && View() == Released(old(View()), start)
      ensures RootOf(g, disk) == old(RootOf(g, disk))
    {
      var cl: nat := start;
      ghost var v, v0, done: seq<nat> := View(), View(), [];
      ghost var all := Visit(v0.fat, start);
      ReleasingStart(v0.fat, start);
      while cl >= 2 && cl < EOC
        invariant Valid() && v == View() && RootOf(g, disk) == old(RootOf(g, disk))
        invariant Releasing(v0.fat, all, v.fat, cl, done)
        invariant v == v0.(fat := v.fat, data := v.data) && v.data == ZeroData(v0.data, done)
        decreases Rank(v.fat, cl)
      {
        ReleasingStep(v0.fat, all, v.fat, cl, done);
        ZeroDataStep(v0.data, done, cl);
        assert |v0.data[cl]| == g.ClusterBytes();
        var next := ReleaseOne(cl);
        v := v.(fat := v.fat[cl := 0], data := ZeroData(v0.data, done + [cl]));
        done := done + [cl];
        cl := next;
      }
      ReleasingEnd(v0.fat, all, v.fat, cl, done);
    }

    /** One turn of the write loop: take a cluster, link it, store as much of `rest` as fits. */
    method WriteTurn(rest: seq<byte>, prev: nat) returns (cl: nat)
      requires Valid() && rest != [] && prev < g.Total() && Safe(View().fat, hint, Limit(), 1)
      modifies this
      ensures Valid() && RootOf(g, disk) == old(RootOf(g, disk))
      ensures cl == NextFit(old(View()).fat, old(View()).hint)
      ensures cl == 0 ==> View() == old(View())
      ensures cl != 0 ==> 2 <= cl < Limit() && View() == Turn(old(View()), g.ClusterBytes(), rest, prev)
    {
      ghost var v := View();
      cl := AllocCluster();
      if cl < 2 || cl >= EOC {
        return;
      }
      ghost var w := Take(v).0;
      if prev != 0 { SetFatEntry(prev, cl); }
      SetFatEntry(cl, LAST);
      ghost var linked := if prev == 0 then w.fat else w.fat[prev := cl];
      ghost var u := w.(fat := linked[cl := LAST]);
      assert View() == u;
      StoreChunk(cl, rest[..Min(|rest|, g.ClusterBytes())]);
    }

    /** The chain-building half of `fat16_write_file`. */
    method WriteChain(buf: seq<byte>) returns (ok: bool, first: nat, ghost cs: seq<nat>)
      requires Valid() && Safe(View().fat, hint, Limit(), ClustersFor(|buf|, g.ClusterBytes()))
      modifies this
      ensures Valid() && RootOf(g, disk) == old(RootOf(g, disk)) && Below(cs, Limit())
      ensures Append(old(View()), g.ClusterBytes(), buf, 0) == if ok then Filled(View(), cs) else Full(View(), cs)
      ensures ok ==> first == Head(cs)
    {
      hide Filling, Append, NextFit, Turn, RootOf, FatOf, DataOf, Mirrored, Safe, ClustersFor;
      ghost var v, v0, cb := View(), View(), g.ClusterBytes();
      var rest, prev: nat := buf, 0;
      first, cs := 0, [];
      FillingStart(v0, cb, buf);
      while rest != []
        invariant Valid() && v == View() && RootOf(g, disk) == old(RootOf(g, disk))
        invariant prev < g.Total() && (prev == 0 <==> first == 0) && (first == 0 <==> cs == []) && first == Head(cs)
        invariant Filling(v0, cb, buf, cs, v, rest, prev)
        invariant Below(cs, Limit()) && (prev == 0 || v.fat[prev] != 0)
        invariant Safe(v.fat, v.hint, Limit(), ClustersFor(|rest|, cb))
        decreases |rest|
      {
        TurnSafe(v, cb, rest, prev, Limit());
        var cl := WriteTurn(rest, prev);
        FillingStep(v0, cb, buf, cs, v, rest, prev);
        if cl == 0 {
          return false, 0, cs;
        }
        if first == 0 { first := cl; }
        v, cs := Turn(v, cb, rest, prev), cs + [cl];
        rest, prev := rest[Min(|rest|, g.ClusterBytes())..], cl;
      }
      FillingEnd(v0, cb, buf, cs, v, prev);
      return true, first, cs;
    }

    /** One turn of the allocation loop of `fat16_create_file`. */
    method TakeCluster(prev: nat, scratch: nat -> bool) returns (cl: nat)
      requires Valid() && prev < g.Total() && Safe(View().fat, hint, Limit(), 1)
      modifies this
      ensures Valid() && RootOf(g, disk) == old(RootOf(g, disk))
      ensures cl == NextFit(old(View()).fat, old(View()).hint)
      ensures cl == 0 ==> View() == old(View())
      ensures cl != 0 ==> cl < Limit() && View() == ReserveTurn(old(View()), g.ClusterBytes(), prev, scratch)
    {
      ghost var v := View();
      cl := AllocCluster();
      if cl == 0 { return; }
      ghost var w := Take(v).0;
      if prev != 0 { SetFatEntry(prev, cl); }
      SetFatEntry(cl, LAST);
      ghost var linked := if prev == 0 then w.fat else w.fat[prev := cl];
      assert View() == w.(fat := linked[cl := LAST]);
      if prev != 0 && scratch(cl) { ZeroCluster(cl); }
    }

    /** Allocates up to `n` clusters and links them behind cluster `after`, or as a new chain for 0. */
    method ReserveChain(n: nat, after: nat, scratch: nat -> bool) returns (first: nat, got: nat, ghost cs: seq<nat>)
      requires Valid() && after < g.Total() && (after == 0 || View().fat[after] != 0)
      requires Safe(View().fat, hint, Limit(), n)
      modifies this
      ensures Valid() && RootOf(g, disk) == old(RootOf(g, disk))
      ensures var r := Reserve(old(View()), g.ClusterBytes(), n, after, scratch); View() == r.0 && cs == r.1
      ensures first == Head(cs) && got == |cs| && (cs != [] ==> first != 0) && Below(cs, Limit())
      ensures cs == [] ==> View() == old(View())
    {
      hide Reserve, Reserving, NextFit, ReserveTurn, RootOf, FatOf, DataOf, Mirrored, Safe;
      ghost var v, v0, cb := View(), View(), g.ClusterBytes();
      var prev: nat, left: nat := after, n;
      first, got, cs := 0, 0, [];
      ReservingStart(v, cb, n, after, scratch);
      ReserveNothing(v, cb, n, after, scratch);
      while left > 0
        invariant Valid() && v == View() && RootOf(g, disk) == old(RootOf(g, disk))
        invariant prev < g.Total() && first == Head(cs) && (first == 0 <==> cs == []) && got == |cs|
        invariant Reserving(v0, cb, n, after, scratch, cs, v, left, prev)
        invariant Below(cs, Limit()) && (prev == 0 || v.fat[prev] != 0) && Safe(v.fat, v.hint, Limit(), left)
      {
        ReserveTurnSafe(v, cb, prev, scratch, Limit(), left);
        var cl := TakeCluster(prev, scratch);
        if cl == 0 {
          ReservingEnd(v0, cb, n, after, scratch, cs, v, left, prev);
          return;
        }
        ReservingStep(v0, cb, n, after, scratch, cs, v, left, prev);
        if first == 0 { first := cl; }
        v, cs, got := View(), cs + [cl], got + 1;
        prev, left := cl, left - 1;
      }
      ReservingEnd(v0, cb, n, after, scratch, cs, v, left, prev);
    }

    /** The copy loop of both readers: from byte `start` of cluster `cl`, the `q`-th of its chain,
        until `want` bytes are copied or the chain ends. */
    method CopyClusters(cl: nat, start: nat, want: nat, ghost q: nat, ghost cs: seq<nat>)
      returns (out: seq<byte>)
      requires Valid() && IsChain(View().fat, cs) && Below(cs, Limit())
      requires q < |cs| && cl == cs[q] && start < g.ClusterBytes()
      ensures out == Copied(View(), g.ClusterBytes(), cs, q, start, want)
    {
      hide Copying, Copied, RootOf, FatOf, DataOf, Mirrored, Fill;
      var cb := g.ClusterBytes();
      ghost var v, k: nat := View(), q;
      ghost var goal := Copied(v, cb, cs, q, start, want);
      var cluster: nat, intra: nat, left: nat := cl, start, want;
      out := [];
      CopyingStart(v, cb, cs, q, start, want);
      while cluster < EOC && left > 0
        invariant k <= |cs| && Standing(cs, k, cluster) && intra < cb
        invariant Copying(v, cb, cs, k, intra, left, out, goal)
        decreases |cs| - k
      {
        ChainNext(v.fat, cs, k);
        CopyingStep(v, cb, cs, k, intra, left, out, goal);
        var buf := ReadCluster(cluster);
        var copy := Min(left, cb - intra);
        out := out + buf[intra..intra + copy];
        intra, left := 0, left - copy;
        cluster := GetFatEntry(cluster);
        k := k + 1;
      }
      CopyingEnd(v, cb, cs, k, intra, left, out, goal);
    }

    /** Follows `skip` links; fails when the chain ends first. */
    method SkipClusters(first: nat, skip: nat, ghost cs: seq<nat>) returns (ok: bool, cluster: nat)
      requires Valid() && IsChain(View().fat, cs) && cs != [] && first == cs[0]
      ensures ok <==> skip < |cs|
      ensures ok ==> cluster == cs[skip]
    {
      ghost var fat := View().fat;
      cluster := first;
      for i := 0 to skip
        invariant i < |cs| && cluster == cs[i]
      {
        ChainNext(fat, cs, i);
        cluster := GetFatEntry(cluster);
        if cluster >= EOC { return false, cluster; }
      }
      ok := true;
    }

    /** `fat16_read_file` */
    method ReadFile(first: nat, size: nat, off: nat, n: nat, ghost cs: seq<nat>) returns (rc: int, out: seq<byte>)
      requires Valid() && IsChain(View().fat, cs) && Below(cs, Limit()) && first == Head(cs)
      ensures first == 0 ==> rc == -1 && out == []
      ensures first != 0 ==> rc == |out| && out == Slice(Gather(View().data, cs), off, n, size)
    {
      if first == 0 { return -1, []; }
      if off >= size { return 0, []; }
      var cb := g.ClusterBytes();
      var skip, intra := Quot(off, cb), Rem(off, cb);
      ReadMeets(View(), cs, cb, off, n, size);
      var ok, cluster := SkipClusters(first, skip, cs);
      if !ok { return 0, []; }
      out := CopyClusters(cluster, intra, Min(n, size - off), skip, cs);
      rc := |out|;
    }

    /** `fat16_read_file_range`; `mem` tells whether its scratch buffer could be allocated. */
    method ReadFileRange(first: nat, size: nat, off: nat, n: nat, mem: bool, ghost cs: seq<nat>)
      returns (ok: bool, out: seq<byte>)
      requires Valid() && IsChain(View().fat, cs) && Below(cs, Limit()) && first == Head(cs)
      requires cs == [] ==> size == 0
      ensures ok <==> off < size && mem && off < |cs| * g.ClusterBytes()
      ensures ok ==> out == Piece(View().data, cs, off, RangeLength(off, n, size))
    {
      if off >= size { return false, []; }
      var want := if U32(off + n) > size then size - off else n;
      if !mem { return false, []; }
      var cb := g.ClusterBytes();
      ghost var v, q := View(), 0;
      var cluster: nat, skip: nat := first, off;
      while skip >= cb
        invariant q < |cs| && cluster == cs[q] && off == q * cb + skip
        decreases skip
      {
        ChainNext(v.fat, cs, q);
        MulStep(q, cb);
        cluster := GetFatEntry(cluster);
        if cluster >= EOC {
          return false, [];
        }
        skip, q := skip - cb, q + 1;
      }
      MulMono(q + 1, |cs|, cb);
      MulStep(q, cb);
      out := CopyClusters(cluster, skip, want, q, cs);
      CopiedIsPiece(v, cb, cs, q, skip, want, off);
      ok := true;
    }
  }

  lemma CopiesAgree(g: Geometry, d: seq<Sector>, d': seq<Sector>, c: nat, v: nat, cs: set<nat>)
    requires g.Fits(d) && g.Fits(d') && c < g.Total() && Mirrored(g, d, cs)
    requires forall f', c' :: 0 <= f' < g.numFats && 0 <= c' < g.Total() ==>
               Entry(g, d', f', c') == if c' == c then v else Entry(g, d, f', c')
    ensures Mirrored(g, d', cs) && Agree(g, d', c)
  {
    hide Entry;
    forall x | x in cs && x < g.Total()
      ensures Agree(g, d', x)
    {
      assert Agree(g, d, x);
    }
  }

  lemma EntryPlace(c: nat)
    ensures c * 2 / 512 == c / 256 && c * 2 % 512 == 2 * (c % 256)
  {
  }

  /** The allocation loop half way: `cs` is taken, up to `left` more will go behind `prev`. */
  ghost predicate Reserving(v0: Store, cb: nat, n: nat, after: nat, scratch: nat -> bool, cs: seq<nat>, v: Store,
                            left: nat, prev: nat)
  {
    && WellFormed(v0, cb) && WellFormed(v, cb) && prev < |v.fat| && after < |v0.fat|
    && var whole, more := Reserve(v0, cb, n, after, scratch), Reserve(v, cb, left, prev, scratch);
       whole.0 == more.0 && whole.1 == cs + more.1
  }

  lemma ReservingStart(v: Store, cb: nat, n: nat, after: nat, scratch: nat -> bool)
    requires WellFormed(v, cb) && after < |v.fat|
    ensures Reserving(v, cb, n, after, scratch, [], v, n, after)
  {
  }

  lemma ReservingStep(v0: Store, cb: nat, n: nat, after: nat, scratch: nat -> bool, cs: seq<nat>, v: Store, left: nat,
                      prev: nat)
    requires Reserving(v0, cb, n, after, scratch, cs, v, left, prev) && left > 0 && NextFit(v.fat, v.hint) != 0
    ensures var c := NextFit(v.fat, v.hint);
            Reserving(v0, cb, n, after, scratch, cs + [c], ReserveTurn(v, cb, prev, scratch), left - 1, c)
  {
    NextFitExhaustive(v.fat, v.hint);
    var c, u := NextFit(v.fat, v.hint), ReserveTurn(v, cb, prev, scratch);
    assert WellFormed(u, cb);
    hide NextFit, ReserveTurn;
    var more := Reserve(u, cb, left - 1, c, scratch).1;
    assert cs + ([c] + more) == cs + [c] + more;
  }

  lemma ReservingEnd(v0: Store, cb: nat, n: nat, after: nat, scratch: nat -> bool, cs: seq<nat>, v: Store, left: nat,
                      prev: nat)
    requires Reserving(v0, cb, n, after, scratch, cs, v, left, prev) && (left == 0 || NextFit(v.fat, v.hint) == 0)
    ensures Reserve(v0, cb, n, after, scratch).0 == v && Reserve(v0, cb, n, after, scratch).1 == cs
  {
    assert cs + [] == cs;
  }

  lemma ReserveNothing(v: Store, cb: nat, n: nat, after: nat, scratch: nat -> bool)
    requires WellFormed(v, cb) && after < |v.fat|
    ensures Reserve(v, cb, n, after, scratch).1 == [] ==> Reserve(v, cb, n, after, scratch).0 == v
  {
    hide NextFit, ReserveTurn;
  }

  /** The cursor of a reader: the `k`-th cluster, or an end mark behind the last. */
  ghost predicate Standing(cs: seq<nat>, k: nat, cluster: nat) {
    if k < |cs| then cluster == cs[k] < EOC else k == |cs| && cluster >= EOC
  }

  lemma ChainNext(fat: seq<nat>, cs: seq<nat>, k: nat)
    requires IsChain(fat, cs) && k < |cs| && |fat| <= EOC
    ensures InTable(fat, cs[k]) && Standing(cs, k + 1, fat[cs[k]])
  {
    if k + 1 < |cs| { assert Linked(fat, cs, k); }
  }

  /** `want` bytes of a chain from byte `from`, cut where the chain ends. */
  ghost function Piece(data: seq<seq<byte>>, cs: seq<nat>, from: nat, want: nat): (r: seq<byte>)
    requires forall i :: 0 <= i < |cs| ==> cs[i] < |data|
  {
    var all := Gather(data, cs);
    if from >= |all| then [] else all[from..Min(from + want, |all|)]
  }

  /** What the copy loop delivers from byte `intra` of the `k`-th cluster on, turn by turn. */
  function Copied(v: Store, cb: nat, cs: seq<nat>, k: nat, intra: nat, want: nat): (r: seq<byte>)
    requires (forall c :: 0 <= c < |v.data| ==> |v.data[c]| == cb) && (forall i :: 0 <= i < |cs| ==> cs[i] < |v.data|)
    requires intra < cb
    decreases if k < |cs| then |cs| - k else 0
  {
    if k >= |cs| || want == 0 then []
    else
      var copy := Min(want, cb - intra);
      v.data[cs[k]][intra..intra + copy] + Copied(v, cb, cs, k + 1, 0, want - copy)
  }

  /** The copy loop half way: what was copied and what it still will copy make up `goal`. */
  ghost predicate Copying(v: Store, cb: nat, cs: seq<nat>, k: nat, intra: nat, left: nat, out: seq<byte>,
                          goal: seq<byte>)
  {
    && WellFormed(v, cb) && (forall i :: 0 <= i < |cs| ==> cs[i] < |v.data|) && intra < cb
    && out <= goal && goal[|out|..] == Copied(v, cb, cs, k, intra, left)
  }

  lemma CopyingStart(v: Store, cb: nat, cs: seq<nat>, k: nat, intra: nat, want: nat)
    requires WellFormed(v, cb) && (forall i :: 0 <= i < |cs| ==> cs[i] < |v.data|) && intra < cb
    ensures Copying(v, cb, cs, k, intra, want, [], Copied(v, cb, cs, k, intra, want))
  {
    hide Copied;
  }

  lemma CopyingEnd(v: Store, cb: nat, cs: seq<nat>, k: nat, intra: nat, left: nat, out: seq<byte>, goal: seq<byte>)
    requires Copying(v, cb, cs, k, intra, left, out, goal) && (k >= |cs| || left == 0)
    ensures out == goal
  {
  }

  lemma CopyingStep(v: Store, cb: nat, cs: seq<nat>, k: nat, intra: nat, left: nat, out: seq<byte>, goal: seq<byte>)
    requires Copying(v, cb, cs, k, intra, left, out, goal) && k < |cs| && left > 0
    ensures var copy := Min(left, cb - intra);
            Copying(v, cb, cs, k + 1, 0, left - copy, out + v.data[cs[k]][intra..intra + copy], goal)
  {
    var copy := Min(left, cb - intra);
    var piece, more := v.data[cs[k]][intra..intra + copy], Copied(v, cb, cs, k + 1, 0, left - copy);
    assert goal == out + goal[|out|..] == out + (piece + more) == out + piece + more;
  }

  lemma {:induction false} CopiedIsPiece(v: Store, cb: nat, cs: seq<nat>, k: nat, intra: nat, want: nat, from: nat)
    requires (forall c :: 0 <= c < |v.data| ==> |v.data[c]| == cb) && (forall i :: 0 <= i < |cs| ==> cs[i] < |v.data|)
    requires intra < cb && (k < |cs| || (k == |cs| && intra == 0))
    requires from == k * cb + intra
    ensures Copied(v, cb, cs, k, intra, want) == Piece(v.data, cs, from, want)
    decreases |cs| - k
  {
    hide Gather, Piece;
    GatherLength(v.data, cs, cb);
    PieceEmpty(v.data, cs, from, want);
    if k < |cs| && want > 0 {
      var copy := Min(want, cb - intra);
      GatherPiece(v.data, cs, cb, k, intra, copy);
      PieceSplits(v.data, cs, from, copy, want);
      PieceEmpty(v.data, cs, from + copy, want - copy);
      MulStep(k, cb);
      if copy < want { CopiedIsPiece(v, cb, cs, k + 1, 0, want - copy, from + copy); }
    }
  }

  lemma PieceEmpty(data: seq<seq<byte>>, cs: seq<nat>, from: nat, want: nat)
    requires forall i :: 0 <= i < |cs| ==> cs[i] < |data|
    ensures want == 0 || from >= |Gather(data, cs)| ==> Piece(data, cs, from, want) == []
  {
    hide Gather;
  }

  lemma PieceSplits(data: seq<seq<byte>>, cs: seq<nat>, from: nat, copy: nat, want: nat)
    requires forall i :: 0 <= i < |cs| ==> cs[i] < |data|
    requires copy <= want && from + copy <= |Gather(data, cs)|
    ensures Piece(data, cs, from, want) ==
            Gather(data, cs)[from..from + copy] + Piece(data, cs, from + copy, want - copy)
  {
    hide Gather;
  }

  /** The two readers deliver the same bytes of a file exactly when the range reader's 32-bit sum does
      not wrap, or nothing lies behind the file in its last cluster. */
  lemma ReadersAgree(data: seq<seq<byte>>, cs: seq<nat>, off: nat, n: nat, size: nat)
    requires forall i :: 0 <= i < |cs| ==> cs[i] < |data|
    requires off < size <= |Gather(data, cs)| && size < TWO32 && n < TWO32
    ensures Piece(data, cs, off, RangeLength(off, n, size)) == Slice(Gather(data, cs), off, n, size) <==>
            off + n < TWO32 || size == |Gather(data, cs)|
  {
    hide Gather, RangeLength;
    RangeExact(Gather(data, cs), off, n, size);
  }

  /** What `fat16_read_file` delivers is the slice, on chains of any length. */
  lemma ReadMeets(v: Store, cs: seq<nat>, cb: nat, off: nat, n: nat, size: nat)
    requires WellFormed(v, cb) && cb > 0 && (forall i :: 0 <= i < |cs| ==> cs[i] < |v.data|) && off < size
    ensures Slice(Gather(v.data, cs), off, n, size) ==
            if Quot(off, cb) < |cs| then Copied(v, cb, cs, Quot(off, cb), Rem(off, cb), Min(n, size - off)) else []
  {
    hide Gather, Copied;
    QuotRem(off, cb);
    if Quot(off, cb) < |cs| {
      CopiedIsPiece(v, cb, cs, Quot(off, cb), Rem(off, cb), Min(n, size - off), off);
    } else {
      ReadPastEnd(v, cs, cb, off, n, size);
    }
  }

  lemma ReadPastEnd(v: Store, cs: seq<nat>, cb: nat, off: nat, n: nat, size: nat)
    requires WellFormed(v, cb) && cb > 0 && (forall i :: 0 <= i < |cs| ==> cs[i] < |v.data|)
    requires Quot(off, cb) >= |cs|
    ensures Slice(Gather(v.data, cs), off, n, size) == []
  {
    QuotRem(off, cb);
    GatherLength(v.data, cs, cb);
    MulMono(|cs|, Quot(off, cb), cb);
    assert |Gather(v.data, cs)| <= off;
  }

  /** The release loop half way: `done` is freed, the walk stands at `cl`, `all` is the whole visit. */
  ghost predicate Releasing(fat0: seq<nat>, all: seq<nat>, fat: seq<nat>, cl: nat, done: seq<nat>) {
    && fat == ZeroFat(fat0, done)
    && LinksInside(fat) && StartsInside(fat, cl)
    && done + Visit(fat, cl) == all
  }

  /** How many more turns the release loop can take. */
  ghost function Rank(fat: seq<nat>, cl: nat): nat {
    2 * |UsedSet(fat)| + if 2 <= cl < EOC then 1 else 0
  }

  lemma ReleasingStart(fat: seq<nat>, start: nat)
    requires LinksInside(fat) && StartsInside(fat, start)
    ensures Releasing(fat, Visit(fat, start), fat, start, [])
  {
    assert ZeroFat(fat, []) == fat;
    assert [] + Visit(fat, start) == Visit(fat, start);
  }

  lemma ReleasingStep(fat0: seq<nat>, all: seq<nat>, fat: seq<nat>, cl: nat, done: seq<nat>)
    requires Releasing(fat0, all, fat, cl, done) && 2 <= cl < EOC
    ensures cl < |fat| && Releasing(fat0, all, fat[cl := 0], fat[cl], done + [cl])
    ensures |done| < |all| && all[|done|] == cl
    ensures Rank(fat[cl := 0], fat[cl]) < Rank(fat, cl)
  {
    hide ZeroFat, UsedSet;
    UsedShrinks(fat, cl);
    ZeroFatStep(fat0, done, cl);
    var rest := Visit(fat[cl := 0], fat[cl]);
    assert done + ([cl] + rest) == done + [cl] + rest;
  }

  lemma ZeroFatStep(fat: seq<nat>, done: seq<nat>, cl: nat)
    requires cl < |fat|
    ensures ZeroFat(fat, done)[cl := 0] == ZeroFat(fat, done + [cl])
  {
    hide ZeroFat;
  }

  lemma ReleasingEnd(fat0: seq<nat>, all: seq<nat>, fat: seq<nat>, cl: nat, done: seq<nat>)
    requires Releasing(fat0, all, fat, cl, done) && !(2 <= cl < EOC)
    ensures done == all && fat == ZeroFat(fat0, all)
  {
    assert done + [] == done;
  }

  lemma {:induction false} ZeroSpan(d: seq<Sector>, lba: nat, n: nat)
    requires lba + n <= |d| && forall s :: lba <= s < lba + n ==> d[s] == Fill(512, 0)
    ensures Span(d, lba, n) == Fill(n * 512, 0)
  {
    if n > 0 { ZeroSpan(d, lba, n - 1); }
  }

  lemma ZeroDataStep(data: seq<seq<byte>>, done: seq<nat>, cl: nat)
    requires cl < |data|
    ensures ZeroData(data, done + [cl]) == ZeroData(data, done)[cl := Fill(|data[cl]|, 0)]
  {
  }

  /** The write loop half way: `cs` is taken, `rest` is still to be stored behind `prev`. */
  ghost predicate Filling(v0: Store, cb: nat, buf: seq<byte>, cs: seq<nat>, v: Store, rest: seq<byte>, prev: nat) {
    && cb > 0 && cb % 512 == 0
    && WellFormed(v0, cb) && WellFormed(v, cb) && prev < |v.fat|
    && Append(v0, cb, buf, 0) == Then(cs, Append(v, cb, rest, prev))
  }

  lemma FillingStart(v: Store, cb: nat, buf: seq<byte>)
    requires cb > 0 && cb % 512 == 0 && WellFormed(v, cb)
    ensures Filling(v, cb, buf, [], v, buf, 0)
  {
    var r := Append(v, cb, buf, 0);
    assert [] + r.cs == r.cs;
  }

  lemma FillingEnd(v0: Store, cb: nat, buf: seq<byte>, cs: seq<nat>, v: Store, prev: nat)
    requires Filling(v0, cb, buf, cs, v, [], prev)
    ensures Append(v0, cb, buf, 0) == Filled(v, cs)
  {
    assert cs + [] == cs;
  }

  lemma FillingStep(v0: Store, cb: nat, buf: seq<byte>, cs: seq<nat>, v: Store, rest: seq<byte>, prev: nat)
    requires Filling(v0, cb, buf, cs, v, rest, prev) && rest != []
    ensures var c := NextFit(v.fat, v.hint);
            if c == 0 then Append(v0, cb, buf, 0) == Full(v, cs)
            else Filling(v0, cb, buf, cs + [c], Turn(v, cb, rest, prev), rest[Min(|rest|, cb)..], c)
  {
    var c := NextFit(v.fat, v.hint);
    assert cs + [] == cs;
    if c != 0 { ThenStep(v, Turn(v, cb, rest, prev), cb, rest, prev, c, cs); }
  }

  /** A fill that had already taken `cs`. */
  ghost function Then(cs: seq<nat>, r: FillResult): FillResult {
    r.(cs := cs + r.cs)
  }

  lemma ThenStep(v: Store, u: Store, cb: nat, buf: seq<byte>, prev: nat, c: nat, cs: seq<nat>)
    requires cb > 0 && cb % 512 == 0 && WellFormed(v, cb) && prev < |v.fat| && buf != []
    requires c == NextFit(v.fat, v.hint) && c != 0 && u == Turn(v, cb, buf, prev)
    ensures WellFormed(u, cb) && c < |u.fat|
    ensures Then(cs, Append(v, cb, buf, prev)) == Then(cs + [c], Append(u, cb, buf[Min(|buf|, cb)..], c))
  {
    hide NextFit, Patch;
    NextFitExhaustive(v.fat, v.hint);
    var s := Append(u, cb, buf[Min(|buf|, cb)..], c);
    assert cs + ([c] + s.cs) == cs + [c] + s.cs;
  }

  /** Sector `s` of a cluster after `chunk` was stored over it. */
  function PatchedSector(old_: Sector, chunk: seq<byte>, s: nat): (r: Sector)
    ensures forall j :: 0 <= j < 512 ==>
              r[j] == if 512 * s + j < |chunk| then chunk[512 * s + j] else if 512 * s < |chunk| then 0 else old_[j]
  {
    if 512 * s + 512 <= |chunk| then chunk[512 * s..512 * s + 512]
    else if 512 * s < |chunk| then Splice(Fill(512, 0), 0, chunk[512 * s..])
    else old_
  }

  lemma PatchAt(block: seq<byte>, chunk: seq<byte>, s: nat, j: nat)
    requires |chunk| <= |block| && |block| % 512 == 0 && 512 * s + j < |block| && j < 512
    ensures Patch(block, chunk)[512 * s + j] ==
            if 512 * s + j < |chunk| then chunk[512 * s + j] else if 512 * s < |chunk| then 0 else block[512 * s + j]
  {
    var n := |chunk|;
    assert 512 * s + j < RoundUp512(n) <==> 512 * s < n;
  }

  lemma ChunkByte(d: seq<Sector>, d': seq<Sector>, lba: nat, n: nat, chunk: seq<byte>, s: nat, j: nat)
    requires |d| == |d'| && lba + n <= |d| && |chunk| <= n * 512 && s < n && j < 512
    requires d'[lba + s] == PatchedSector(d[lba + s], chunk, s)
    ensures Span(d', lba, n)[512 * s + j] == Patch(Span(d, lba, n), chunk)[512 * s + j]
  {
    PatchAt(Span(d, lba, n), chunk, s, j);
    SpanAt(d, lba, n, s, j);
    SpanAt(d', lba, n, s, j);
  }

  lemma SectorPlace(k: nat, n: nat)
    requires k < n * 512
    ensures k == 512 * (k / 512) + k % 512 && k / 512 < n
  {
  }

  lemma SpanPatched(d: seq<Sector>, d': seq<Sector>, lba: nat, n: nat, chunk: seq<byte>)
    requires |d| == |d'| && lba + n <= |d| && |chunk| <= n * 512
    requires forall i :: lba <= i < lba + n ==> d'[i] == PatchedSector(d[i], chunk, i - lba)
    ensures Span(d', lba, n) == Patch(Span(d, lba, n), chunk)
  {
    var got, want := Span(d', lba, n), Patch(Span(d, lba, n), chunk);
    hide PatchedSector, Span, Patch;
    forall k: nat | k < n * 512
      ensures got[k] == want[k]
    {
      var s, j := k / 512, k % 512;
      SectorPlace(k, n);
      assert d'[lba + s] == PatchedSector(d[lba + s], chunk, lba + s - lba);
      ChunkByte(d, d', lba, n, chunk, s, j);
    }
  }

  lemma ChunkStored(g: Geometry, d: seq<Sector>, d': seq<Sector>, c: nat, chunk: seq<byte>)
    requires g.Fits(d) && 2 <= c < g.Limit(|d|) && |chunk| <= g.ClusterBytes()
    requires SameOutside(d, d', g.ClusterLba(c), g.ClusterLba(c) + g.spc)
    requires forall i :: g.ClusterLba(c) <= i < g.ClusterLba(c) + g.spc && i < |d| ==>
               d'[i] == PatchedSector(d[i], chunk, i - g.ClusterLba(c))
    ensures DataOf(g, d') == DataOf(g, d)[c := Patch(DataOf(g, d)[c], chunk)]
    ensures FatOf(g, d') == FatOf(g, d) && RootOf(g, d') == RootOf(g, d)
    ensures forall cs :: Mirrored(g, d, cs) ==> Mirrored(g, d', cs)
  {
    ClusterLbaBounds(g, d, c);
    SpanPatched(d, d', g.ClusterLba(c), g.spc, chunk);
    ClusterWrite(g, d, d', c);
    DataElements(g, d);
  }
}
