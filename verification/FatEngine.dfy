/** The root-directory half of the FAT16 engine over the mutable disk: slots, lookup, and the whole
    operations, each proved against its value-level function. */
module FatEngine {
  import opened Bytes
  import opened Arith
  import opened FatChains
  import opened FatFiles
  import opened FatDisk
  import opened FatVolume
  import opened FatLfn
  import opened FatDir
  import opened FatNames
  import opened FatRoot
  import opened FatRuns

  /** The volume as the value the run theorems speak of. */
  ghost function VolOf(vol: Volume): (v: Vol)
    requires vol.Valid()
    reads vol
    ensures WellFormed(v.store, vol.g.ClusterBytes())
  {
    Vol(vol.View(), RootOf(vol.g, vol.disk))
  }

  /** One slot of the root directory, read through its sector. */
  method ReadSlot(vol: Volume, idx: nat) returns (s: Slot)
    requires vol.Valid() && idx < 16 * vol.g.rootSectors
    ensures s == RootOf(vol.g, vol.disk)[idx]
  {
    RootInside(vol.g, vol.disk);
    RootUpToAt(vol.g, vol.disk, 16 * vol.g.rootSectors, idx);
    var buf := vol.disk[vol.g.RootStart() + idx / 16];
    s := buf[32 * (idx % 16)..32 * (idx % 16) + 32];
  }

  /** `fat16_dir_write_raw` in the root. */
  method WriteSlot(vol: Volume, idx: nat, s: Slot)
    requires vol.Valid() && idx < 16 * vol.g.rootSectors
    modifies vol`disk
    ensures vol.Valid() && VolOf(vol) == old(VolOf(vol)).(root := old(VolOf(vol)).root[idx := s])
  {
    SlotWrite(vol.g, vol.disk, idx, s);
    var lba := vol.g.RootStart() + idx / 16;
    vol.disk := vol.disk[lba := Splice(vol.disk[lba], 32 * (idx % 16), s)];
  }

  /** `fat16_dir_mark_deleted` in the root. */
  method MarkDeleted(vol: Volume, idx: nat)
    requires vol.Valid() && idx < 16 * vol.g.rootSectors
    modifies vol`disk
    ensures vol.Valid()
    ensures VolOf(vol) == old(VolOf(vol)).(root := old(VolOf(vol)).root[idx := Mark(old(VolOf(vol)).root[idx])])
  {
    var s := ReadSlot(vol, idx);
    WriteSlot(vol, idx, Mark(s));
  }

  /** `fat16_short_name_exists` in the root. */
  method ShortNameExists(vol: Volume, short: Short) returns (r: bool)
    requires vol.Valid()
    ensures r == Taken(RootOf(vol.g, vol.disk), short)
  {
    ghost var root := RootOf(vol.g, vol.disk);
    var i := 0;
    while i < 16 * vol.g.rootSectors
      invariant 0 <= i <= |root|
      invariant Taken(root, short) == TakenFrom(root, short, i)
    {
      var s := ReadSlot(vol, i);
      if s[0] == 0 { return false; }
      if s[0] != DELETED && s[11] != LFN_ATTR && s[..8] == short[..8] && s[8..11] == short[8..] {
        assert s[..11] == s[..8] + s[8..11] == short;
        return true;
      }
      assert s[..11] == short ==> s[..8] == short[..8] && s[8..11] == short[8..] by {
        if s[..11] == short { assert s[..11][..8] == s[..8] && s[..11][8..] == s[8..11]; }
      }
      i := i + 1;
    }
    return false;
  }

  /** `fat16_iterate_dir` with the lookup callback: the decoder runs over the slots until the first
      match. */
  method FindEntrySlot(vol: Volume, name: seq<byte>) returns (r: Option<Item>)
    requires vol.Valid()
    ensures r == FirstMatch(Items(RootOf(vol.g, vol.disk)), name)
  {
    hide Push, MakeItem, Matches, Scan, FirstMatch, Mirrored, RootOf;
    ghost var root := RootOf(vol.g, vol.disk);
    ghost var goal := FirstMatch(Items(root), name);
    var i, st := 0, Idle;
    while i < 16 * vol.g.rootSectors
      invariant 0 <= i <= |root|
      invariant goal == FirstMatch(Scan(root, i, st), name)
    {
      LookupStep(root, i, st, name);
      var s := ReadSlot(vol, i);
      if s[0] == 0 { return None; }
      if s[0] == DELETED {
        st := Idle;
      } else if s[11] == LFN_ATTR {
        st := Push(st, s, i);
      } else {
        var item := MakeItem(st, s, i);
        if Matches(item, name) { return Some(item); }
        st := Idle;
      }
      i := i + 1;
    }
    LookupEnd(root, i, st, name);
    return None;
  }

  /** `fat16_find_free_slots` in the root: the run counter restarts at every used slot. */
  method FindFreeSlots(vol: Volume, needed: nat) returns (r: Option<nat>)
    requires vol.Valid() && needed > 0
    ensures r == FindRun(RootOf(vol.g, vol.disk), 0, needed)
  {
    hide FindRun, RootOf, Mirrored;
    ghost var root := RootOf(vol.g, vol.disk);
    var i, run: nat := 0, 0;
    while i < 16 * vol.g.rootSectors
      invariant 0 <= i <= |root| && run <= i && run < needed
      invariant FreeRun(root, i - run, run)
      invariant FindRun(root, 0, needed) == FindRun(root, i - run, needed)
    {
      var s := ReadSlot(vol, i);
      if s[0] == 0 || s[0] == DELETED {
        run := run + 1;
        if run == needed {
          RunFound(root, i + 1 - run, needed);
          return Some(i + 1 - run);
        }
      } else {
        SkipUsed(root, i - run, i, needed);
        run := 0;
      }
      i := i + 1;
    }
    NoRunLeft(root, i - run, needed);
    return None;
  }

  lemma RunFound(root: seq<Slot>, a: nat, n: nat)
    requires FreeRun(root, a, n)
    ensures FindRun(root, a, n) == Some(a)
  {
  }

  lemma NoRunLeft(root: seq<Slot>, a: nat, n: nat)
    requires a + n > |root|
    ensures FindRun(root, a, n) == None
  {
  }

  /** No run starting before a used slot and reaching it counts. */
  lemma {:induction false} SkipUsed(root: seq<Slot>, a: nat, u: nat, n: nat)
    requires a <= u < |root| && !IsFree(root[u]) && u < a + n
    ensures FindRun(root, a, n) == FindRun(root, u + 1, n)
    decreases u - a
  {
    if a < u { SkipUsed(root, a + 1, u, n); }
  }

  // ---------------------------------------------------------------- the long-name writer

  /** Which character byte `k` of a fragment belongs to; 13 for the other bytes. */
  function UnitIndex(k: nat): nat {
    if 1 <= k < 11 then (k - 1) / 2
    else if 14 <= k < 26 then 5 + (k - 14) / 2
    else if 28 <= k < 32 then 11 + (k - 28) / 2
    else 13
  }

  /** A fragment with its first `j` characters in place. */
  ghost predicate Filled13(buf: Slot, name: seq<byte>, start: nat, ord: byte, checksum: byte, j: nat) {
    forall k :: 0 <= k < 32 ==>
      buf[k] == if UnitIndex(k) < j || UnitIndex(k) == 13 then FragmentByte(name, start, ord, checksum, k) else 0
  }

  lemma FilledStart(name: seq<byte>, start: nat, ord: byte, checksum: byte)
    ensures Filled13(Fill(32, 0)[0 := ord][11 := LFN_ATTR][13 := checksum], name, start, ord, checksum, 0)
  {
    hide Unit;
  }

  lemma FilledStep(buf: Slot, name: seq<byte>, start: nat, ord: byte, checksum: byte, j: nat)
    requires j < 13 && Filled13(buf, name, start, ord, checksum, j)
    ensures Filled13(Splice(buf, UnitOffset(j), Enc16(Unit(name, start, j))), name, start, ord, checksum, j + 1)
  {
    hide Unit;
    var u := Unit(name, start, j);
    var w := Splice(buf, UnitOffset(j), Enc16(u));
    forall k | 0 <= k < 32
      ensures w[k] == if UnitIndex(k) < j + 1 || UnitIndex(k) == 13 then FragmentByte(name, start, ord, checksum, k)
                      else 0
    {
      if UnitIndex(k) == j {
        assert k == UnitOffset(j) || k == UnitOffset(j) + 1;
      }
    }
  }

  lemma FilledEnd(buf: Slot, name: seq<byte>, count: nat, i: nat, checksum: byte)
    requires i < count <= MAX_ENTRIES
    requires Filled13(buf, name, (count - i - 1) * 13, Ord(count, i), checksum, 13)
    ensures buf == Fragment(name, count, i, checksum)
  {
    hide Fragment, FragmentByte;
    var f := Fragment(name, count, i, checksum);
    forall k: nat | k < 32
      ensures buf[k] == f[k]
    {
      FragmentAt(name, count, i, checksum, k);
      assert UnitIndex(k) <= 13;
    }
  }

  /** One turn of `fat16_write_lfn_entries`: the text, one terminator, then filler. */
  method BuildFragment(name: seq<byte>, count: nat, i: nat, checksum: byte) returns (buf: Slot)
    requires i < count <= MAX_ENTRIES && count == FragmentCount(name)
    ensures buf == Fragment(name, count, i, checksum)
  {
    var ord := Ord(count, i);
    var start := (count - i - 1) * 13;
    buf := Fill(32, 0)[0 := ord][11 := LFN_ATTR][13 := checksum];
    FilledStart(name, start, ord, checksum);
    var ended := false;
    for j := 0 to 13
      invariant Filled13(buf, name, start, ord, checksum, j)
      invariant ended <==> start + j > |name|
    {
      hide Filled13, FragmentByte;
      var ch: nat;
      if start + j < |name| {
        ch := name[start + j];
      } else if !ended {
        ch, ended := 0x0000, true;
      } else {
        ch := 0xFFFF;
      }
      FilledStep(buf, name, start, ord, checksum, j);
      buf := Splice(buf, UnitOffset(j), Enc16(ch));
    }
    FilledEnd(buf, name, count, i, checksum);
  }

  /** `fat16_write_lfn_entries` into the slots `a, a + 1, ...`. */
  method WriteLfnEntries(vol: Volume, a: nat, count: nat, name: seq<byte>, checksum: byte)
    requires vol.Valid() && count <= MAX_ENTRIES && count == FragmentCount(name)
    requires a + count <= 16 * vol.g.rootSectors
    modifies vol`disk
    ensures vol.Valid()
    ensures VolOf(vol) == old(VolOf(vol)).(root := PlaceRun(old(VolOf(vol)).root, a, name, count, checksum, count))
  {
    ghost var v0 := VolOf(vol);
    for i := 0 to count
      invariant vol.Valid() && VolOf(vol) == v0.(root := PlaceRun(v0.root, a, name, count, checksum, i))
    {
      hide Fragment;
      var s := BuildFragment(name, count, i, checksum);
      WriteSlot(vol, a + i, s);
      assert a + (i + 1) - 1 == a + i && (i + 1) - 1 == i;
    }
  }

  /** `fat16_generate_short_name`: the plain form, then the numbered aliases. */
  method GenerateShortName(vol: Volume, name: seq<byte>) returns (r: Option<Short>)
    requires vol.Valid()
    ensures r == Generate(RootOf(vol.g, vol.disk), name)
  {
    ghost var root := RootOf(vol.g, vol.disk);
    var n := 0;
    while n < 10000
      invariant 0 <= n <= 10000
      invariant Generate(root, name) == GenerateFrom(root, name, n)
    {
      hide Candidate, Taken;
      var taken := ShortNameExists(vol, Candidate(name, n));
      if !taken { return Some(Candidate(name, n)); }
      n := n + 1;
    }
    return None;
  }

  /** What `fat16_create_file` and `fat16_mkdir` check and choose before touching the disk. */
  method ChooseSpot(vol: Volume, name: seq<byte>) returns (r: Option<Spot>)
    requires vol.Valid()
    ensures r == FindSpot(RootOf(vol.g, vol.disk), name)
  {
    hide Items, Prepare, Taken, Generate, NeedsLong, Format83, FindRun, FragmentCount;
    if name == [] || IsDots(name) { return None; }
    var found := FindEntrySlot(vol, name);
    if found.Some? { return None; }
    if NeedsLong(name) {
      var long := Prepare(name);
      if long.None? { return None; }
      var short := GenerateShortName(vol, long.value);
      if short.None? { return None; }
      var a := FindFreeSlots(vol, FragmentCount(long.value) + 1);
      if a.None? { return None; }
      return Some(Spot(long.value, FragmentCount(long.value), short.value, a.value));
    }
    var taken := ShortNameExists(vol, Format83(name));
    if taken { return None; }
    var a := FindFreeSlots(vol, 1);
    if a.None? { return None; }
    return Some(Spot(name, 0, Format83(name), a.value));
  }

  // ---------------------------------------------------------------- whole operations

  /** Writes the fragments and then the short entry. */
  method StoreEntry(vol: Volume, s: Spot, e: Slot)
    requires vol.Valid() && s.count <= MAX_ENTRIES && s.at + s.count < 16 * vol.g.rootSectors
    requires s.count == 0 || s.count == FragmentCount(s.long)
    modifies vol`disk
    ensures vol.Valid()
    ensures VolOf(vol) == old(VolOf(vol)).(root := Place(old(VolOf(vol)).root, s.at, s.long, s.count, e))
  {
    hide Fragment;
    if s.count > 0 {
      WriteLfnEntries(vol, s.at, s.count, s.long, Checksum(e[..11]));
    }
    WriteSlot(vol, s.at + s.count, e);
  }

  /** If the entry can be placed, the next `n` clusters handed out are on the disk. */
  ghost predicate CreateBacked(v: Vol, name: seq<byte>, n: nat, limit: nat)
    requires 2 <= |v.store.fat|
  {
    FindSpot(v.root, name).Some? ==> Safe(v.store.fat, v.store.hint, limit, n)
  }

  /** Common part of `fat16_create_file` and `fat16_mkdir`. */
  method Insert(vol: Volume, name: seq<byte>, attr: byte, n: nat, size: nat, scratch: nat -> bool)
    returns (ok: bool, first: nat)
    requires vol.Valid() && ZeroSuffix(VolOf(vol).root) && size < TWO32
    requires CreateBacked(VolOf(vol), name, n, vol.Limit())
    modifies vol
    ensures vol.Valid()
    ensures var r := AddEntry(old(VolOf(vol)), vol.g.ClusterBytes(), name, attr, n, size, scratch);
            ok == r.Some? && (ok ==> VolOf(vol) == r.value)
    ensures !ok ==> VolOf(vol) == old(VolOf(vol))
    ensures ok ==> first == Head(Reserve(old(VolOf(vol)).store, vol.g.ClusterBytes(), n, 0, scratch).1) < vol.Limit()
  {
    hide FindSpot, Reserve, Place, ZeroSuffix, ShortEntry, NeedsLong, Prepare, Items, Taken, FreeRun, NoZeroBefore,
         Mirrored, FatOf, DataOf, RootOf, FragmentCount, Safe;
    ghost var v, cb := VolOf(vol), vol.g.ClusterBytes();
    SpotMeans(v.root, name);
    var spot := ChooseSpot(vol, name);
    if spot.None? { return false, 0; }
    var s := spot.value;
    RunInside(v.root, s.at, s.count + 1);
    ReserveInTable(v.store, cb, n, scratch);
    ghost var cs;
    var got;
    first, got, cs := vol.ReserveChain(n, 0, scratch);
    if first == 0 { return false, 0; }
    var e := ShortEntry(s.short, attr, first, size);
    StoreEntry(vol, s, e);
    ok := true;
  }

  lemma ReserveInTable(v: Store, cb: nat, n: nat, scratch: nat -> bool)
    requires WellFormed(v, cb)
    ensures var cs := Reserve(v, cb, n, 0, scratch).1; cs != [] ==> 2 <= cs[0] < |v.fat|
  {
    ReserveGrows(v, cb, n, 0, scratch);
  }

  /** `fat16_create_file` in the root. */
  method Fat16Create(vol: Volume, name: seq<byte>, size: nat, scratch: nat -> bool) returns (ok: bool)
    requires vol.Valid() && ZeroSuffix(VolOf(vol).root) && size < TWO32
    requires CreateBacked(VolOf(vol), name, CreateCount(size, vol.g.ClusterBytes()), vol.Limit())
    modifies vol
    ensures vol.Valid()
    ensures var r := CreateFile(old(VolOf(vol)), vol.g.ClusterBytes(), name, size, scratch);
            ok == r.Some? && (ok ==> VolOf(vol) == r.value)
    ensures !ok ==> VolOf(vol) == old(VolOf(vol))
  {
    hide AddEntry, ZeroSuffix, CreateCount, CreateBacked;
    var first;
    ok, first := Insert(vol, name, ATTR_FILE, CreateCount(size, vol.g.ClusterBytes()), size, scratch);
  }

  /** `fat16_mkdir` in the root. */
  method Fat16Mkdir(vol: Volume, name: seq<byte>) returns (ok: bool)
    requires vol.Valid() && ZeroSuffix(VolOf(vol).root) && CreateBacked(VolOf(vol), name, 1, vol.Limit())
    modifies vol
    ensures vol.Valid()
    ensures var r := Mkdir(old(VolOf(vol)), vol.g.ClusterBytes(), name);
            ok == r.Some? && (ok ==> VolOf(vol) == r.value)
    ensures !ok ==> VolOf(vol) == old(VolOf(vol))
  {
    hide AddEntry, ZeroSuffix, DirBlock, NextFit, Reserve, CreateBacked;
    ghost var v, cb := VolOf(vol), vol.g.ClusterBytes();
    var first;
    ok, first := Insert(vol, name, ATTR_DIR, 1, 0, NoScratch);
    ReserveOne(v.store, cb, NoScratch);
    if ok {
      NextFitExhaustive(v.store.fat, v.store.hint);
      AddEntryTook(v, cb, name);
      WholeBlock(vol.View().data[first], DirBlock(first, 0, vol.g.ClusterBytes()));
      vol.StoreChunk(first, DirBlock(first, 0, vol.g.ClusterBytes()));
    }
  }

  lemma AddEntryTook(v: Vol, cb: nat, name: seq<byte>)
    requires WellFormed(v.store, cb) && AddEntry(v, cb, name, ATTR_DIR, 1, 0, NoScratch).Some?
    ensures NextFit(v.store.fat, v.store.hint) != 0
  {
    hide FindSpot, Place, NextFit, ShortEntry;
    ReserveOne(v.store, cb, NoScratch);
  }

  lemma WholeBlock(block: seq<byte>, chunk: seq<byte>)
    requires |chunk| == |block| && |block| % 512 == 0
    ensures Patch(block, chunk) == chunk
  {
  }

  /** The chain released is on the disk, and so are the clusters that hold `n` bytes afterwards. */
  ghost predicate OverwriteBacked(v: Store, cb: nat, first: nat, n: nat, limit: nat)
    requires cb > 0 && 2 <= |v.fat| && LinksInside(v.fat) && StartsInside(v.fat, first)
  {
    Below(Visit(v.fat, first), limit) && Safe(Released(v, first).fat, v.hint, limit, ClustersFor(n, cb))
  }

  /** The same for the file an item names; a directory is refused before anything is touched. */
  ghost predicate ItemBacked(v: Vol, cb: nat, item: Item, n: nat, limit: nat)
    requires cb > 0 && WellFormed(v.store, cb)
  {
    var first := Le16(item.entry, 26);
    IsDirEntry(item.entry) ||
    (LinksInside(v.store.fat) && StartsInside(v.store.fat, first) && OverwriteBacked(v.store, cb, first, n, limit))
  }

  /** The overwrite half of `fat16_write_file`: release, rebuild, rewrite the entry. */
  method OverwriteItem(vol: Volume, item: Item, buf: seq<byte>, ghost chains: map<nat, seq<nat>>) returns (ok: bool)
    requires vol.Valid() && Good(VolOf(vol), vol.g.ClusterBytes(), chains)
    requires ItemSound(VolOf(vol).root, item) && |buf| < TWO32
    requires ItemBacked(VolOf(vol), vol.g.ClusterBytes(), item, |buf|, vol.Limit())
    modifies vol
    ensures vol.Valid()
    ensures ok == WriteItem(old(VolOf(vol)), vol.g.ClusterBytes(), item, buf).Some?
    ensures VolOf(vol) == ItemAfter(old(VolOf(vol)), vol.g.ClusterBytes(), item, buf)
  {
    hide Append, Good, WriteItem, ItemAfter, Released, ShortEntry, LinksInside, StartsInside, Safe, Below, ClustersFor;
    ghost var v, cb := VolOf(vol), vol.g.ClusterBytes();
    WriteItemIs(v, cb, chains, item, buf);
    if IsDirEntry(item.entry) { return false; }
    var first, short: Short := Le16(item.entry, 26), item.entry[..11];
    vol.ReleaseChain(first);
    ghost var cs;
    var newFirst;
    ok, newFirst, cs := vol.WriteChain(buf);
    if ok {
      WriteSlot(vol, item.idx, ShortEntry(short, ATTR_FILE, newFirst, |buf|));
    }
  }

  /** On a good volume the guards of `WriteItem` are those of the source alone. */
  lemma WriteItemIs(v: Vol, cb: nat, chains: map<nat, seq<nat>>, item: Item, buf: seq<byte>)
    requires Good(v, cb, chains) && ItemSound(v.root, item) && |buf| < TWO32
    ensures IsDirEntry(item.entry) ==> WriteItem(v, cb, item, buf).None? && ItemAfter(v, cb, item, buf) == v
    ensures LinksInside(v.store.fat) && StartsInside(v.store.fat, Le16(item.entry, 26))
    ensures WellFormed(Released(v.store, Le16(item.entry, 26)), cb)
    ensures var r := Overwrite(v.store, cb, Le16(item.entry, 26), buf);
            && Head(r.cs) < EOC
            && (r.Full? && !IsDirEntry(item.entry) ==>
                  WriteItem(v, cb, item, buf).None? && ItemAfter(v, cb, item, buf) == v.(store := r.v))
            && (r.Filled? && !IsDirEntry(item.entry) ==>
                  WriteItem(v, cb, item, buf) == Some(ItemAfter(v, cb, item, buf)) ==
                  Some(Vol(r.v, v.root[item.idx := ShortEntry(item.entry[..11], ATTR_FILE, Head(r.cs), |buf|)])))
  {
    hide Overwrite, Unique, ZeroSuffix, Files, Sound, Released, ShortEntry, LinksInside, StartsInside, FreeSet,
         WriteItem;
    FilesAt(v.root, item.idx);
    SoundLinks(v.store.fat, Files(v.root), chains);
    ReleaseSound(v.store, cb, Files(v.root), chains, item.idx);
    if !IsDirEntry(item.entry) {
      ItemAfterIs(v, cb, item, buf);
    } else {
      DirRefused(v, cb, item, buf);
    }
    OverwriteStarts(v.store, cb, Le16(item.entry, 26), buf);
  }

  lemma DirRefused(v: Vol, cb: nat, item: Item, buf: seq<byte>)
    requires cb > 0 && cb % 512 == 0 && WellFormed(v.store, cb) && ItemSound(v.root, item) && IsDirEntry(item.entry)
    ensures WriteItem(v, cb, item, buf).None?
  {
    hide Overwrite, LinksInside, StartsInside;
  }

  /** Every cluster that writing `n` bytes under `name` takes or releases is on the disk. */
  ghost predicate WriteBacked(v: Vol, cb: nat, name: seq<byte>, n: nat, limit: nat)
    requires cb > 0 && cb % 512 == 0 && WellFormed(v.store, cb) && ZeroSuffix(v.root) && Unique(v.root)
    decreases |FreeSlots(v.root)|
  {
    match FirstMatch(Items(v.root), name)
    case Some(item) => ItemBacked(v, cb, item, n, limit)
    case None =>
      CreateBacked(v, name, 1, limit) &&
      (match CreateFile(v, cb, name, 0, NoScratch)
       case None => true
       case Some(u) =>
         CreateShrinks(v, cb, name, 0, NoScratch);
         AddEntryMeans(v, cb, name, ATTR_FILE, CreateCount(0, cb), 0, NoScratch);
         WriteBacked(u, cb, name, n, limit))
  }

  /** `fat16_write_file` in the root. */
  method Fat16Write(vol: Volume, name: seq<byte>, buf: seq<byte>, ghost chains: map<nat, seq<nat>>) returns (ok: bool)
    requires vol.Valid() && Good(VolOf(vol), vol.g.ClusterBytes(), chains) && |buf| < TWO32
    requires WriteBacked(VolOf(vol), vol.g.ClusterBytes(), name, |buf|, vol.Limit())
    modifies vol
    ensures vol.Valid()
    ensures ok == WriteFile(old(VolOf(vol)), vol.g.ClusterBytes(), name, buf).Some?
    ensures VolOf(vol) == FileAfter(old(VolOf(vol)), vol.g.ClusterBytes(), name, buf)
    decreases |FreeSlots(VolOf(vol).root)|
  {
    hide WriteItem, ItemAfter, Unique, ZeroSuffix, Items, CreateFile, Sound, FreeSlots, ItemSound, Kept, Files,
         CreateBacked, ItemBacked, CreateCount;
    CreateEmpty(vol.g.ClusterBytes());
    ghost var v, cb := VolOf(vol), vol.g.ClusterBytes();
    LookupSound(v.root, name);
    var found := FindEntrySlot(vol, name);
    if found.Some? {
      ok := OverwriteItem(vol, found.value, buf, chains);
    } else {
      var made := Fat16Create(vol, name, 0, NoScratch);
      if !made { return false; }
      WriteFileRetries(v, cb, name, buf, VolOf(vol));
      ghost var chains' := CreatedGood(v, cb, chains, name);
      ok := Fat16Write(vol, name, buf, chains');
    }
  }

  lemma CreatedGood(v: Vol, cb: nat, chains: map<nat, seq<nat>>, name: seq<byte>) returns (chains': map<nat, seq<nat>>)
    requires Good(v, cb, chains)
    ensures var r := CreateFile(v, cb, name, 0, NoScratch); r.Some? ==> Good(r.value, cb, chains')
  {
    CreateEmpty(cb);
    hide AddEntry, Good, Kept, Files;
    var k, cs := AddEntryGood(v, cb, chains, name, ATTR_FILE, 1, 0, NoScratch);
    chains' := chains[k := cs];
  }

  /** The clusters of every file are on the disk. */
  ghost predicate ChainsBelow(chains: map<nat, seq<nat>>, limit: nat) {
    forall k :: k in chains ==> Below(chains[k], limit)
  }

  /** `fat16_rm` in the root. */
  method Fat16Remove(vol: Volume, name: seq<byte>, ghost chains: map<nat, seq<nat>>) returns (ok: bool)
    requires vol.Valid() && Good(VolOf(vol), vol.g.ClusterBytes(), chains) && ChainsBelow(chains, vol.Limit())
    modifies vol
    ensures vol.Valid()
    ensures var r := RemoveFile(old(VolOf(vol)), name);
            ok == r.Some? && VolOf(vol) == if ok then r.value else old(VolOf(vol))
  {
    hide Unique, ZeroSuffix, Items, Files, IsChain, Released, Mark, MarkAll, Sound, FirstMatch, RootOf, FatOf, DataOf,
         Mirrored, Visit, FreeSet, Below;
    ghost var v := VolOf(vol);
    LookupSound(v.root, name);
    SoundLinks(v.store.fat, Files(v.root), chains);
    var found := FindEntrySlot(vol, name);
    if found.None? { return false; }
    var item := found.value;
    FilesAt(v.root, item.idx);
    ReleaseSound(v.store, vol.g.ClusterBytes(), Files(v.root), chains, item.idx);
    SoundChain(v.store.fat, Files(v.root), chains, item.idx);
    VisitChain(v.store.fat, chains[item.idx]);
    vol.ReleaseChain(Le16(item.entry, 26));
    MarkSlots(vol, item.lfnSlots);
    assert VolOf(vol).root[item.idx] == v.root[item.idx];
    MarkDeleted(vol, item.idx);
    ok := true;
  }

  /** Marks a list of slots deleted. */
  method MarkSlots(vol: Volume, slots: seq<nat>)
    requires vol.Valid() && forall i :: 0 <= i < |slots| ==> slots[i] < 16 * vol.g.rootSectors
    modifies vol`disk
    ensures vol.Valid()
    ensures VolOf(vol) == old(VolOf(vol)).(root := MarkAll(old(VolOf(vol)).root, slots))
  {
    hide MarkAll, Mark;
    ghost var v := VolOf(vol);
    MarkNone(v.root, slots);
    for i := 0 to |slots|
      invariant vol.Valid() && VolOf(vol).store == v.store && |VolOf(vol).root| == |v.root|
      invariant VolOf(vol).root == MarkAll(v.root, slots[..i])
    {
      MarkAllStep(v.root, slots, i);
      MarkDeleted(vol, slots[i]);
    }
    assert slots[..|slots|] == slots;
  }

  lemma MarkNone(root: seq<Slot>, slots: seq<nat>)
    ensures MarkAll(root, slots[..0]) == root
  {
  }

  lemma MarkAllStep(root: seq<Slot>, slots: seq<nat>, i: nat)
    requires i < |slots| && forall j :: 0 <= j < |slots| ==> slots[j] < |root|
    ensures var r := MarkAll(root, slots[..i]);
            MarkAll(root, slots[..i + 1]) == r[slots[i] := Mark(r[slots[i]])]
  {
    hide Mark, MarkAll;
    var before, after, x := slots[..i], slots[..i + 1], slots[i];
    InLonger(slots, i);
    var r, t := MarkAll(root, before), MarkAll(root, after);
    MarkTwice(root[x]);
    var want := r[x := Mark(r[x])];
    assert want[x] == Mark(root[x]) && x in after;
    forall k: nat | k < |root| && k != x
      ensures t[k] == want[k]
    {
      assert k in after <==> k in before;
    }
  }

  lemma InLonger(slots: seq<nat>, i: nat)
    requires i < |slots|
    ensures forall k :: k in slots[..i + 1] <==> k in slots[..i] || k == slots[i]
  {
    assert slots[..i + 1] == slots[..i] + [slots[i]];
  }
}
