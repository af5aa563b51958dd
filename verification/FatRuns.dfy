/** Whole operations on a volume and what every run of them keeps. */
module FatRuns {
  import opened Bytes
  import opened Arith
  import opened FatChains
  import opened FatFiles
  import opened FatDisk
  import opened FatLfn
  import opened FatDir
  import opened FatNames
  import opened FatRoot

  predicate IsDirEntry(e: Slot) { e[11] as int / 16 % 2 == 1 }

  /** For chains of one cluster, which is never zeroed. */
  function NoScratch(c: nat): bool { false }

  // ---------------------------------------------------------------- create and mkdir

  /** A new entry with a chain of `n` clusters (`fat16_create_file`; with `n == 1`, `fat16_mkdir`
      before it fills the cluster). */
  function AddEntry(v: Vol, cb: nat, name: seq<byte>, attr: byte, n: nat, size: nat, scratch: nat -> bool):
    (r: Option<Vol>)
    requires 2 <= |v.store.fat| == |v.store.data| && |v.store.fat| <= EOC && size < TWO32
  {
    match FindSpot(v.root, name)
    case None => None
    case Some(s) => AddAt(v, cb, s, attr, n, size, scratch)
  }

  /** The same once its place is found. */
  function AddAt(v: Vol, cb: nat, s: Spot, attr: byte, n: nat, size: nat, scratch: nat -> bool): (r: Option<Vol>)
    requires 2 <= |v.store.fat| == |v.store.data| && |v.store.fat| <= EOC && size < TWO32
  {
    var (st, cs) := Reserve(v.store, cb, n, 0, scratch);
    if cs == [] || s.at + s.count >= |v.root| || s.count > MAX_ENTRIES || cs[0] >= EOC then None
    else Some(Vol(st, Place(v.root, s.at, s.long, s.count, ShortEntry(s.short, attr, cs[0], size))))
  }

  ghost function CreateFile(v: Vol, cb: nat, name: seq<byte>, size: nat, scratch: nat -> bool): (r: Option<Vol>)
    requires cb > 0 && WellFormed(v.store, cb) && size < TWO32
  {
    AddEntry(v, cb, name, ATTR_FILE, CreateCount(size, cb), size, scratch)
  }

  /** How many clusters `fat16_create_file` asks for: at least one, and the quotient of a 32-bit sum. */
  function CreateCount(size: nat, cb: nat): (n: nat)
    requires cb > 0
    ensures n >= 1
  {
    QuotRem(U32(size + cb - 1), cb);
    var n := U32(size + cb - 1) / cb;
    if n > 1 then n else 1
  }

  /** The clusters asked for hold `size` bytes exactly when the sum does not wrap. */
  lemma CreateCountExact(size: nat, cb: nat)
    requires 0 < cb < 0x8000_0000 && size < TWO32
    ensures CreateCount(size, cb) * cb >= size <==> size + cb - 1 < TWO32
    ensures size + cb - 1 < TWO32 ==>
              CreateCount(size, cb) == if ClustersFor(size, cb) > 1 then ClustersFor(size, cb) else 1
  {
    var x := U32(size + cb - 1);
    QuotRem(x, cb);
    if size + cb - 1 < TWO32 {
      assert x == size + cb - 1;
      MulMono(x / cb, CreateCount(size, cb), cb);
    } else {
      assert x == size + cb - 1 - TWO32;
      DivUnique(x, cb, 0);
    }
  }

  lemma CreateEmpty(cb: nat)
    requires cb > 0
    ensures CreateCount(0, cb) == 1
  {
    DivUnique(U32(cb - 1), cb, 0);
  }

  /** A file created with 0xFFFFFFFF bytes gets one cluster. */
  lemma HugeCreateGetsOne()
    ensures CreateCount(0xFFFF_FFFF, 2048) == 1
  {
    CreateCountExact(0xFFFF_FFFF, 2048);
    DivUnique(U32(0xFFFF_FFFF + 2048 - 1), 2048, 0);
  }

  /** Where the new entry goes, and its chain. */
  ghost predicate Added(v: Vol, cb: nat, v': Vol, idx: nat, cs: seq<nat>, size: nat) {
    && Grown(v.store.fat, v'.store.fat, 0, cs) && cs != []
    && idx !in Files(v.root)
    && Files(v'.root) == Files(v.root)[idx := File(cs[0], size)]
    && |v'.store.data| == |v.store.data|
    && (forall c :: 0 <= c < |v.store.data| && c !in cs ==> v'.store.data[c] == v.store.data[c])
  }

  lemma AddEntryMeans(v: Vol, cb: nat, name: seq<byte>, attr: byte, n: nat, size: nat, scratch: nat -> bool)
    requires WellFormed(v.store, cb) && ZeroSuffix(v.root) && Unique(v.root) && size < TWO32 && attr != LFN_ATTR
    ensures var r := AddEntry(v, cb, name, attr, n, size, scratch);
            r.Some? ==>
              && FindSpot(v.root, name).Some?
              && WellFormed(r.value.store, cb) && ZeroSuffix(r.value.root) && Unique(r.value.root)
              && var s := FindSpot(v.root, name).value;
                 Added(v, cb, r.value, s.at + s.count, Reserve(v.store, cb, n, 0, scratch).1, size)
  {
    hide FindSpot, AddAt, SpotOk, Reserve, Added, Unique, ZeroSuffix, NeedsLong, Prepare, Items, Format83, FirstMatch,
         FragmentCount;
    SpotMeans(v.root, name);
    var r := AddEntry(v, cb, name, attr, n, size, scratch);
    if r.Some? { AddAtMeans(v, cb, FindSpot(v.root, name).value, attr, n, size, scratch); }
  }

  lemma AddAtMeans(v: Vol, cb: nat, s: Spot, attr: byte, n: nat, size: nat, scratch: nat -> bool)
    requires WellFormed(v.store, cb) && ZeroSuffix(v.root) && Unique(v.root) && size < TWO32 && attr != LFN_ATTR
    requires SpotOk(v.root, s)
    ensures var r := AddAt(v, cb, s, attr, n, size, scratch);
            r.Some? ==>
              && WellFormed(r.value.store, cb) && ZeroSuffix(r.value.root) && Unique(r.value.root)
              && Added(v, cb, r.value, s.at + s.count, Reserve(v.store, cb, n, 0, scratch).1, size)
  {
    hide Reserve, Place, Grown, Files, Unique, ZeroSuffix, FreeRun, Taken, NoZeroBefore, ShortEntry;
    var r := AddAt(v, cb, s, attr, n, size, scratch);
    if r.Some? {
      ReserveGrows(v.store, cb, n, 0, scratch);
      ReserveFrame(v.store, cb, n, 0, scratch);
      var cs := Reserve(v.store, cb, n, 0, scratch).1;
      var e := ShortEntry(s.short, attr, cs[0], size);
      assert e[0] == e[..11][0];
      FilesPlace(v.root, s.at, s.long, s.count, e);
      UniquePlace(v.root, s.at, s.long, s.count, e);
      PlaceKeepsSuffix(v.root, s.at, s.long, s.count, e);
    }
  }

  /** Creating keeps everything and adds one whole, disjoint chain. */
  lemma AddedGood(v: Vol, cb: nat, chains: map<nat, seq<nat>>, v': Vol, idx: nat, cs: seq<nat>, size: nat)
    requires Good(v, cb, chains) && Added(v, cb, v', idx, cs, size)
    requires WellFormed(v'.store, cb) && ZeroSuffix(v'.root) && Unique(v'.root)
    ensures Good(v', cb, chains[idx := cs])
  {
    hide Grown, Files, Unique, ZeroSuffix, WellFormed;
    var files := Files(v.root);
    assert files - {idx} == files && chains - {idx} == chains;
    GrownLength(v.store, v'.store, cb);
    GrownSound(v.store.fat, v'.store.fat, files, chains, idx, cs, size);
  }

  lemma GrownLength(a: Store, b: Store, cb: nat)
    requires WellFormed(a, cb) && WellFormed(b, cb)
    ensures |a.fat| <= EOC && |b.fat| <= EOC
  {
  }

  /** The first cluster of a new directory: itself, its parent (0 for the root), then nothing. */
  function DirBlock(c: nat, parent: nat, cb: nat): (r: seq<byte>)
    requires c < TWO16 && parent < TWO16 && cb >= 512
    ensures |r| == cb
  {
    ShortEntry([DOT] + Fill(10, SPACE), ATTR_DIR, c, 0) + ShortEntry([DOT, DOT] + Fill(9, SPACE), ATTR_DIR, parent, 0)
    + Fill(cb - 64, 0)
  }

  /** The block lists the directory itself and its parent, and nothing else. */
  lemma DirBlockMeans(c: nat, parent: nat, cb: nat)
    requires c < TWO16 && parent < TWO16 && cb >= 512
    ensures var b := DirBlock(c, parent, cb);
            && b[..11] == [DOT] + Fill(10, SPACE) && FileOf(b[..32]) == File(c, 0) && IsDirEntry(b[..32])
            && b[32..43] == [DOT, DOT] + Fill(9, SPACE) && FileOf(b[32..64]) == File(parent, 0)
            && IsDirEntry(b[32..64])
            && forall k :: 64 <= k < cb ==> b[k] == 0
  {
    hide ShortEntry;
    var self, up := [DOT] + Fill(10, SPACE), [DOT, DOT] + Fill(9, SPACE);
    var x, y := ShortEntry(self, ATTR_DIR, c, 0), ShortEntry(up, ATTR_DIR, parent, 0);
    var b := DirBlock(c, parent, cb);
    assert b[..32] == x && b[32..64] == y;
    assert b[..11] == x[..11] && b[32..43] == y[..11];
  }

  ghost function Mkdir(v: Vol, cb: nat, name: seq<byte>): (r: Option<Vol>)
    requires cb >= 512 && WellFormed(v.store, cb)
  {
    match AddEntry(v, cb, name, ATTR_DIR, 1, 0, NoScratch)
    case None => None
    case Some(u) =>
      var c := NextFit(v.store.fat, v.store.hint);
      if c < |u.store.data| then Some(u.(store := u.store.(data := u.store.data[c := DirBlock(c, 0, cb)]))) else None
  }

  // ---------------------------------------------------------------- overwrite

  /** Overwriting the file an item names. */
  ghost function WriteItem(v: Vol, cb: nat, item: Item, buf: seq<byte>): (r: Option<Vol>)
    requires cb > 0 && cb % 512 == 0 && WellFormed(v.store, cb) && ItemSound(v.root, item)
  {
    var first := Le16(item.entry, 26);
    if IsDirEntry(item.entry) || !LinksInside(v.store.fat) || !StartsInside(v.store.fat, first) || |buf| >= TWO32
    then None
    else
      match Overwrite(v.store, cb, first, buf)
      case Full(_, _) => None
      case Filled(st, cs) =>
        if Head(cs) >= EOC then None
        else Some(Vol(st, v.root[item.idx := ShortEntry(item.entry[..11], ATTR_FILE, Head(cs), |buf|)]))
  }

  ghost predicate ReadsAs(v: Vol, cs: seq<nat>, size: nat, want: seq<byte>) {
    (forall i :: 0 <= i < |cs| ==> cs[i] < |v.store.data|) && Content(v.store.data, cs, size) == want
  }

  ghost predicate SameContent(v: Vol, v': Vol, cs: seq<nat>, size: nat) {
    && (forall i :: 0 <= i < |cs| ==> cs[i] < |v.store.data| == |v'.store.data|)
    && Content(v'.store.data, cs, size) == Content(v.store.data, cs, size)
  }

  /** Every file of `v` but `k` is still there, with the same chain and the same bytes. */
  ghost predicate Kept(v: Vol, chains: map<nat, seq<nat>>, v': Vol, chains': map<nat, seq<nat>>, k: nat) {
    forall j :: j in Files(v.root) && j != k ==> KeptOne(v, chains, v', chains', j)
  }

  ghost predicate KeptOne(v: Vol, chains: map<nat, seq<nat>>, v': Vol, chains': map<nat, seq<nat>>, j: nat) {
    && j in Files(v.root) && j in chains && j in Files(v'.root) && j in chains'
    && Files(v'.root)[j] == Files(v.root)[j] && chains'[j] == chains[j]
    && SameContent(v, v', chains[j], Files(v.root)[j].size)
  }

  lemma FilesAt(root: seq<Slot>, k: nat)
    requires k < |root| && IsLive(root[k])
    ensures k in Files(root) && Files(root)[k] == FileOf(root[k])
  {
  }

  /** Equal blocks along a chain read equally. */
  lemma SameBlocks(v: Vol, v': Vol, cs: seq<nat>, size: nat)
    requires |v.store.data| == |v'.store.data|
    requires forall i :: 0 <= i < |cs| ==> cs[i] < |v.store.data| && v'.store.data[cs[i]] == v.store.data[cs[i]]
    ensures SameContent(v, v', cs, size)
  {
    GatherFrame(v.store.data, v'.store.data, cs);
  }

  lemma DisjointAt(a: seq<nat>, b: seq<nat>, c: nat)
    requires Disjoint(a, b) && c in a
    ensures c !in b
  {
  }

  lemma AddedKept(v: Vol, cb: nat, chains: map<nat, seq<nat>>, v': Vol, idx: nat, cs: seq<nat>, size: nat)
    requires Good(v, cb, chains) && Added(v, cb, v', idx, cs, size)
    ensures Kept(v, chains, v', chains[idx := cs], idx)
  {
    hide Files, Unique, ZeroSuffix, Grown, SameContent, Sound, IsChain, Disjoint;
    forall j | j in Files(v.root) && j != idx
      ensures KeptOne(v, chains, v', chains[idx := cs], j)
    {
      SoundChain(v.store.fat, Files(v.root), chains, j);
      ChainInside(v.store.fat, chains[j]);
      ChainMissesGrown(v.store.fat, v'.store.fat, chains[j], cs);
      forall i | 0 <= i < |chains[j]|
        ensures chains[j][i] < |v.store.data| && v'.store.data[chains[j][i]] == v.store.data[chains[j][i]]
      {
        assert chains[j][i] in chains[j];
        DisjointAt(chains[j], cs, chains[j][i]);
      }
      SameBlocks(v, v', chains[j], Files(v.root)[j].size);
    }
  }

  /** A successful overwrite: the invariant holds again, the file reads back as the bytes written,
      and every other file still reads as before. */
  lemma WriteItemMeans(v: Vol, cb: nat, chains: map<nat, seq<nat>>, item: Item, buf: seq<byte>)
    returns (cs: seq<nat>)
    requires Good(v, cb, chains) && ItemSound(v.root, item)
    ensures var r := WriteItem(v, cb, item, buf);
            r.Some? ==>
              && Good(r.value, cb, chains[item.idx := cs])
              && Files(r.value.root) == Files(v.root)[item.idx := File(Head(cs), |buf|)]
              && ReadsAs(r.value, cs, |buf|, buf)
              && Kept(v, chains, r.value, chains[item.idx := cs], item.idx)
              && Overwrite(v.store, cb, Le16(item.entry, 26), buf) == Filled(r.value.store, cs)
  {
    hide Overwrite, Sound, Files, Unique, ZeroSuffix, Items, ReadsAs, KeptOne;
    cs := [];
    var r := WriteItem(v, cb, item, buf);
    if r.Some? {
      FilesAt(v.root, item.idx);
      OverwriteSound(v.store, cb, Files(v.root), chains, item.idx, buf);
      cs := Overwrite(v.store, cb, Le16(item.entry, 26), buf).cs;
      var e := ShortEntry(item.entry[..11], ATTR_FILE, Head(cs), |buf|);
      assert e[0] == e[..11][0];
      EntryRewritten(v.root, item.idx, e);
      WriteItemReads(v, cb, chains, item, buf);
      WriteItemKeeps(v, cb, chains, item, buf);
    }
  }

  lemma WriteItemReads(v: Vol, cb: nat, chains: map<nat, seq<nat>>, item: Item, buf: seq<byte>)
    requires Good(v, cb, chains) && ItemSound(v.root, item) && WriteItem(v, cb, item, buf).Some?
    ensures ReadsAs(WriteItem(v, cb, item, buf).value, Overwrite(v.store, cb, Le16(item.entry, 26), buf).cs, |buf|, buf)
  {
    hide Overwrite, Unique, ZeroSuffix, Items, Content;
    FilesAt(v.root, item.idx);
    OverwriteReadsBack(v.store, cb, Files(v.root), chains, item.idx, buf);
  }

  lemma WriteItemKeeps(v: Vol, cb: nat, chains: map<nat, seq<nat>>, item: Item, buf: seq<byte>)
    requires Good(v, cb, chains) && ItemSound(v.root, item) && WriteItem(v, cb, item, buf).Some?
    ensures var cs := Overwrite(v.store, cb, Le16(item.entry, 26), buf).cs;
            Kept(v, chains, WriteItem(v, cb, item, buf).value, chains[item.idx := cs], item.idx)
  {
    hide Overwrite, Unique, ZeroSuffix, Items, Content, Files;
    FilesAt(v.root, item.idx);
    var v' := WriteItem(v, cb, item, buf).value;
    var cs := Overwrite(v.store, cb, Le16(item.entry, 26), buf).cs;
    var e := ShortEntry(item.entry[..11], ATTR_FILE, Head(cs), |buf|);
    assert e[0] == e[..11][0];
    EntryRewritten(v.root, item.idx, e);
    forall j | j in Files(v.root) && j != item.idx
      ensures KeptOne(v, chains, v', chains[item.idx := cs], j)
    {
      OverwriteIsolated(v.store, cb, Files(v.root), chains, item.idx, buf, j);
    }
  }

  /** The volume after the call, whether or not it succeeded: when space runs out the old chain is
      gone, what was taken is written and linked, and the entry stands as it was. */
  ghost function ItemAfter(v: Vol, cb: nat, item: Item, buf: seq<byte>): (r: Vol)
    requires cb > 0 && cb % 512 == 0 && WellFormed(v.store, cb) && ItemSound(v.root, item)
  {
    var first := Le16(item.entry, 26);
    if WriteItem(v, cb, item, buf).Some? then WriteItem(v, cb, item, buf).value
    else if IsDirEntry(item.entry) || !LinksInside(v.store.fat) || !StartsInside(v.store.fat, first) || |buf| >= TWO32
    then v
    else v.(store := Overwrite(v.store, cb, first, buf).v)
  }

  /** What the overwrite does, told from the store. */
  lemma ItemAfterIs(v: Vol, cb: nat, item: Item, buf: seq<byte>)
    requires cb > 0 && cb % 512 == 0 && WellFormed(v.store, cb) && ItemSound(v.root, item)
    requires !IsDirEntry(item.entry) && |buf| < TWO32
    requires LinksInside(v.store.fat) && StartsInside(v.store.fat, Le16(item.entry, 26))
    requires WellFormed(Released(v.store, Le16(item.entry, 26)), cb)
    ensures var r := Overwrite(v.store, cb, Le16(item.entry, 26), buf);
            && Head(r.cs) < EOC && (WriteItem(v, cb, item, buf).Some? <==> r.Filled?)
            && ItemAfter(v, cb, item, buf) ==
               Vol(r.v, if r.Full? then v.root
                        else v.root[item.idx := ShortEntry(item.entry[..11], ATTR_FILE, Head(r.cs), |buf|)])
  {
    hide Overwrite, Released, LinksInside, StartsInside, ShortEntry;
    OverwriteStarts(v.store, cb, Le16(item.entry, 26), buf);
  }

  lemma FailedItemIs(v: Vol, cb: nat, chains: map<nat, seq<nat>>, item: Item, buf: seq<byte>)
    requires Good(v, cb, chains) && ItemSound(v.root, item) && |buf| < TWO32 && !IsDirEntry(item.entry)
    requires WriteItem(v, cb, item, buf).None?
    ensures LinksInside(v.store.fat) && StartsInside(v.store.fat, Le16(item.entry, 26))
    ensures var r := Overwrite(v.store, cb, Le16(item.entry, 26), buf);
            r.Full? && ItemAfter(v, cb, item, buf) == v.(store := r.v)
  {
    hide Overwrite, Sound, Files, Unique, ZeroSuffix, LinksInside, StartsInside, Released, FreeSet, WriteItem,
         ItemAfter;
    FilesAt(v.root, item.idx);
    SoundLinks(v.store.fat, Files(v.root), chains);
    ReleaseSound(v.store, cb, Files(v.root), chains, item.idx);
    ItemAfterIs(v, cb, item, buf);
  }

  /** A write that runs out of space keeps the volume good and every other file as it was. No free
      cluster is left, and the file's entry heads clusters the write had taken. */
  lemma FailedItemMeans(v: Vol, cb: nat, chains: map<nat, seq<nat>>, item: Item, buf: seq<byte>)
    returns (cs: seq<nat>)
    requires Good(v, cb, chains) && ItemSound(v.root, item) && |buf| < TWO32 && !IsDirEntry(item.entry)
    requires WriteItem(v, cb, item, buf).None?
    ensures LinksInside(v.store.fat) && StartsInside(v.store.fat, Le16(item.entry, 26))
    ensures cs == LeftOver(Le16(item.entry, 26), Overwrite(v.store, cb, Le16(item.entry, 26), buf).cs)
    ensures var u := ItemAfter(v, cb, item, buf);
            && Good(u, cb, chains[item.idx := cs]) && u.root == v.root && FreeSet(u.store.fat) == {}
            && Kept(v, chains, u, chains[item.idx := cs], item.idx)
  {
    hide Overwrite, Sound, Files, Unique, ZeroSuffix, KeptOne, ItemAfter, LeftOver, LinksInside, StartsInside, FreeSet;
    FilesAt(v.root, item.idx);
    FailedItemIs(v, cb, chains, item, buf);
    FailedOverwriteSound(v.store, cb, Files(v.root), chains, item.idx, buf);
    cs := LeftOver(Le16(item.entry, 26), Overwrite(v.store, cb, Le16(item.entry, 26), buf).cs);
    forall j | j in Files(v.root) && j != item.idx
      ensures KeptOne(v, chains, ItemAfter(v, cb, item, buf), chains[item.idx := cs], j)
    {
      FailedItemKeeps(v, cb, chains, item, buf, cs, j);
    }
  }

  lemma FailedItemKeeps(v: Vol, cb: nat, chains: map<nat, seq<nat>>, item: Item, buf: seq<byte>, cs: seq<nat>, j: nat)
    requires Good(v, cb, chains) && ItemSound(v.root, item) && |buf| < TWO32 && !IsDirEntry(item.entry)
    requires WriteItem(v, cb, item, buf).None? && j in Files(v.root) && j != item.idx
    ensures KeptOne(v, chains, ItemAfter(v, cb, item, buf), chains[item.idx := cs], j)
  {
    hide Overwrite, Sound, Files, Unique, ZeroSuffix, ItemAfter, LinksInside, StartsInside, SameContent, IsChain;
    FilesAt(v.root, item.idx);
    FailedItemIs(v, cb, chains, item, buf);
    SoundChain(v.store.fat, Files(v.root), chains, j);
    ChainInside(v.store.fat, chains[j]);
    OverwriteIsolated(v.store, cb, Files(v.root), chains, item.idx, buf, j);
    SameContentAs(v, ItemAfter(v, cb, item, buf), chains[j], Files(v.root)[j].size);
  }

  lemma SameContentAs(v: Vol, u: Vol, cs: seq<nat>, size: nat)
    requires forall i :: 0 <= i < |cs| ==> cs[i] < |v.store.data| == |u.store.data|
    requires Content(u.store.data, cs, size) == Content(v.store.data, cs, size)
    ensures SameContent(v, u, cs, size)
  {
  }

  /** The first cluster taken is one of the table. */
  lemma OverwriteStarts(v: Store, cb: nat, first: nat, buf: seq<byte>)
    requires cb > 0 && cb % 512 == 0 && WellFormed(v, cb) && LinksInside(v.fat) && StartsInside(v.fat, first)
    requires WellFormed(Released(v, first), cb)
    ensures Head(Overwrite(v, cb, first, buf).cs) < EOC
  {
    hide Append, Visit;
    AppendGrows(Released(v, first), cb, buf, 0);
  }

  // ---------------------------------------------------------------- remove

  /** `fat16_rm` on the item found: its chain freed and zeroed, its slots marked deleted. */
  ghost function RemoveItem(v: Vol, item: Item): (r: Option<Vol>)
    requires ItemSound(v.root, item)
  {
    var first := Le16(item.entry, 26);
    if !LinksInside(v.store.fat) || !StartsInside(v.store.fat, first) then None
    else Some(Vol(Released(v.store, first), Without(v.root, item)))
  }

  /** A remove never fails on a good volume; it returns the whole chain to the free clusters and
      leaves every other file alone. */
  lemma RemoveItemMeans(v: Vol, cb: nat, chains: map<nat, seq<nat>>, item: Item)
    requires Good(v, cb, chains) && ItemSound(v.root, item)
    ensures var r := RemoveItem(v, item);
            && r.Some? && item.idx in chains
            && Good(r.value, cb, chains - {item.idx})
            && Files(r.value.root) == Files(v.root) - {item.idx}
            && Kept(v, chains, r.value, chains - {item.idx}, item.idx)
            && |FreeSet(r.value.store.fat)| == |FreeSet(v.store.fat)| + |chains[item.idx]|
  {
    hide Unique, ZeroSuffix, Without, Files, Content, FreeSet;
    FilesAt(v.root, item.idx);
    ReleaseSound(v.store, cb, Files(v.root), chains, item.idx);
    ReleaseCount(v.store.fat, chains[item.idx]);
    ItemRemoved(v.root, item);
    RemoveItemKeeps(v, cb, chains, item);
  }

  lemma RemoveItemKeeps(v: Vol, cb: nat, chains: map<nat, seq<nat>>, item: Item)
    requires Good(v, cb, chains) && ItemSound(v.root, item) && RemoveItem(v, item).Some?
    ensures Kept(v, chains, RemoveItem(v, item).value, chains - {item.idx}, item.idx)
  {
    hide Unique, ZeroSuffix, Without, Files, SameContent, Released, LinksInside, StartsInside, IsChain, WellFormed;
    FilesAt(v.root, item.idx);
    ReleaseSound(v.store, cb, Files(v.root), chains, item.idx);
    ItemRemoved(v.root, item);
    var v' := RemoveItem(v, item).value;
    forall j | j in Files(v.root) && j != item.idx
      ensures KeptOne(v, chains, v', chains - {item.idx}, j)
    {
      ZeroedElsewhere(v, cb, v', chains[item.idx], chains[j], Files(v.root)[j].size);
    }
  }

  lemma ZeroedElsewhere(v: Vol, cb: nat, v': Vol, gone: seq<nat>, cs: seq<nat>, size: nat)
    requires WellFormed(v.store, cb) && IsChain(v.store.fat, cs) && Disjoint(cs, gone)
    requires v'.store.data == ZeroData(v.store.data, gone)
    ensures SameContent(v, v', cs, size)
  {
    hide SameContent;
    forall i | 0 <= i < |cs|
      ensures cs[i] < |v.store.data| && v'.store.data[cs[i]] == v.store.data[cs[i]]
    {
      assert cs[i] in cs;
    }
    SameBlocks(v, v', cs, size);
  }

  // ---------------------------------------------------------------- by name

  ghost function FreeSlots(root: seq<Slot>): set<nat> { set i: nat | i < |root| && IsFree(root[i]) }

  lemma CreateShrinks(v: Vol, cb: nat, name: seq<byte>, size: nat, scratch: nat -> bool)
    requires cb > 0 && WellFormed(v.store, cb) && ZeroSuffix(v.root) && size < TWO32
    ensures var r := CreateFile(v, cb, name, size, scratch);
            r.Some? ==> WellFormed(r.value.store, cb) && |FreeSlots(r.value.root)| < |FreeSlots(v.root)|
  {
    hide FindSpot, AddAt, SpotOk, WellFormed, FreeSlots, ZeroSuffix, CreateCount, NeedsLong, Prepare, Items, Format83,
         FirstMatch, FragmentCount;
    SpotMeans(v.root, name);
    WellFormedSizes(v.store, cb);
    var r := CreateFile(v, cb, name, size, scratch);
    if r.Some? { AddAtShrinks(v, cb, FindSpot(v.root, name).value, ATTR_FILE, CreateCount(size, cb), size, scratch); }
  }

  lemma AddAtShrinks(v: Vol, cb: nat, s: Spot, attr: byte, n: nat, size: nat, scratch: nat -> bool)
    requires WellFormed(v.store, cb) && SpotOk(v.root, s) && size < TWO32 && attr != LFN_ATTR
    ensures var r := AddAt(v, cb, s, attr, n, size, scratch);
            r.Some? ==> WellFormed(r.value.store, cb) && |FreeSlots(r.value.root)| < |FreeSlots(v.root)|
  {
    hide Reserve, Place, Taken, NoZeroBefore, Grown, FreeSlots, FreeRun, ShortEntry;
    if AddAt(v, cb, s, attr, n, size, scratch).Some? {
      ReserveGrows(v.store, cb, n, 0, scratch);
      var e := ShortEntry(s.short, attr, Reserve(v.store, cb, n, 0, scratch).1[0], size);
      assert e[0] == e[..11][0];
      PlaceFillsSlot(v.root, s.at, s.long, s.count, e);
    }
  }

  lemma PlaceFillsSlot(root: seq<Slot>, a: nat, name: seq<byte>, count: nat, e: Slot)
    requires FreeRun(root, a, count + 1) && count <= MAX_ENTRIES && IsLive(e)
    ensures |FreeSlots(Place(root, a, name, count, e))| < |FreeSlots(root)|
  {
    hide Fragment, Checksum, Place;
    PlaceAt(root, a, name, count, e);
    var was, now := FreeSlots(root), FreeSlots(Place(root, a, name, count, e));
    assert now <= was - {a + count};
    assert a + count in was;
    SubsetSize(now, was - {a + count});
  }

  /** `fat16_write_file` in the root: create the file when the name is not found, then try again. */
  ghost function WriteFile(v: Vol, cb: nat, name: seq<byte>, buf: seq<byte>): (r: Option<Vol>)
    requires cb > 0 && cb % 512 == 0 && WellFormed(v.store, cb) && ZeroSuffix(v.root) && Unique(v.root)
    decreases |FreeSlots(v.root)|
  {
    LookupSound(v.root, name);
    match FirstMatch(Items(v.root), name)
    case Some(item) => WriteItem(v, cb, item, buf)
    case None =>
      match CreateFile(v, cb, name, 0, NoScratch)
      case None => None
      case Some(u) =>
        CreateShrinks(v, cb, name, 0, NoScratch);
        AddEntryMeans(v, cb, name, ATTR_FILE, 1, 0, NoScratch);
        WriteFile(u, cb, name, buf)
  }

  /** The volume after the call, whether or not it succeeded. */
  ghost function FileAfter(v: Vol, cb: nat, name: seq<byte>, buf: seq<byte>): (r: Vol)
    requires cb > 0 && cb % 512 == 0 && WellFormed(v.store, cb) && ZeroSuffix(v.root) && Unique(v.root)
    decreases |FreeSlots(v.root)|
  {
    LookupSound(v.root, name);
    match FirstMatch(Items(v.root), name)
    case Some(item) => ItemAfter(v, cb, item, buf)
    case None =>
      match CreateFile(v, cb, name, 0, NoScratch)
      case None => v
      case Some(u) =>
        CreateShrinks(v, cb, name, 0, NoScratch);
        AddEntryMeans(v, cb, name, ATTR_FILE, 1, 0, NoScratch);
        FileAfter(u, cb, name, buf)
  }

  lemma {:induction false} FileAfterWrite(v: Vol, cb: nat, name: seq<byte>, buf: seq<byte>)
    requires cb > 0 && cb % 512 == 0 && WellFormed(v.store, cb) && ZeroSuffix(v.root) && Unique(v.root)
    ensures WriteFile(v, cb, name, buf).Some? ==> FileAfter(v, cb, name, buf) == WriteFile(v, cb, name, buf).value
    decreases |FreeSlots(v.root)|
  {
    hide Unique, ZeroSuffix, Items, FreeSlots, CreateFile, WellFormed, WriteItem;
    LookupSound(v.root, name);
    if FirstMatch(Items(v.root), name).None? {
      var made := CreateFile(v, cb, name, 0, NoScratch);
      if made.Some? {
        WriteFileRetries(v, cb, name, buf, made.value);
        FileAfterWrite(made.value, cb, name, buf);
      }
    }
  }

  ghost function RemoveFile(v: Vol, name: seq<byte>): (r: Option<Vol>) {
    LookupSound(v.root, name);
    match FirstMatch(Items(v.root), name)
    case None => None
    case Some(item) => RemoveItem(v, item)
  }

  /** Creating a file keeps the volume good and every existing file as it was. */
  lemma AddEntryGood(v: Vol, cb: nat, chains: map<nat, seq<nat>>, name: seq<byte>, attr: byte, n: nat, size: nat,
                     scratch: nat -> bool) returns (k: nat, cs: seq<nat>)
    requires Good(v, cb, chains) && size < TWO32 && attr != LFN_ATTR
    ensures var r := AddEntry(v, cb, name, attr, n, size, scratch);
            r.Some? ==>
              && k !in Files(v.root) && cs == Reserve(v.store, cb, n, 0, scratch).1 && cs != []
              && Files(r.value.root) == Files(v.root)[k := File(cs[0], size)]
              && Good(r.value, cb, chains[k := cs])
              && Kept(v, chains, r.value, chains[k := cs], k)
  {
    hide FindSpot, Reserve, Sound, Files, Unique, ZeroSuffix, Kept;
    k, cs := 0, [];
    var r := AddEntry(v, cb, name, attr, n, size, scratch);
    if r.Some? {
      AddEntryMeans(v, cb, name, attr, n, size, scratch);
      var s := FindSpot(v.root, name).value;
      k, cs := s.at + s.count, Reserve(v.store, cb, n, 0, scratch).1;
      AddedGood(v, cb, chains, r.value, k, cs, size);
      AddedKept(v, cb, chains, r.value, k, cs, size);
    }
  }

  /** Making a directory: as a create, with the new cluster then filled in. */
  lemma MkdirGood(v: Vol, cb: nat, chains: map<nat, seq<nat>>, name: seq<byte>) returns (k: nat, cs: seq<nat>)
    requires Good(v, cb, chains)
    ensures var r := Mkdir(v, cb, name);
            r.Some? ==>
              && k !in Files(v.root) && cs == [NextFit(v.store.fat, v.store.hint)]
              && Good(r.value, cb, chains[k := cs])
              && Kept(v, chains, r.value, chains[k := cs], k)
  {
    hide Sound, Files, Unique, ZeroSuffix, Kept, NextFit, DirBlock, FindSpot;
    k, cs := AddEntryGood(v, cb, chains, name, ATTR_DIR, 1, 0, NoScratch);
    var r := Mkdir(v, cb, name);
    if r.Some? {
      var u := AddEntry(v, cb, name, ATTR_DIR, 1, 0, NoScratch).value;
      ReserveOne(v.store, cb, NoScratch);
      assert r.value.root == u.root && r.value.store.fat == u.store.fat;
      KeptData(v, cb, chains, u, r.value, k, cs);
    }
  }

  lemma ReserveOne(v: Store, cb: nat, scratch: nat -> bool)
    requires WellFormed(v, cb)
    ensures Reserve(v, cb, 1, 0, scratch).1 == if NextFit(v.fat, v.hint) == 0 then [] else [NextFit(v.fat, v.hint)]
  {
    hide NextFit;
    if NextFit(v.fat, v.hint) != 0 {
      NextFitExhaustive(v.fat, v.hint);
      var u := ReserveTurn(v, cb, 0, scratch);
      assert Reserve(u, cb, 0, NextFit(v.fat, v.hint), scratch).1 == [];
    }
  }

  /** Changing a block of the new chain afterwards changes no kept file. */
  lemma KeptData(v: Vol, cb: nat, chains: map<nat, seq<nat>>, u: Vol, w: Vol, k: nat, cs: seq<nat>)
    requires Good(u, cb, chains[k := cs]) && Kept(v, chains, u, chains[k := cs], k)
    requires k in Files(u.root) && k !in Files(v.root)
    requires w.root == u.root && w.store.fat == u.store.fat && WellFormed(w.store, cb)
    requires forall c :: 0 <= c < |u.store.data| && c !in cs ==> w.store.data[c] == u.store.data[c]
    ensures Kept(v, chains, w, chains[k := cs], k)
  {
    hide Files, Unique, ZeroSuffix, SameContent;
    forall j | j in Files(v.root) && j != k
      ensures KeptOne(v, chains, w, chains[k := cs], j)
    {
      assert KeptOne(v, chains, u, chains[k := cs], j);
      assert Disjoint(chains[k := cs][j], chains[k := cs][k]);
      SameTwice(v, u, w, chains[j], Files(v.root)[j].size, cs);
    }
  }

  lemma SameTwice(v: Vol, u: Vol, w: Vol, cs: seq<nat>, size: nat, gone: seq<nat>)
    requires SameContent(v, u, cs, size) && Disjoint(cs, gone) && |w.store.data| == |u.store.data|
    requires forall c :: 0 <= c < |u.store.data| && c !in gone ==> w.store.data[c] == u.store.data[c]
    ensures SameContent(v, w, cs, size)
  {
    hide Content;
    forall i | 0 <= i < |cs|
      ensures cs[i] < |u.store.data| && w.store.data[cs[i]] == u.store.data[cs[i]]
    {
      assert cs[i] in cs;
    }
    SameBlocks(u, w, cs, size);
  }

  /** A lookup of `name` returns the entry in slot `k`. */
  ghost predicate FoundAt(root: seq<Slot>, name: seq<byte>, k: nat) {
    FirstMatch(Items(root), name).Some? && FirstMatch(Items(root), name).value.idx == k
  }

  lemma WriteItemFinds(v: Vol, cb: nat, name: seq<byte>, item: Item, buf: seq<byte>)
    requires cb > 0 && cb % 512 == 0 && WellFormed(v.store, cb) && ItemSound(v.root, item)
    requires FirstMatch(Items(v.root), name) == Some(item)
    ensures var r := WriteItem(v, cb, item, buf); r.Some? ==> FoundAt(r.value.root, name, item.idx)
  {
    hide Overwrite, Scan, FirstMatch, LinksInside, StartsInside;
    var r := WriteItem(v, cb, item, buf);
    if r.Some? {
      var cs := Overwrite(v.store, cb, Le16(item.entry, 26), buf).cs;
      var e := ShortEntry(item.entry[..11], ATTR_FILE, Head(cs), |buf|);
      assert e[0] == e[..11][0];
      LookupRewritten(v.root, item.idx, e, 0, Idle, name);
    }
  }

  /** A successful write by name: looking the name up again finds a file that reads as exactly the
      bytes written; every other file that existed reads as before. */
  lemma {:induction false} WriteFileMeans(v: Vol, cb: nat, chains: map<nat, seq<nat>>, name: seq<byte>, buf: seq<byte>)
    returns (k: nat, chains': map<nat, seq<nat>>)
    requires Good(v, cb, chains)
    ensures var r := WriteFile(v, cb, name, buf);
            r.Some? ==>
              && Good(r.value, cb, chains')
              && k in Files(r.value.root) && k in chains'
              && Files(r.value.root)[k] == File(Head(chains'[k]), |buf|)
              && ReadsAs(r.value, chains'[k], |buf|, buf)
              && Kept(v, chains, r.value, chains', k)
              && FoundAt(r.value.root, name, k)
    decreases |FreeSlots(v.root)|
  {
    hide Sound, Files, Unique, ZeroSuffix, Items, FreeSlots, KeptOne, ReadsAs, CreateFile;
    LookupSound(v.root, name);
    var found := FirstMatch(Items(v.root), name);
    if found.Some? {
      var cs := WriteItemMeans(v, cb, chains, found.value, buf);
      WriteItemFinds(v, cb, name, found.value, buf);
      k, chains' := found.value.idx, chains[found.value.idx := cs];
    } else {
      var made := CreateFile(v, cb, name, 0, NoScratch);
      if made.Some? {
        k, chains' := WriteCreated(v, cb, chains, name, buf, made.value);
      } else {
        k, chains' := 0, chains;
      }
    }
  }

  lemma WriteFileRetries(v: Vol, cb: nat, name: seq<byte>, buf: seq<byte>, u: Vol)
    requires cb > 0 && cb % 512 == 0 && WellFormed(v.store, cb) && ZeroSuffix(v.root) && Unique(v.root)
    requires FirstMatch(Items(v.root), name).None? && CreateFile(v, cb, name, 0, NoScratch) == Some(u)
    ensures WellFormed(u.store, cb) && ZeroSuffix(u.root) && Unique(u.root)
    ensures |FreeSlots(u.root)| < |FreeSlots(v.root)|
    ensures WriteFile(v, cb, name, buf) == WriteFile(u, cb, name, buf)
    ensures FileAfter(v, cb, name, buf) == FileAfter(u, cb, name, buf)
  {
    hide AddEntry, Unique, ZeroSuffix, Items, FreeSlots, WellFormed, Added;
    CreateShrinks(v, cb, name, 0, NoScratch);
    CreateEmpty(cb);
    AddEntryMeans(v, cb, name, ATTR_FILE, 1, 0, NoScratch);
  }

  lemma {:induction false} WriteCreated(v: Vol, cb: nat, chains: map<nat, seq<nat>>, name: seq<byte>, buf: seq<byte>,
                                        u: Vol)
    returns (k: nat, chains': map<nat, seq<nat>>)
    requires Good(v, cb, chains) && CreateFile(v, cb, name, 0, NoScratch) == Some(u)
    requires FirstMatch(Items(v.root), name).None?
    ensures var r := WriteFile(v, cb, name, buf);
            r.Some? ==>
              && Good(r.value, cb, chains')
              && k in Files(r.value.root) && k in chains'
              && Files(r.value.root)[k] == File(Head(chains'[k]), |buf|)
              && ReadsAs(r.value, chains'[k], |buf|, buf)
              && Kept(v, chains, r.value, chains', k)
              && FoundAt(r.value.root, name, k)
    decreases |FreeSlots(v.root)|, 0
  {
    hide Sound, Files, Unique, ZeroSuffix, Items, FreeSlots, KeptOne, ReadsAs, AddEntry, WriteFile, Kept;
    WriteFileRetries(v, cb, name, buf, u);
    CreateEmpty(cb);
    var k1, cs := AddEntryGood(v, cb, chains, name, ATTR_FILE, 1, 0, NoScratch);
    k, chains' := WriteFileMeans(u, cb, chains[k1 := cs], name, buf);
    if WriteFile(u, cb, name, buf).Some? {
      KeptTwice(v, chains, u, chains[k1 := cs], WriteFile(u, cb, name, buf).value, chains', k1, k);
    }
  }

  /** Keeping composes: a file made in between is none of the old ones. */
  lemma KeptTwice(v: Vol, chains: map<nat, seq<nat>>, u: Vol, chainsU: map<nat, seq<nat>>, w: Vol,
                  chainsW: map<nat, seq<nat>>, k1: nat, k2: nat)
    requires k1 !in Files(v.root) && Kept(v, chains, u, chainsU, k1) && Kept(u, chainsU, w, chainsW, k2)
    ensures Kept(v, chains, w, chainsW, k2)
  {
    hide Files, SameContent;
    forall j | j in Files(v.root) && j != k2
      ensures KeptOne(v, chains, w, chainsW, j)
    {
      assert KeptOne(v, chains, u, chainsU, j);
      assert KeptOne(u, chainsU, w, chainsW, j);
      SameTrans(v, u, w, chains[j], Files(v.root)[j].size);
    }
  }

  lemma SameTrans(v: Vol, u: Vol, w: Vol, cs: seq<nat>, size: nat)
    requires SameContent(v, u, cs, size) && SameContent(u, w, cs, size)
    ensures SameContent(v, w, cs, size)
  {
  }

  lemma KeptSelf(v: Vol, cb: nat, chains: map<nat, seq<nat>>, k: nat)
    requires Good(v, cb, chains)
    ensures Kept(v, chains, v, chains, k)
  {
    hide Files, Unique, ZeroSuffix;
    forall j | j in Files(v.root)
      ensures KeptOne(v, chains, v, chains, j)
    {
      SoundChain(v.store.fat, Files(v.root), chains, j);
      ChainInside(v.store.fat, chains[j]);
    }
  }

  lemma ItemAfterMeans(v: Vol, cb: nat, chains: map<nat, seq<nat>>, item: Item, buf: seq<byte>)
    returns (chains': map<nat, seq<nat>>)
    requires Good(v, cb, chains) && ItemSound(v.root, item)
    ensures Good(ItemAfter(v, cb, item, buf), cb, chains')
    ensures Kept(v, chains, ItemAfter(v, cb, item, buf), chains', item.idx)
  {
    hide Overwrite, Sound, Unique, ZeroSuffix, Kept, Files, ReadsAs, LinksInside, StartsInside;
    if WriteItem(v, cb, item, buf).Some? {
      var cs := WriteItemMeans(v, cb, chains, item, buf);
      chains' := chains[item.idx := cs];
    } else if |buf| < TWO32 && !IsDirEntry(item.entry) {
      var cs := FailedItemMeans(v, cb, chains, item, buf);
      chains' := chains[item.idx := cs];
    } else {
      KeptSelf(v, cb, chains, item.idx);
      chains' := chains;
    }
  }

  /** A write by name, successful or not, keeps the volume good and every file but the one named as it
      was. */
  lemma {:induction false} FileAfterMeans(v: Vol, cb: nat, chains: map<nat, seq<nat>>, name: seq<byte>, buf: seq<byte>)
    returns (k: nat, chains': map<nat, seq<nat>>)
    requires Good(v, cb, chains)
    ensures Good(FileAfter(v, cb, name, buf), cb, chains')
    ensures Kept(v, chains, FileAfter(v, cb, name, buf), chains', k)
    decreases |FreeSlots(v.root)|
  {
    hide Sound, Files, Unique, ZeroSuffix, Items, FreeSlots, Kept, CreateFile, ItemAfter, WriteFile, AddEntry;
    LookupSound(v.root, name);
    var found := FirstMatch(Items(v.root), name);
    if found.Some? {
      k := found.value.idx;
      chains' := ItemAfterMeans(v, cb, chains, found.value, buf);
    } else {
      var made := CreateFile(v, cb, name, 0, NoScratch);
      if made.Some? {
        WriteFileRetries(v, cb, name, buf, made.value);
        var k1, chains1 := EmptyCreated(v, cb, chains, name);
        k, chains' := FileAfterMeans(made.value, cb, chains1, name, buf);
        KeptTwice(v, chains, made.value, chains1, FileAfter(made.value, cb, name, buf), chains', k1, k);
      } else {
        KeptSelf(v, cb, chains, 0);
        k, chains' := 0, chains;
      }
    }
  }

  lemma EmptyCreated(v: Vol, cb: nat, chains: map<nat, seq<nat>>, name: seq<byte>)
    returns (k: nat, chains': map<nat, seq<nat>>)
    requires Good(v, cb, chains) && CreateFile(v, cb, name, 0, NoScratch).Some?
    ensures var u := CreateFile(v, cb, name, 0, NoScratch).value;
            k !in Files(v.root) && Good(u, cb, chains') && Kept(v, chains, u, chains', k)
  {
    hide Sound, Files, Unique, ZeroSuffix, Kept, AddEntry;
    CreateEmpty(cb);
    var cs;
    k, cs := AddEntryGood(v, cb, chains, name, ATTR_FILE, 1, 0, NoScratch);
    chains' := chains[k := cs];
  }

  // ---------------------------------------------------------------- runs

  datatype Op =
    | Create(name: seq<byte>, size: nat, scratch: nat -> bool)
    | MakeDir(name: seq<byte>)
    | Write(name: seq<byte>, buf: seq<byte>)
    | Remove(name: seq<byte>)

  ghost predicate Runnable(v: Vol, cb: nat) {
    cb >= 512 && cb % 512 == 0 && WellFormed(v.store, cb) && ZeroSuffix(v.root) && Unique(v.root)
  }

  ghost function Apply(v: Vol, cb: nat, op: Op): (r: Option<Vol>)
    requires Runnable(v, cb)
  {
    match op
    case Create(name, size, scratch) => if size < TWO32 then CreateFile(v, cb, name, size, scratch) else None
    case MakeDir(name) => Mkdir(v, cb, name)
    case Write(name, buf) => WriteFile(v, cb, name, buf)
    case Remove(name) => RemoveFile(v, name)
  }

  lemma ApplyGood(v: Vol, cb: nat, chains: map<nat, seq<nat>>, op: Op) returns (chains': map<nat, seq<nat>>)
    requires cb >= 512 && Good(v, cb, chains)
    ensures Apply(v, cb, op).Some? ==> Good(Apply(v, cb, op).value, cb, chains')
  {
    hide Sound, Files, Unique, ZeroSuffix, Items, Kept, ReadsAs, Mkdir, WriteFile, AddEntry;
    match op {
      case Create(name, size, scratch) =>
        chains' := chains;
        if size < TWO32 {
          var k, cs := AddEntryGood(v, cb, chains, name, ATTR_FILE, CreateCount(size, cb), size, scratch);
          chains' := chains[k := cs];
        }
      case MakeDir(name) =>
        var k, cs := MkdirGood(v, cb, chains, name);
        chains' := chains[k := cs];
      case Write(name, buf) =>
        var k;
        k, chains' := WriteFileMeans(v, cb, chains, name, buf);
      case Remove(name) =>
        LookupSound(v.root, name);
        var found := FirstMatch(Items(v.root), name);
        if found.Some? {
          RemoveItemMeans(v, cb, chains, found.value);
          chains' := chains - {found.value.idx};
        } else {
          chains' := chains;
        }
    }
  }

  /** The volume after a call, whether or not it succeeded. Only a write can fail half way. */
  ghost function After(v: Vol, cb: nat, op: Op): (r: Vol)
    requires Runnable(v, cb)
  {
    if op.Write? then FileAfter(v, cb, op.name, op.buf)
    else if Apply(v, cb, op).Some? then Apply(v, cb, op).value
    else v
  }

  lemma AfterGood(v: Vol, cb: nat, chains: map<nat, seq<nat>>, op: Op) returns (chains': map<nat, seq<nat>>)
    requires cb >= 512 && Good(v, cb, chains)
    ensures Good(After(v, cb, op), cb, chains')
  {
    hide Sound, Files, Unique, ZeroSuffix, Kept, Apply, FileAfter;
    if op.Write? {
      var k;
      k, chains' := FileAfterMeans(v, cb, chains, op.name, op.buf);
    } else if Apply(v, cb, op).Some? {
      chains' := ApplyGood(v, cb, chains, op);
    } else {
      chains' := chains;
    }
  }

  /** `v'` is where the calls `ops` lead from `v`. */
  ghost predicate Reaches(v: Vol, cb: nat, ops: seq<Op>, v': Vol)
    decreases ops
  {
    if ops == [] then v' == v else Runnable(v, cb) && Reaches(After(v, cb, ops[0]), cb, ops[1..], v')
  }

  /** Every run of creates, mkdirs, writes and removes, failing ones included, keeps the volume good. */
  lemma {:induction false} RunsStayGood(v: Vol, cb: nat, chains: map<nat, seq<nat>>, ops: seq<Op>, v': Vol)
    requires cb >= 512 && Good(v, cb, chains) && Reaches(v, cb, ops, v')
    ensures exists chains' :: Good(v', cb, chains')
    decreases ops
  {
    if ops != [] {
      hide Good, After;
      var chains1 := AfterGood(v, cb, chains, ops[0]);
      RunsStayGood(After(v, cb, ops[0]), cb, chains1, ops[1..], v');
    }
  }

  /** A freshly formatted volume is good. */
  lemma FreshGood(v: Vol, cb: nat)
    requires cb >= 512 && cb % 512 == 0 && WellFormed(v.store, cb)
    requires forall i :: 0 <= i < |v.root| ==> v.root[i] == Fill(32, 0)
    requires forall c :: 2 <= c < |v.store.fat| ==> v.store.fat[c] == 0
    ensures Good(v, cb, map[])
  {
    forall i | 0 <= i < |v.root|
      ensures !IsLive(v.root[i])
    {
      assert v.root[i][0] == 0;
    }
  }
}
