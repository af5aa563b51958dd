/** Operations in the directories of a tree: each is the one on the fixed root, applied to the slots of
    a directory. What each keeps, and what every run of them keeps. */
module FatTreeRuns {
  import opened Bytes
  import opened Arith
  import opened FatChains
  import opened FatFiles
  import opened FatDisk
  import opened FatLfn
  import opened FatDir
  import opened FatNames
  import opened FatRoot
  import opened FatRuns
  import opened FatTree
  import opened FatGrowth

  // ---------------------------------------------------------------- overwriting a file of any directory

  lemma ItemKey(t: Tree, cb: nat, chains: map<Key, seq<nat>>, d: nat, item: Item)
    requires TreeGood(t, cb, chains) && IsDir(t, d) && ItemSound(Slots(t, d), item) && !IsDirEntry(item.entry)
    ensures (d == 0 || item.idx >= 2) && (d, item.idx) in TreeFiles(t) && !DirKey(t, (d, item.idx))
    ensures TreeFiles(t)[(d, item.idx)] == FileOf(item.entry)
  {
    hide TreeFiles, Slots, Shaped, Entries, Sound, FileOf;
    GoodDir(t, cb, chains, d);
    KeyOf(t, (d, item.idx));
    EntryOf(d, Slots(t, d), item.idx);
  }

  lemma OverwriteDirs(t: Tree, cb: nat, chains: map<Key, seq<nat>>, k: Key, buf: seq<byte>)
    requires TreeGood(t, cb, chains) && k in TreeFiles(t) && !DirKey(t, k)
    ensures LinksInside(t.store.fat) && StartsInside(t.store.fat, TreeFiles(t)[k].first)
    ensures DirsKept(t, Overwrite(t.store, cb, TreeFiles(t)[k].first, buf).v.data)
  {
    hide TreeFiles, Slots, DirOk, Sound, Overwrite, DirKey, LinksInside, StartsInside;
    SoundLinks(t.store.fat, TreeFiles(t), chains);
    OverwriteSound(t.store, cb, TreeFiles(t), chains, k, buf);
    var data := Overwrite(t.store, cb, TreeFiles(t)[k].first, buf).v.data;
    OverwriteSize(t.store, cb, TreeFiles(t), chains, k, buf);
    forall d, c | d in t.dirs && c in t.dirs[d] && c < |data|
      ensures data[c] == t.store.data[c]
    {
      var h: Key :| Home(t, chains, d, h);
      HomeKey(t, chains, d, h);
      OverwriteBlocks(t.store, cb, TreeFiles(t), chains, k, buf, h);
    }
  }

  lemma HomeKey(t: Tree, chains: map<Key, seq<nat>>, d: nat, h: Key)
    requires Home(t, chains, d, h)
    ensures h in TreeFiles(t) && DirKey(t, h)
  {
  }

  lemma OverwriteSize(v: Store, cb: nat, files: map<Key, File>, chains: map<Key, seq<nat>>, k: Key, buf: seq<byte>)
    requires cb > 0 && cb % 512 == 0 && WellFormed(v, cb) && Sound(v.fat, files, chains) && k in files
    ensures StartsInside(v.fat, files[k].first)
    ensures |Overwrite(v, cb, files[k].first, buf).v.data| == |v.data|
  {
    hide Append, Sound, Visit;
    SoundLinks(v.fat, files, chains);
    ReleaseSound(v, cb, files, chains, k);
    AppendFrame(Released(v, files[k].first), cb, buf, 0);
  }

  /** The chain the entry heads after the overwrite: the new one, or what running out of space left. */
  ghost function NewChain(first: nat, r: FillResult): seq<nat> { if r.Filled? then r.cs else LeftOver(first, r.cs) }

  /** The slots after the overwrite, and the files they hold. */
  lemma ItemSlots(d: nat, slots: seq<Slot>, item: Item, r: FillResult, n: nat)
    requires DirOk(d, slots) && ItemSound(slots, item) && !IsDirEntry(item.entry) && Head(r.cs) < EOC && n < TWO32
    ensures var slots' := if r.Full? then slots
                          else slots[item.idx := ShortEntry(item.entry[..11], ATTR_FILE, Head(r.cs), n)];
            && DirOk(d, slots') && DirEntriesStay(slots, slots')
            && Entries(d, slots') == if r.Full? then Entries(d, slots)
                                     else Entries(d, slots)[item.idx := File(Head(r.cs), n)]
  {
    hide Files, ZeroSuffix, Unique;
    if r.Filled? {
      var e := ShortEntry(item.entry[..11], ATTR_FILE, Head(r.cs), n);
      assert e[0] == e[..11][0];
      EntryRewritten(slots, item.idx, e);
    }
  }

  lemma ItemTreeGood(t: Tree, cb: nat, chains: map<Key, seq<nat>>, d: nat, item: Item, buf: seq<byte>)
    requires TreeGood(t, cb, chains) && IsDir(t, d) && ItemSound(Slots(t, d), item)
    requires !IsDirEntry(item.entry) && |buf| < TWO32
    ensures LinksInside(t.store.fat) && StartsInside(t.store.fat, Le16(item.entry, 26))
    ensures var r := Overwrite(t.store, cb, Le16(item.entry, 26), buf);
            var chains' := chains[(d, item.idx) := NewChain(Le16(item.entry, 26), r)];
            && TreeGood(Back(t, d, ItemAfter(In(t, d), cb, item, buf)), cb, chains')
            && DirsKept(t, r.v.data) && ItemAfter(In(t, d), cb, item, buf).store == r.v && WellFormed(r.v, cb)
            && |ItemAfter(In(t, d), cb, item, buf).root| == |Slots(t, d)|
            && Replaced(TreeFiles(t), d, Entries(d, ItemAfter(In(t, d), cb, item, buf).root)) ==
               (if r.Full? then TreeFiles(t) else TreeFiles(t)[(d, item.idx) := File(Head(r.cs), |buf|)])
            && (WriteItem(In(t, d), cb, item, buf).Some? <==> r.Filled?)
  {
    hide TreeFiles, Slots, Entries, Sound, Overwrite, DirKey, LinksInside, StartsInside, Back, Replaced, LeftOver,
         DirOk,
         DirsKept, ItemAfter, FreeSet, Released, DirEntriesStay, WriteItem;
    var k, first := (d, item.idx), Le16(item.entry, 26);
    ItemKey(t, cb, chains, d, item);
    GoodDir(t, cb, chains, d);
    OverwriteDirs(t, cb, chains, k, buf);
    OverwriteSound(t.store, cb, TreeFiles(t), chains, k, buf);
    FailedOverwriteSound(t.store, cb, TreeFiles(t), chains, k, buf);
    ReleaseSound(t.store, cb, TreeFiles(t), chains, k);
    ItemAfterIs(In(t, d), cb, item, buf);
    var r, u := Overwrite(t.store, cb, first, buf), ItemAfter(In(t, d), cb, item, buf);
    ItemSlots(d, Slots(t, d), item, r, |buf|);
    ReplacedOne(t, d, item.idx, File(Head(r.cs), |buf|));
    ReplacedNone(t, d);
    StaySize(Slots(t, d), u.root);
    DirChainsKept(t, cb, chains, k, NewChain(first, r));
    Settled(t, cb, chains, d, u, chains[k := NewChain(first, r)]);
  }

  lemma StaySize(slots: seq<Slot>, slots': seq<Slot>)
    requires DirEntriesStay(slots, slots')
    ensures |slots'| == |slots|
  {
  }

  lemma DirChainsKept(t: Tree, cb: nat, chains: map<Key, seq<nat>>, k: Key, cs: seq<nat>)
    requires TreeGood(t, cb, chains) && !DirKey(t, k)
    ensures forall h: Key :: DirKey(t, h) ==> h in chains[k := cs] && h in chains && chains[k := cs][h] == chains[h]
  {
    hide TreeFiles, Sound, Slots, DirSlot;
    SoundLinks(t.store.fat, TreeFiles(t), chains);
  }

  /** Overwriting a file of any directory, successfully or not, keeps the tree good and every other file
      of every directory as it was. */
  lemma ItemTreeKeeps(t: Tree, cb: nat, chains: map<Key, seq<nat>>, d: nat, item: Item, buf: seq<byte>)
    returns (chains': map<Key, seq<nat>>)
    requires TreeGood(t, cb, chains) && IsDir(t, d) && ItemSound(Slots(t, d), item)
    requires !IsDirEntry(item.entry) && |buf| < TWO32
    ensures var t' := Back(t, d, ItemAfter(In(t, d), cb, item, buf));
            TreeGood(t', cb, chains') && TreeKept(t, chains, t', chains', (d, item.idx))
    ensures LinksInside(t.store.fat) && StartsInside(t.store.fat, Le16(item.entry, 26))
    ensures chains' == chains[(d, item.idx) := NewChain(Le16(item.entry, 26),
                                                        Overwrite(t.store, cb, Le16(item.entry, 26), buf))]
  {
    hide TreeFiles, Slots, Entries, Sound, Overwrite, DirKey, LinksInside, StartsInside, Back, Replaced, LeftOver,
         DirOk,
         DirsKept, ItemAfter, KeptKey, WriteItem, NewChain;
    var k, first := (d, item.idx), Le16(item.entry, 26);
    ItemKey(t, cb, chains, d, item);
    GoodDir(t, cb, chains, d);
    ItemTreeGood(t, cb, chains, d, item, buf);
    var r, u := Overwrite(t.store, cb, first, buf), ItemAfter(In(t, d), cb, item, buf);
    chains' := chains[k := NewChain(first, r)];
    forall j: Key | j in TreeFiles(t) && j != k && !DirKey(t, j)
      ensures KeptKey(t, chains, Back(t, d, u), chains', j)
    {
      SoundChain(t.store.fat, TreeFiles(t), chains, j);
      OverwriteBlocks(t.store, cb, TreeFiles(t), chains, k, buf, j);
      SettledKeeps(t, cb, chains, d, u, chains', j);
    }
  }

  lemma WrittenNotDir(t: Tree, cb: nat, chains: map<Key, seq<nat>>, d: nat, item: Item, buf: seq<byte>)
    requires TreeGood(t, cb, chains) && IsDir(t, d) && ItemSound(Slots(t, d), item)
    requires !IsDirEntry(item.entry) && |buf| < TWO32 && WriteItem(In(t, d), cb, item, buf).Some?
    ensures !DirKey(Back(t, d, ItemAfter(In(t, d), cb, item, buf)), (d, item.idx))
  {
    hide TreeFiles, Slots, Entries, Sound, Overwrite, LinksInside, StartsInside, Back, Replaced, LeftOver, DirOk,
         DirsKept, ItemAfter, WriteItem, NewChain, TreeGood, ItemSound, Shaped;
    GoodDir(t, cb, chains, d);
    ItemTreeGood(t, cb, chains, d, item, buf);
    ShapedStore(t, cb);
    WrittenEntry(In(t, d), cb, item, buf);
    BackSlots(t, cb, d, ItemAfter(In(t, d), cb, item, buf));
  }

  lemma WrittenEntry(v: Vol, cb: nat, item: Item, buf: seq<byte>)
    requires cb > 0 && cb % 512 == 0 && WellFormed(v.store, cb) && ItemSound(v.root, item)
    requires WriteItem(v, cb, item, buf).Some?
    ensures var slots := ItemAfter(v, cb, item, buf).root; item.idx < |slots| && !IsDirEntry(slots[item.idx])
  {
    hide Overwrite, LinksInside, StartsInside;
  }

  /** A successful overwrite reads back. */
  lemma ItemTreeReads(t: Tree, cb: nat, chains: map<Key, seq<nat>>, d: nat, item: Item, buf: seq<byte>)
    requires TreeGood(t, cb, chains) && IsDir(t, d) && ItemSound(Slots(t, d), item)
    requires !IsDirEntry(item.entry) && |buf| < TWO32 && WriteItem(In(t, d), cb, item, buf).Some?
    ensures LinksInside(t.store.fat) && StartsInside(t.store.fat, Le16(item.entry, 26))
    ensures var r, k := Overwrite(t.store, cb, Le16(item.entry, 26), buf), (d, item.idx);
            var t' := Back(t, d, ItemAfter(In(t, d), cb, item, buf));
            && k in TreeFiles(t') && TreeFiles(t')[k] == File(Head(r.cs), |buf|)
            && (forall i :: 0 <= i < |r.cs| ==> r.cs[i] < |t'.store.data|)
            && Content(t'.store.data, r.cs, |buf|) == buf
  {
    hide TreeFiles, Slots, Entries, Sound, Overwrite, LinksInside, StartsInside, Back, Replaced, LeftOver, DirOk,
         DirsKept, ItemAfter, WriteItem, NewChain, Gather;
    var k, first := (d, item.idx), Le16(item.entry, 26);
    ItemKey(t, cb, chains, d, item);
    GoodDir(t, cb, chains, d);
    ItemTreeGood(t, cb, chains, d, item, buf);
    var r, u := Overwrite(t.store, cb, first, buf), ItemAfter(In(t, d), cb, item, buf);
    var t' := Back(t, d, u);
    NewChainIs(first, r);
    OverwriteReadsBack(t.store, cb, TreeFiles(t), chains, k, buf);
    BackFiles(t, cb, d, u);
    BackSlots(t, cb, d, u);
    WrittenNotDir(t, cb, chains, d, item, buf);
    var chains' := chains[k := r.cs];
    if d != 0 { DirApart(t', cb, chains', d, k); }
    forall i | 0 <= i < |r.cs|
      ensures r.cs[i] < |r.v.data| && t'.store.data[r.cs[i]] == r.v.data[r.cs[i]]
    {
      assert r.cs[i] in r.cs;
    }
    GatherFrame(r.v.data, t'.store.data, r.cs);
  }

  lemma NewChainIs(first: nat, r: FillResult)
    requires r.Filled?
    ensures NewChain(first, r) == r.cs
  {
  }

  // ---------------------------------------------------------------- creating a file in any directory

  lemma PlaceStays(slots: seq<Slot>, a: nat, name: seq<byte>, count: nat, e: Slot)
    requires FreeRun(slots, a, count + 1) && count <= MAX_ENTRIES
    ensures DirEntriesStay(slots, Place(slots, a, name, count, e))
  {
    hide Fragment, Checksum, Place;
    PlaceAt(slots, a, name, count, e);
  }

  /** The slots after a create, and the files they hold. */
  lemma AddSlots(d: nat, v: Vol, cb: nat, s: Spot, attr: byte, n: nat, size: nat, scratch: nat -> bool)
    requires WellFormed(v.store, cb) && DirOk(d, v.root) && SpotOk(v.root, s) && size < TWO32 && attr != LFN_ATTR
    requires AddAt(v, cb, s, attr, n, size, scratch).Some?
    ensures var u := AddAt(v, cb, s, attr, n, size, scratch).value;
            var cs, i := Reserve(v.store, cb, n, 0, scratch).1, s.at + s.count;
            && cs != [] && DirEntriesStay(v.root, u.root) && DirOk(d, u.root)
            && i !in Entries(d, v.root) && Entries(d, u.root) == Entries(d, v.root)[i := File(cs[0], size)]
  {
    hide Reserve, Place, Files, ZeroSuffix, Unique, Taken, NoZeroBefore, FreeRun, Grown, ShortEntry, WellFormed;
    FormedSizes(v.store, cb);
    AddAtMeans(v, cb, s, attr, n, size, scratch);
    var cs := Reserve(v.store, cb, n, 0, scratch).1;
    PlaceStays(v.root, s.at, s.long, s.count, ShortEntry(s.short, attr, cs[0], size));
    if d != 0 {
      FilesAt(v.root, 0);
      FilesAt(v.root, 1);
    }
  }

  lemma FormedSizes(v: Store, cb: nat)
    requires WellFormed(v, cb)
    ensures 2 <= |v.fat| == |v.data| && |v.fat| <= EOC
  {
  }

  /** Clusters taken from free ones are no directory's. */
  lemma GrownDirs(t: Tree, cb: nat, chains: map<Key, seq<nat>>, fat': seq<nat>, cs: seq<nat>, data: seq<seq<byte>>)
    requires TreeGood(t, cb, chains) && Grown(t.store.fat, fat', 0, cs) && |data| == |t.store.data|
    requires forall c :: 0 <= c < |data| && c !in cs ==> data[c] == t.store.data[c]
    ensures DirsKept(t, data)
  {
    hide TreeFiles, Slots, DirOk, Sound, DirKey, Grown, IsChain;
    forall d, c | d in t.dirs && c in t.dirs[d] && c < |data|
      ensures data[c] == t.store.data[c]
    {
      var h: Key :| Home(t, chains, d, h);
      HomeKey(t, chains, d, h);
      SoundChain(t.store.fat, TreeFiles(t), chains, h);
      ChainMissesGrown(t.store.fat, fat', chains[h], cs);
    }
  }

  /** Writing a new entry into any directory keeps the tree good, adds one whole disjoint chain, and keeps
      every file of every directory as it was. */
  lemma AddTreeKeeps(t: Tree, cb: nat, chains: map<Key, seq<nat>>, d: nat, s: Spot, attr: byte, n: nat,
                     size: nat, scratch: nat -> bool)
    returns (k: Key, cs: seq<nat>)
    requires TreeGood(t, cb, chains) && IsDir(t, d) && SpotOk(Slots(t, d), s) && size < TWO32 && attr != LFN_ATTR
    requires AddAt(In(t, d), cb, s, attr, n, size, scratch).Some?
    ensures var u := AddAt(In(t, d), cb, s, attr, n, size, scratch).value;
            var t' := Back(t, d, u);
            && k == (d, s.at + s.count) && k !in TreeFiles(t)
            && cs == Reserve(t.store, cb, n, 0, scratch).1 && cs != [] && Grown(t.store.fat, t'.store.fat, 0, cs)
            && TreeGood(t', cb, chains[k := cs]) && TreeFiles(t') == TreeFiles(t)[k := File(cs[0], size)]
            && TreeKept(t, chains, t', chains[k := cs], k) && Slots(t', d) == u.root && t'.dirs == t.dirs
            && (forall e :: IsDir(t, e) && e != d ==> Slots(t', e) == Slots(t, e))
  {
    hide TreeFiles, Slots, Entries, Sound, DirKey, Back, Replaced, DirOk, DirsKept, KeptKey, AddAt, SpotOk, Reserve,
         Grown, Files, DirEntriesStay, ZeroSuffix, Unique;
    GoodDir(t, cb, chains, d);
    var v := In(t, d);
    var u := AddAt(v, cb, s, attr, n, size, scratch).value;
    AddSlots(d, v, cb, s, attr, n, size, scratch);
    AddAtMeans(v, cb, s, attr, n, size, scratch);
    cs := Reserve(t.store, cb, n, 0, scratch).1;
    k := (d, s.at + s.count);
    KeyOf(t, k);
    GrownDirs(t, cb, chains, u.store.fat, cs, u.store.data);
    StaySize(v.root, u.root);
    ReplacedOne(t, d, k.1, File(cs[0], size));
    BackSlots(t, cb, d, u);
    BackFiles(t, cb, d, u);
    AddedSound(t, cb, chains, k, u.store.fat, cs, size);
    NotDirKey(t, k);
    DirChainsKept(t, cb, chains, k, cs);
    Settled(t, cb, chains, d, u, chains[k := cs]);
    forall j: Key | j in TreeFiles(t) && j != k && !DirKey(t, j)
      ensures KeptKey(t, chains, Back(t, d, u), chains[k := cs], j)
    {
      SoundChain(t.store.fat, TreeFiles(t), chains, j);
      AddedBlocks(t.store.fat, u.store.fat, chains[j], cs, t.store.data, u.store.data);
      SettledKeeps(t, cb, chains, d, u, chains[k := cs], j);
    }
  }

  lemma NotDirKey(t: Tree, k: Key)
    requires k !in TreeFiles(t)
    ensures !DirKey(t, k)
  {
  }

  lemma AddedSound(t: Tree, cb: nat, chains: map<Key, seq<nat>>, k: Key, fat': seq<nat>, cs: seq<nat>, size: nat)
    requires TreeGood(t, cb, chains) && k !in TreeFiles(t) && Grown(t.store.fat, fat', 0, cs) && cs != []
    ensures Sound(fat', TreeFiles(t)[k := File(cs[0], size)], chains[k := cs])
  {
    hide TreeFiles, Sound, Slots, DirOk, Grown, Home;
    var files := TreeFiles(t);
    SoundLinks(t.store.fat, files, chains);
    assert files - {k} == files && chains - {k} == chains;
    FormedSizes(t.store, cb);
    GrownSound(t.store.fat, fat', files, chains, k, cs, size);
  }

  lemma AddedBlocks(fat: seq<nat>, fat': seq<nat>, old_: seq<nat>, cs: seq<nat>, data: seq<seq<byte>>,
                    data': seq<seq<byte>>)
    requires IsChain(fat, old_) && Grown(fat, fat', 0, cs) && |fat| == |data| == |data'|
    requires forall c :: 0 <= c < |data| && c !in cs ==> data'[c] == data[c]
    ensures BlocksSame(data, data', old_)
  {
    hide Grown;
    ChainMissesGrown(fat, fat', old_, cs);
    forall i | 0 <= i < |old_|
      ensures old_[i] < |data| && data'[old_[i]] == data[old_[i]]
    {
      assert old_[i] in old_;
    }
  }

  // ---------------------------------------------------------------- creating by name

  ghost predicate Usable(t: Tree, cb: nat, d: nat) {
    && Shaped(t, cb) && IsDir(t, d) && ZeroSuffix(Slots(t, d)) && Unique(Slots(t, d))
    && (d != 0 ==> t.dirs[d] != [])
  }

  /** What create and mkdir settle before they write an entry, and the tree when it is settled. */
  datatype Room = Room(spot: Option<Spot>, t: Tree)

  /** The whole clusters that hold `n` slots. */
  function GrowCount(n: nat, cb: nat): (m: nat)
    requires cb >= 32
  {
    (n + cb / 32 - 1) / (cb / 32)
  }

  lemma GrowCountHolds(n: nat, cb: nat)
    requires cb >= 32
    ensures n <= SlotsIn(GrowCount(n, cb), cb)
    ensures n > 0 ==> GrowCount(n, cb) > 0 && SlotsIn(GrowCount(n, cb) - 1, cb) < n
  {
    var per := cb / 32;
    var m := GrowCount(n, cb);
    QuotRem(n + per - 1, per);
    MulStep(m - 1, per);
    if n > 0 && m == 0 { assert m * per == 0; }
  }

  /** The names are settled, then `fat16_find_free_slots` finds the first run of free slots; without one a
      directory other than the root grows, and the entry is to go to the first new slot. */
  ghost function RoomFor(t: Tree, cb: nat, d: nat, name: seq<byte>): (r: Room)
    requires Usable(t, cb, d)
    ensures |r.t.store.fat| == |r.t.store.data| == |t.store.fat|
  {
    match Settle(Slots(t, d), name)
    case None => Room(None, t)
    case Some(s) =>
      match FindRun(Slots(t, d), 0, s.count + 1)
      case Some(a) => Room(Some(s.(at := a)), t)
      case None =>
        if d == 0 then Room(None, t)
        else
          var m := GrowCount(s.count + 1, cb);
          Room(if |NewClusters(t, cb, d, m).1| == m then Some(s.(at := |Slots(t, d)|)) else None, Grow(t, cb, d, m))
  }

  /** The directory grows for the name only when it has no slot left that was never used. */
  ghost predicate Tidy(t: Tree, d: nat, name: seq<byte>) {
    var s := Settle(Slots(t, d), name);
    d != 0 && s.Some? && FindRun(Slots(t, d), 0, s.value.count + 1).None? ==> Crammed(Slots(t, d))
  }

  lemma GoodUsable(t: Tree, cb: nat, chains: map<Key, seq<nat>>, d: nat)
    requires TreeGood(t, cb, chains) && IsDir(t, d)
    ensures Usable(t, cb, d)
  {
    hide Shaped, Slots, Sound, ZeroSuffix, Unique;
  }

  /** Finding room keeps the tree good and every file, found or not; the room found is one for the entry
      when the directory is tidy. */
  lemma RoomKeeps(t: Tree, cb: nat, chains: map<Key, seq<nat>>, d: nat, name: seq<byte>)
    returns (k: Key, chains': map<Key, seq<nat>>)
    requires TreeGood(t, cb, chains) && IsDir(t, d)
    ensures Usable(t, cb, d)
    ensures var w := RoomFor(t, cb, d, name);
            && TreeGood(w.t, cb, chains') && w.t.dirs.Keys == t.dirs.Keys && TreeFiles(w.t) == TreeFiles(t)
            && k !in TreeFiles(t) && TreeKept(t, chains, w.t, chains', k)
            && FreeSet(w.t.store.fat) <= FreeSet(t.store.fat)
            && (forall j: Key :: j in TreeFiles(t) ==> (DirKey(w.t, j) <==> DirKey(t, j)))
            && (w.spot.Some? && Tidy(t, d, name) ==> SpotOk(Slots(w.t, d), w.spot.value))
  {
    hide TreeFiles, Slots, DirKey, TreeGood, Shaped, FindRun, Settle, Grow, NewClusters, GrowCount, SlotsIn, FreeSet,
         SpotOk, Crammed, KeptKey, ZeroSuffix, Unique, FindSpot;
    GoodUsable(t, cb, chains, d);
    ShapedStore(t, cb);
    k := (d, |Slots(t, d)|);
    NoKeyThere(t, d);
    var w := RoomFor(t, cb, d, name);
    var slots := Slots(t, d);
    var s := Settle(slots, name);
    if s.Some? && FindRun(slots, 0, s.value.count + 1).None? && d != 0 {
      var m := GrowCount(s.value.count + 1, cb);
      chains' := GrowKeeps(t, cb, chains, d, m);
      WiderAt(t, w.t, d, SlotsIn(|NewClusters(t, cb, d, m).1|, cb));
      if w.spot.Some? && Tidy(t, d, name) {
        GrowCountHolds(s.value.count + 1, cb);
        GrownSpot(slots, SlotsIn(m, cb), name);
      }
    } else {
      chains' := chains;
      KeptAll(t, cb, chains, k);
      if w.spot.Some? { RunSpot(slots, name, s.value, w.spot.value.at); }
    }
  }

  lemma NoKeyThere(t: Tree, d: nat)
    ensures (d, |Slots(t, d)|) !in TreeFiles(t)
  {
    hide TreeFiles, Slots, Entries;
    KeyOf(t, (d, |Slots(t, d)|));
    EntryOf(d, Slots(t, d), |Slots(t, d)|);
  }

  lemma WiderAt(t: Tree, g: Tree, d: nat, room: nat)
    requires Wider(t, g, d, room)
    ensures g.dirs.Keys == t.dirs.Keys && Slots(g, d) == Followed(Slots(t, d), room)
  {
  }

  lemma RunSpot(slots: seq<Slot>, name: seq<byte>, s: Spot, a: nat)
    requires ZeroSuffix(slots) && Settle(slots, name) == Some(s) && FindRun(slots, 0, s.count + 1) == Some(a)
    ensures SpotOk(slots, s.(at := a))
  {
    hide Settle, FindRun, SpotOk, NeedsLong, Prepare, FirstMatch, FragmentCount;
    SpotMeans(slots, name);
  }

  /** The first new slot of a directory that had none left. */
  lemma GrownSpot(slots: seq<Slot>, room: nat, name: seq<byte>)
    requires ZeroSuffix(slots) && Crammed(slots) && Settle(slots, name).Some?
    requires Settle(slots, name).value.count < room
    ensures SpotOk(Followed(slots, room), Settle(slots, name).value.(at := |slots|))
  {
    hide Settle, NeedsLong, Prepare, FirstMatch, FragmentCount, TakenFrom, Followed;
    SettleMeans(slots, name);
    var s, wide := Settle(slots, name).value, Followed(slots, room);
    TakenFromExact(slots, s.short, 0);
    TakenFromExact(wide, s.short, 0);
  }

  datatype Done = Done(ok: bool, t: Tree)

  /** `fat16_create_file` in directory `d`. */
  ghost function CreateIn(t: Tree, cb: nat, d: nat, name: seq<byte>, size: nat, scratch: nat -> bool): (r: Done)
    requires Usable(t, cb, d) && size < TWO32
  {
    var w := RoomFor(t, cb, d, name);
    if w.spot.None? then Done(false, w.t)
    else
      match AddAt(In(w.t, d), cb, w.spot.value, ATTR_FILE, CreateCount(size, cb), size, scratch)
      case None => Done(false, w.t)
      case Some(u) => Done(true, Back(w.t, d, u))
  }

  /** In the root it is the create of a fixed root directory. */
  lemma CreateInRoot(t: Tree, cb: nat, name: seq<byte>, size: nat, scratch: nat -> bool)
    requires Usable(t, cb, 0) && size < TWO32
    ensures var r := CreateIn(t, cb, 0, name, size, scratch);
            var v := CreateFile(Vol(t.store, t.root), cb, name, size, scratch);
            && (r.ok <==> v.Some?)
            && r.t == if v.Some? then t.(store := v.value.store, root := v.value.root) else t
  {
    hide AddAt, Settle, FindRun;
  }

  lemma RoomStore(t: Tree, cb: nat, chains: map<Key, seq<nat>>, d: nat)
    requires TreeGood(t, cb, chains)
    ensures cb >= 512 && 2 <= |t.store.fat| == |t.store.data| && |t.store.fat| <= EOC
  {
    hide Slots, DirOk, Sound, Home;
  }

  lemma KeptAfterRoom(t: Tree, chains: map<Key, seq<nat>>, g: Tree, chains1: map<Key, seq<nat>>, t2: Tree,
                      chains2: map<Key, seq<nat>>, k: Key)
    requires k !in TreeFiles(t) && TreeFiles(g) == TreeFiles(t)
    requires forall j: Key :: j in TreeFiles(t) ==> (DirKey(g, j) <==> DirKey(t, j))
    requires exists k1: Key :: k1 !in TreeFiles(t) && TreeKept(t, chains, g, chains1, k1)
    requires TreeKept(g, chains1, t2, chains2, k)
    ensures TreeKept(t, chains, t2, chains2, k)
  {
    hide TreeFiles, DirKey, TreeKept;
    var k1: Key :| k1 !in TreeFiles(t) && TreeKept(t, chains, g, chains1, k1);
    KeptThrough(t, chains, g, chains1, t2, chains2, k1, k);
  }

  /** Creating by name in any directory, successfully or not: the tree stays good and every file of every
      directory is kept; a successful create adds one file and takes a cluster. */
  lemma CreateInKeeps(t: Tree, cb: nat, chains: map<Key, seq<nat>>, d: nat, name: seq<byte>, size: nat,
                      scratch: nat -> bool)
    returns (k: Key, chains': map<Key, seq<nat>>)
    requires TreeGood(t, cb, chains) && IsDir(t, d) && size < TWO32 && Tidy(t, d, name)
    ensures Usable(t, cb, d)
    ensures var r := CreateIn(t, cb, d, name, size, scratch);
            && TreeGood(r.t, cb, chains') && r.t.dirs.Keys == t.dirs.Keys
            && k !in TreeFiles(t) && TreeKept(t, chains, r.t, chains', k)
            && (forall j: Key :: j in TreeFiles(t) ==> (DirKey(r.t, j) <==> DirKey(t, j)))
            && (!r.ok ==> TreeFiles(r.t) == TreeFiles(t))
            && (r.ok ==>
                  && k.0 == d && k in chains' && chains'[k] != []
                  && TreeFiles(r.t) == TreeFiles(t)[k := File(chains'[k][0], size)]
                  && FreeSet(r.t.store.fat) < FreeSet(t.store.fat))
  {
    hide TreeFiles, Slots, DirKey, Back, TreeKept, AddAt, Reserve, RoomFor, Shaped, TreeGood, FreeSet, SpotOk, Grown,
         Usable, Tidy, CreateCount;
    GoodUsable(t, cb, chains, d);
    k, chains' := RoomKeeps(t, cb, chains, d, name);
    var w := RoomFor(t, cb, d, name);
    RoomStore(w.t, cb, chains', d);
    var n := CreateCount(size, cb);
    if w.spot.Some? && AddAt(In(w.t, d), cb, w.spot.value, ATTR_FILE, n, size, scratch).Some? {
      var g, chains1, s := w.t, chains', w.spot.value;
      var cs;
      k, cs := AddTreeKeeps(g, cb, chains1, d, s, ATTR_FILE, n, size, scratch);
      chains' := chains1[k := cs];
      var u := AddAt(In(g, d), cb, s, ATTR_FILE, n, size, scratch).value;
      GrownTakes(g.store.fat, Back(g, d, u).store.fat, cs);
      KeptAfterRoom(t, chains, g, chains1, Back(g, d, u), chains', k);
      forall j: Key | j in TreeFiles(t)
        ensures DirKey(Back(g, d, u), j) <==> DirKey(t, j)
      {
        AddedSameDirs(g, cb, chains1, d, s, ATTR_FILE, n, size, scratch, j);
      }
    }
  }

  lemma GrownTakes(fat: seq<nat>, fat': seq<nat>, cs: seq<nat>)
    requires Grown(fat, fat', 0, cs) && cs != []
    ensures FreeSet(fat') < FreeSet(fat)
  {
    assert cs[0] in cs && cs[0] in FreeSet(fat);
    forall c | c in cs
      ensures fat'[c] != 0
    {
      var i :| 0 <= i < |cs| && cs[i] == c;
      if i < |cs| - 1 { assert Linked(fat', cs, i); }
    }
    assert cs[0] !in FreeSet(fat');
  }

  lemma AddedSameDirs(t: Tree, cb: nat, chains: map<Key, seq<nat>>, d: nat, s: Spot, attr: byte, n: nat,
                      size: nat, scratch: nat -> bool, j: Key)
    requires TreeGood(t, cb, chains) && IsDir(t, d) && SpotOk(Slots(t, d), s) && size < TWO32 && attr != LFN_ATTR
    requires AddAt(In(t, d), cb, s, attr, n, size, scratch).Some? && j in TreeFiles(t)
    ensures DirKey(Back(t, d, AddAt(In(t, d), cb, s, attr, n, size, scratch).value), j) <==> DirKey(t, j)
  {
    hide TreeFiles, Slots, Sound, Back, DirOk, AddAt, SpotOk, Reserve, Home, Entries, Grown, TreeKept, TreeGood;
    var k, cs := AddTreeKeeps(t, cb, chains, d, s, attr, n, size, scratch);
    RoomStore(t, cb, chains, d);
    AddedLive(In(t, d), cb, s, attr, n, size, scratch);
    KeyOf(t, j);
    EntryOf(j.0, Slots(t, j.0), j.1);
  }

  /** Live slots stay as they are in a create. */
  lemma AddedLive(v: Vol, cb: nat, s: Spot, attr: byte, n: nat, size: nat, scratch: nat -> bool)
    requires SpotOk(v.root, s) && size < TWO32 && 2 <= |v.store.fat| == |v.store.data| && |v.store.fat| <= EOC
    requires AddAt(v, cb, s, attr, n, size, scratch).Some?
    ensures var slots := AddAt(v, cb, s, attr, n, size, scratch).value.root;
            |slots| == |v.root| && forall i :: 0 <= i < |slots| && IsLive(v.root[i]) ==> slots[i] == v.root[i]
  {
    hide Reserve, Place, ShortEntry;
    var cs := Reserve(v.store, cb, n, 0, scratch).1;
    PlaceAt(v.root, s.at, s.long, s.count, ShortEntry(s.short, attr, cs[0], size));
  }

  /** A create by name that succeeds leaves a good tree exactly when the directory was tidy; otherwise the
      name just created is not found. */
  lemma CreateExact(t: Tree, cb: nat, chains: map<Key, seq<nat>>, d: nat, name: seq<byte>, size: nat,
                    scratch: nat -> bool)
    requires TreeGood(t, cb, chains) && IsDir(t, d) && size < TWO32 && Usable(t, cb, d)
    requires CreateIn(t, cb, d, name, size, scratch).ok
    ensures var t' := CreateIn(t, cb, d, name, size, scratch).t;
            && ((exists chains' :: TreeGood(t', cb, chains')) <==> Tidy(t, d, name))
            && (!Tidy(t, d, name) ==> FirstMatch(Items(Slots(t', d)), name).None?)
  {
    hide TreeFiles, Slots, DirKey, Shaped, TreeGood, Usable, CreateIn, Items, FirstMatch, TreeKept, FreeSet, ZeroSuffix;
    var t' := CreateIn(t, cb, d, name, size, scratch).t;
    if Tidy(t, d, name) {
      var k, chains' := CreateInKeeps(t, cb, chains, d, name, size, scratch);
      assert TreeGood(t', cb, chains');
    } else {
      UntidyCreate(t, cb, chains, d, name, size, scratch);
      forall chains'
        ensures !TreeGood(t', cb, chains')
      {
        if TreeGood(t', cb, chains') { GoodDir(t', cb, chains', d); }
      }
    }
  }

  /** How a create in a directory that is not tidy succeeds: the directory has grown. */
  lemma UntidyIs(t: Tree, cb: nat, d: nat, name: seq<byte>, size: nat, scratch: nat -> bool, s: Spot)
    requires size < TWO32 && Usable(t, cb, d) && !Tidy(t, d, name) && CreateIn(t, cb, d, name, size, scratch).ok
    requires Settle(Slots(t, d), name) == Some(s)
    ensures cb >= 512 && d in t.dirs && t.dirs[d] != [] && !Crammed(Slots(t, d))
    ensures var m := GrowCount(s.count + 1, cb);
            var g := Grow(t, cb, d, m);
            && 2 <= |g.store.fat| == |g.store.data| && |g.store.fat| <= EOC && |NewClusters(t, cb, d, m).1| == m
            && var r := AddAt(In(g, d), cb, s.(at := |Slots(t, d)|), ATTR_FILE, CreateCount(size, cb), size, scratch);
               r.Some? && CreateIn(t, cb, d, name, size, scratch).t == Back(g, d, r.value)
  {
    hide Slots, Settle, FindRun, AddAt, Back, Reserve, Crammed, ZeroSuffix, Unique, GrowCount, CreateCount;
  }

  lemma UntidyCreate(t: Tree, cb: nat, chains: map<Key, seq<nat>>, d: nat, name: seq<byte>, size: nat,
                     scratch: nat -> bool)
    requires TreeGood(t, cb, chains) && IsDir(t, d) && size < TWO32 && Usable(t, cb, d) && !Tidy(t, d, name)
    requires CreateIn(t, cb, d, name, size, scratch).ok
    ensures var t' := CreateIn(t, cb, d, name, size, scratch).t;
            IsDir(t', d) && !ZeroSuffix(Slots(t', d)) && FirstMatch(Items(Slots(t', d)), name).None?
  {
    hide TreeFiles, Slots, DirKey, Shaped, TreeGood, Items, FirstMatch, Settle, FindRun, Grow, NewClusters, GrowCount,
         SlotsIn, FreeSet, KeptKey, ZeroSuffix, Unique, Back, Reserve, Place, Crammed, CreateCount, Grown, CreateIn,
         AddAt, NeedsLong, Prepare, FragmentCount, Wider, GrownSlots;
    var slots, s := Slots(t, d), Settle(Slots(t, d), name).value;
    UntidyIs(t, cb, d, name, size, scratch, s);
    var m := GrowCount(s.count + 1, cb);
    var chains1 := GrowKeeps(t, cb, chains, d, m);
    var g, room, n, spot := Grow(t, cb, d, m), SlotsIn(m, cb), CreateCount(size, cb), s.(at := |slots|);
    WiderAt(t, g, d, room);
    GrowCountHolds(s.count + 1, cb);
    SettleMeans(slots, name);
    var e := AddedEntry(In(g, d), cb, spot, n, size, scratch);
    GrowthExact(slots, room, s.long, s.count, e);
    GrownIs(slots, room, s.long, s.count, e);
    AddBack(g, cb, chains1, d, spot, n, size, scratch);
  }

  lemma GrownIs(slots: seq<Slot>, room: nat, name: seq<byte>, count: nat, e: Slot)
    requires count < room && count <= MAX_ENTRIES
    ensures GrownSlots(slots, room, name, count, e) == Place(Followed(slots, room), |slots|, name, count, e)
  {
  }

  /** The entry that is written is live. */
  lemma AddedEntry(v: Vol, cb: nat, s: Spot, n: nat, size: nat, scratch: nat -> bool) returns (e: Slot)
    requires 2 <= |v.store.fat| == |v.store.data| && |v.store.fat| <= EOC && size < TWO32
    requires AddAt(v, cb, s, ATTR_FILE, n, size, scratch).Some? && s.short[0] != 0 && s.short[0] != DELETED
    ensures IsLive(e) && s.count <= MAX_ENTRIES && s.at + s.count < |v.root|
    ensures AddAt(v, cb, s, ATTR_FILE, n, size, scratch).value.root == Place(v.root, s.at, s.long, s.count, e)
  {
    hide Reserve, Place;
    e := ShortEntry(s.short, ATTR_FILE, Reserve(v.store, cb, n, 0, scratch).1[0], size);
    assert e[0] == e[..11][0];
  }

  /** The slots of the directory after an entry was written to free ones, wherever they are. */
  lemma AddBack(t: Tree, cb: nat, chains: map<Key, seq<nat>>, d: nat, s: Spot, n: nat, size: nat, scratch: nat -> bool)
    requires TreeGood(t, cb, chains) && IsDir(t, d) && size < TWO32 && 2 <= |t.store.fat| == |t.store.data|
    requires |t.store.fat| <= EOC && AddAt(In(t, d), cb, s, ATTR_FILE, n, size, scratch).Some?
    ensures var u := AddAt(In(t, d), cb, s, ATTR_FILE, n, size, scratch).value;
            IsDir(Back(t, d, u), d) && Slots(Back(t, d, u), d) == u.root
  {
    hide TreeFiles, Slots, DirKey, Back, Reserve, Place, Grown, DirOk, Sound, DirsKept, Home, ShortEntry;
    GoodDir(t, cb, chains, d);
    var u := AddAt(In(t, d), cb, s, ATTR_FILE, n, size, scratch).value;
    var cs := Reserve(t.store, cb, n, 0, scratch).1;
    ReserveGrows(t.store, cb, n, 0, scratch);
    ReserveFrame(t.store, cb, n, 0, scratch);
    GrownDirs(t, cb, chains, u.store.fat, cs, u.store.data);
    PlaceAt(Slots(t, d), s.at, s.long, s.count, ShortEntry(s.short, ATTR_FILE, cs[0], size));
    BackSlots(t, cb, d, u);
  }

  // ---------------------------------------------------------------- removing a file of any directory

  lemma RemoveSlots(d: nat, slots: seq<Slot>, item: Item)
    requires DirOk(d, slots) && ItemSound(slots, item) && !IsDirEntry(item.entry)
    ensures DirOk(d, Without(slots, item)) && DirEntriesStay(slots, Without(slots, item))
    ensures Entries(d, Without(slots, item)) == Entries(d, slots) - {item.idx}
  {
    hide Files, ZeroSuffix, Unique, Without;
    ItemRemoved(slots, item);
    WithoutStays(slots, item);
  }

  lemma WithoutStays(slots: seq<Slot>, item: Item)
    requires ItemSound(slots, item) && !IsDirEntry(item.entry)
    ensures DirEntriesStay(slots, Without(slots, item))
  {
    hide Without;
    WithoutAt(slots, item);
  }

  /** Clusters of a file are no directory's. */
  lemma ReleasedDirs(t: Tree, cb: nat, chains: map<Key, seq<nat>>, k: Key, data: seq<seq<byte>>)
    requires TreeGood(t, cb, chains) && k in TreeFiles(t) && !DirKey(t, k) && k in chains
    requires data == ZeroData(t.store.data, chains[k])
    ensures DirsKept(t, data)
  {
    hide TreeFiles, Slots, DirOk, Sound, DirKey, Shaped, IsChain;
    forall d, c | d in t.dirs && c in t.dirs[d] && c < |data|
      ensures data[c] == t.store.data[c]
    {
      DirApart(t, cb, chains, d, k);
    }
  }

  /** Removing a file of any directory keeps the tree good and every other file of every directory as it
      was. */
  lemma RemoveTreeKeeps(t: Tree, cb: nat, chains: map<Key, seq<nat>>, d: nat, item: Item)
    requires TreeGood(t, cb, chains) && IsDir(t, d) && ItemSound(Slots(t, d), item) && !IsDirEntry(item.entry)
    ensures var r, k := RemoveItem(In(t, d), item), (d, item.idx);
            && r.Some? && TreeGood(Back(t, d, r.value), cb, chains - {k})
            && TreeFiles(Back(t, d, r.value)) == TreeFiles(t) - {k}
            && TreeKept(t, chains, Back(t, d, r.value), chains - {k}, k)
  {
    hide TreeFiles, Slots, Entries, Sound, DirKey, Back, Replaced, DirOk, DirsKept, KeptKey, Released, Without,
         DirEntriesStay, FreeSet, LinksInside, StartsInside;
    var k := (d, item.idx);
    GoodDir(t, cb, chains, d);
    ItemKey(t, cb, chains, d, item);
    SoundLinks(t.store.fat, TreeFiles(t), chains);
    ReleaseSound(t.store, cb, TreeFiles(t), chains, k);
    RemoveSlots(d, Slots(t, d), item);
    var u := RemoveItem(In(t, d), item).value;
    SoundChain(t.store.fat, TreeFiles(t), chains, k);
    ReleasedDirs(t, cb, chains, k, u.store.data);
    StaySize(Slots(t, d), u.root);
    ReplacedLess(t, d, item.idx);
    BackFiles(t, cb, d, u);
    DirChainsLeft(t, cb, chains, k);
    Settled(t, cb, chains, d, u, chains - {k});
    forall j: Key | j in TreeFiles(t) && j != k && !DirKey(t, j)
      ensures KeptKey(t, chains, Back(t, d, u), chains - {k}, j)
    {
      SoundPair(t.store.fat, TreeFiles(t), chains, k, j);
      ReleasedBlocks(t.store, cb, chains[j], chains[k]);
      SettledKeeps(t, cb, chains, d, u, chains - {k}, j);
    }
  }

  lemma DirChainsLeft(t: Tree, cb: nat, chains: map<Key, seq<nat>>, k: Key)
    requires TreeGood(t, cb, chains) && !DirKey(t, k)
    ensures forall h: Key :: DirKey(t, h) ==> h in chains - {k} && h in chains && (chains - {k})[h] == chains[h]
  {
    hide TreeFiles, Sound, Slots, DirSlot;
    SoundLinks(t.store.fat, TreeFiles(t), chains);
  }

  lemma ReleasedBlocks(v: Store, cb: nat, cs: seq<nat>, gone: seq<nat>)
    requires WellFormed(v, cb) && IsChain(v.fat, cs) && Disjoint(cs, gone)
    ensures BlocksSame(v.data, ZeroData(v.data, gone), cs)
  {
    forall i | 0 <= i < |cs|
      ensures cs[i] < |v.data| && cs[i] !in gone
    {
      assert cs[i] in cs;
    }
  }

  // ---------------------------------------------------------------- making a directory in any directory

  /** The slots of a new directory: itself and its parent, then slots never used. */
  lemma NewSlots(c: nat, parent: nat, cb: nat)
    requires 0 < c < TWO16 && parent < TWO16 && cb >= 512 && cb % 512 == 0
    ensures var slots := BlockSlots(DirBlock(c, parent, cb)); DirOk(c, slots) && Entries(c, slots) == map[]
  {
    hide DirBlock, FileOf, BlockSlots;
    DirBlockMeans(c, parent, cb);
    var b := DirBlock(c, parent, cb);
    var slots := BlockSlots(b);
    FirstTwo(b, slots);
    RestUnused(b, slots);
    TwoSlots(c, slots);
  }

  lemma FirstTwo(b: seq<byte>, slots: seq<Slot>)
    requires |b| >= 64 && slots == BlockSlots(b)
    ensures |slots| >= 2 && slots[0] == b[..32] && slots[1] == b[32..64]
    ensures slots[0][..11] == b[..11] && slots[1][..11] == b[32..43]
  {
    assert b[0..32] == b[..32];
  }

  lemma RestUnused(b: seq<byte>, slots: seq<Slot>)
    requires slots == BlockSlots(b) && forall k :: 64 <= k < |b| ==> b[k] == 0
    ensures forall i :: 2 <= i < |slots| ==> slots[i][0] == 0
  {
    forall i | 2 <= i < |slots|
      ensures slots[i][0] == 0
    {
      assert slots[i][0] == b[32 * i];
    }
  }

  lemma TwoSlots(c: nat, slots: seq<Slot>)
    requires c > 0 && |slots| >= 2 && IsDirEntry(slots[0]) && IsDirEntry(slots[1])
    requires slots[0][..11] == [DOT] + Fill(10, SPACE) && slots[1][..11] == [DOT, DOT] + Fill(9, SPACE)
    requires forall i :: 2 <= i < |slots| ==> slots[i][0] == 0
    ensures DirOk(c, slots) && Entries(c, slots) == map[]
  {
    hide FileOf;
    assert slots[0][0] == slots[0][..11][0] == DOT && slots[1][0] == slots[1][..11][0] == DOT;
    assert slots[0][..11][1] == SPACE && slots[1][..11][1] == DOT;
    assert !IsLfn(slots[0]) && !IsLfn(slots[1]);
  }

  /** A directory put into the cluster of a directory entry that has none yet. */
  ghost function Opened(t: Tree, c: nat, block: seq<byte>): (r: Tree) {
    if c < |t.store.data|
    then t.(store := t.store.(data := t.store.data[c := block]), dirs := t.dirs[c := [c]])
    else t
  }

  lemma OpenedSlots(t: Tree, cb: nat, c: nat, block: seq<byte>)
    requires Shaped(t, cb) && 0 < c < |t.store.data| && |block| == cb
    requires c !in t.dirs && forall e :: e in t.dirs ==> c !in t.dirs[e]
    ensures var t' := Opened(t, c, block);
            && Shaped(t', cb) && Slots(t', c) == BlockSlots(block)
            && forall e :: IsDir(t, e) ==> Slots(t', e) == Slots(t, e)
  {
    hide BlockSlots;
    var t' := Opened(t, c, block);
    forall e | e in t.dirs
      ensures InData(t'.store.data, t.dirs[e])
      ensures DirSlots(t'.store.data, t.dirs[e]) == DirSlots(t.store.data, t.dirs[e])
    {
      var es := t.dirs[e];
      forall i | 0 <= i < |es|
        ensures t'.store.data[es[i]] == t.store.data[es[i]]
      {
        assert es[i] in es;
      }
      DirSlotsFrame(t.store.data, t'.store.data, es);
    }
    assert [c][1..] == [];
    assert DirSlots(t'.store.data, [c]) == BlockSlots(block) + DirSlots(t'.store.data, [c][1..]);
    forall e | e in t.dirs
      ensures Disjoint([c], t.dirs[e]) && Disjoint(t.dirs[e], [c])
    {
      assert c !in t.dirs[e];
    }
  }

  lemma OpenedFiles(t: Tree, t': Tree, c: nat)
    requires c !in t.dirs && c != 0 && t'.dirs.Keys == t.dirs.Keys + {c}
    requires (forall e :: IsDir(t, e) ==> Slots(t', e) == Slots(t, e)) && Entries(c, Slots(t', c)) == map[]
    ensures TreeFiles(t') == TreeFiles(t)
  {
    hide Slots, Entries, TreeFiles;
    var a, b := TreeFiles(t'), TreeFiles(t);
    forall k: Key
      ensures SameAt(a, b, k)
    {
      KeyOf(t, k);
      KeyOf(t', k);
    }
    SameMaps(a, b);
  }

  lemma OpenedHome(t: Tree, t': Tree, chains: map<Key, seq<nat>>, k: Key, c: nat, h: Key)
    requires (forall e :: IsDir(t, e) ==> Slots(t', e) == Slots(t, e)) && TreeFiles(t') == TreeFiles(t)
    requires DirKey(t, h) && t'.dirs == t.dirs[c := [c]] && k in chains && chains[k] == [c]
    ensures DirKey(t', h) && (h == k ==> Home(t', chains, c, k))
  {
    hide TreeFiles, Slots, DirSlot;
    KeyOf(t, h);
  }

  lemma OpenedGood(t: Tree, cb: nat, chains: map<Key, seq<nat>>, k: Key, c: nat, block: seq<byte>)
    requires TreeGood(t, cb, chains) && DirKey(t, k) && k in chains && chains[k] == [c]
    requires 0 < c < |t.store.data| && |block| == cb && forall e :: e in t.dirs ==> c !in t.dirs[e]
    requires DirOk(c, BlockSlots(block)) && Entries(c, BlockSlots(block)) == map[]
    ensures TreeGood(Opened(t, c, block), cb, chains) && TreeFiles(Opened(t, c, block)) == TreeFiles(t)
  {
    hide TreeFiles, Slots, DirOk, Entries, Sound, DirSlot, BlockSlots;
    assert c !in t.dirs;
    OpenedSlots(t, cb, c, block);
    var t' := Opened(t, c, block);
    OpenedFiles(t, t', c);
    OpenedHome(t, t', chains, k, c, k);
    forall e | e in t.dirs
      ensures exists h: Key :: Home(t', chains, e, h)
    {
      var h: Key :| Home(t, chains, e, h);
      OpenedHome(t, t', chains, k, c, h);
      assert Home(t', chains, e, h);
    }
    forall e | IsDir(t', e)
      ensures DirOk(e, Slots(t', e))
    {
      if e != c { assert IsDir(t, e); }
    }
  }

  lemma ShapedStore(t: Tree, cb: nat)
    requires Shaped(t, cb)
    ensures cb >= 512 && cb % 512 == 0 && WellFormed(t.store, cb) && 2 <= |t.store.fat|
  {
  }

  lemma FreeNoDir(t: Tree, cb: nat, chains: map<Key, seq<nat>>, c: nat)
    requires TreeGood(t, cb, chains) && c in FreeSet(t.store.fat)
    ensures forall e :: e in t.dirs ==> c !in t.dirs[e]
  {
    hide TreeFiles, Slots, DirOk, Sound, DirKey, Shaped, IsChain;
    forall e | e in t.dirs && c in t.dirs[e]
      ensures false
    {
      var h: Key :| Home(t, chains, e, h);
      HomeKey(t, chains, e, h);
      SoundChain(t.store.fat, TreeFiles(t), chains, h);
      ChainEntryUsed(t.store.fat, t.dirs[e], c);
    }
  }

  /** The new entry is a directory entry. */
  lemma AddedIsDir(t: Tree, cb: nat, chains: map<Key, seq<nat>>, d: nat, s: Spot, k: Key)
    requires TreeGood(t, cb, chains) && IsDir(t, d) && SpotOk(Slots(t, d), s) && k == (d, s.at + s.count)
    requires AddAt(In(t, d), cb, s, ATTR_DIR, 1, 0, NoScratch).Some?
    requires var u := AddAt(In(t, d), cb, s, ATTR_DIR, 1, 0, NoScratch).value;
             k in TreeFiles(Back(t, d, u)) && Slots(Back(t, d, u), d) == u.root
    ensures DirKey(Back(t, d, AddAt(In(t, d), cb, s, ATTR_DIR, 1, 0, NoScratch).value), k)
  {
    hide TreeFiles, Slots, Reserve, Place, Back, DirOk, Home, Sound;
    var v := In(t, d);
    var cs := Reserve(v.store, cb, 1, 0, NoScratch).1;
    var e := ShortEntry(s.short, ATTR_DIR, cs[0], 0);
    PlaceAt(v.root, s.at, s.long, s.count, e);
    assert e[0] == e[..11][0];
  }

  /** The second half of mkdir: the cluster taken becomes the new directory. */
  lemma MkdirOpens(t: Tree, cb: nat, chains: map<Key, seq<nat>>, t1: Tree, k: Key, c: nat, parent: nat)
    requires TreeGood(t, cb, chains) && c in FreeSet(t.store.fat) && c < TWO16 && parent < TWO16
    requires TreeGood(t1, cb, chains[k := [c]]) && t1.dirs == t.dirs && DirKey(t1, k)
    requires k !in TreeFiles(t) && TreeKept(t, chains, t1, chains[k := [c]], k)
    ensures var t2 := Opened(t1, c, DirBlock(c, parent, cb));
            && c !in t.dirs && c in t2.dirs && TreeGood(t2, cb, chains[k := [c]]) && TreeFiles(t2) == TreeFiles(t1)
            && Entries(c, Slots(t2, c)) == map[] && TreeKept(t, chains, t2, chains[k := [c]], k)
  {
    hide TreeFiles, Slots, Entries, Sound, DirKey, DirOk, KeptKey, DirBlock, BlockSlots;
    FreeNoDir(t, cb, chains, c);
    NewSlots(c, parent, cb);
    OpenedRoom(t, t1, cb, chains, chains[k := [c]], k, c);
    var block := DirBlock(c, parent, cb);
    OpenedGood(t1, cb, chains[k := [c]], k, c, block);
    assert c !in t1.dirs;
    OpenedSlots(t1, cb, c, block);
    forall j: Key | j in TreeFiles(t) && j != k && !DirKey(t, j)
      ensures KeptKey(t, chains, Opened(t1, c, block), chains[k := [c]], j)
    {
      assert KeptKey(t, chains, t1, chains[k := [c]], j);
      OpenedKeeps(t, chains, t1, cb, chains[k := [c]], k, c, block, j);
    }
  }

  lemma OpenedRoom(t: Tree, t1: Tree, cb: nat, chains: map<Key, seq<nat>>, chains1: map<Key, seq<nat>>, k: Key, c: nat)
    requires TreeGood(t1, cb, chains1) && DirKey(t1, k) && k in chains1 && chains1[k] == [c]
    ensures 0 < c < |t1.store.data|
  {
    hide TreeFiles, Slots, DirOk, Sound, DirSlot;
    SoundChain(t1.store.fat, TreeFiles(t1), chains1, k);
    assert InTable(t1.store.fat, chains1[k][0]);
  }

  lemma OpenedKeeps(t: Tree, chains: map<Key, seq<nat>>, t1: Tree, cb: nat, chains1: map<Key, seq<nat>>, k: Key, c: nat,
                    block: seq<byte>, j: Key)
    requires TreeGood(t1, cb, chains1) && DirKey(t1, k) && k in chains1 && chains1[k] == [c] && j != k
    requires KeptKey(t, chains, t1, chains1, j) && TreeFiles(Opened(t1, c, block)) == TreeFiles(t1)
    ensures KeptKey(t, chains, Opened(t1, c, block), chains1, j)
  {
    hide TreeFiles, Slots, DirOk, Sound, DirSlot, IsChain;
    SoundPair(t1.store.fat, TreeFiles(t1), chains1, k, j);
    var cs := chains[j];
    forall i | 0 <= i < |cs|
      ensures cs[i] != c
    {
      assert cs[i] in cs && c in [c];
    }
  }

  /** `fat16_mkdir` in directory `d`. */
  ghost function MkdirIn(t: Tree, cb: nat, d: nat, name: seq<byte>): (r: Done)
    requires Usable(t, cb, d)
  {
    var w := RoomFor(t, cb, d, name);
    if w.spot.None? then Done(false, w.t)
    else
      match AddAt(In(w.t, d), cb, w.spot.value, ATTR_DIR, 1, 0, NoScratch)
      case None => Done(false, w.t)
      case Some(u) =>
        var c := NextFit(w.t.store.fat, w.t.store.hint);
        if c < TWO16 && d < TWO16 then Done(true, Opened(Back(w.t, d, u), c, DirBlock(c, d, cb))) else Done(false, w.t)
  }

  /** Making a directory in any directory, successfully or not, keeps the tree good and every file of every
      directory as it was; the new directory holds nothing but itself and its parent. */
  lemma MkdirTreeKeeps(t: Tree, cb: nat, chains: map<Key, seq<nat>>, d: nat, name: seq<byte>)
    returns (k: Key, chains': map<Key, seq<nat>>)
    requires TreeGood(t, cb, chains) && IsDir(t, d) && Tidy(t, d, name)
    ensures Usable(t, cb, d)
    ensures var r, g := MkdirIn(t, cb, d, name), RoomFor(t, cb, d, name).t;
            && 2 <= |g.store.fat| && TreeGood(r.t, cb, chains') && k !in TreeFiles(t)
            && TreeKept(t, chains, r.t, chains', k)
            && (!r.ok ==> TreeFiles(r.t) == TreeFiles(t))
            && var c := NextFit(g.store.fat, g.store.hint);
               r.ok ==>
                 && k.0 == d && c !in t.dirs && c in r.t.dirs && TreeFiles(r.t) == TreeFiles(t)[k := File(c, 0)]
                 && Entries(c, Slots(r.t, c)) == map[]
  {
    hide TreeFiles, Slots, Entries, Sound, DirKey, Back, DirOk, TreeKept, AddAt, Reserve, NextFit, DirBlock, Opened,
         RoomFor, Shaped, TreeGood, WellFormed, FreeSet, SpotOk, KeptKey, Grown, Usable, Tidy;
    k, chains' := RoomKeeps(t, cb, chains, d, name);
    var w := RoomFor(t, cb, d, name);
    RoomStore(w.t, cb, chains', d);
    var g, chains1 := w.t, chains';
    if w.spot.Some? && AddAt(In(g, d), cb, w.spot.value, ATTR_DIR, 1, 0, NoScratch).Some? {
      var c := NextFit(g.store.fat, g.store.hint);
      if c < TWO16 && d < TWO16 {
        k, chains' := MkdirAdds(g, cb, chains1, d, w.spot.value);
        KeptAfterRoom(t, chains, g, chains1, MkdirIn(t, cb, d, name).t, chains', k);
      }
    }
  }

  lemma MkdirAdds(t: Tree, cb: nat, chains: map<Key, seq<nat>>, d: nat, s: Spot)
    returns (k: Key, chains': map<Key, seq<nat>>)
    requires TreeGood(t, cb, chains) && IsDir(t, d) && SpotOk(Slots(t, d), s) && d < TWO16
    requires 2 <= |t.store.fat| == |t.store.data| && |t.store.fat| <= EOC && cb >= 512
    requires AddAt(In(t, d), cb, s, ATTR_DIR, 1, 0, NoScratch).Some? && NextFit(t.store.fat, t.store.hint) < TWO16
    ensures var c := NextFit(t.store.fat, t.store.hint);
            var u := AddAt(In(t, d), cb, s, ATTR_DIR, 1, 0, NoScratch).value;
            var t2 := Opened(Back(t, d, u), c, DirBlock(c, d, cb));
            && k == (d, s.at + s.count) && k !in TreeFiles(t) && c !in t.dirs && c in t2.dirs
            && TreeGood(t2, cb, chains') && TreeFiles(t2) == TreeFiles(t)[k := File(c, 0)]
            && Entries(c, Slots(t2, c)) == map[] && TreeKept(t, chains, t2, chains', k)
  {
    hide TreeFiles, Slots, Entries, Sound, DirKey, Back, DirOk, TreeKept, AddAt, Reserve, NextFit, DirBlock, Opened,
         Shaped, TreeGood, WellFormed, FreeSet, SpotOk, Grown;
    var c := NextFit(t.store.fat, t.store.hint);
    var cs;
    k, cs := AddTreeKeeps(t, cb, chains, d, s, ATTR_DIR, 1, 0, NoScratch);
    chains' := chains[k := cs];
    GoodDir(t, cb, chains, d);
    ShapedStore(t, cb);
    NextFitExhaustive(t.store.fat, t.store.hint);
    ReserveOne(t.store, cb, NoScratch);
    AddedIsDir(t, cb, chains, d, s, k);
    MkdirOpens(t, cb, chains, Back(t, d, AddAt(In(t, d), cb, s, ATTR_DIR, 1, 0, NoScratch).value), k, c, d);
  }

  // ---------------------------------------------------------------- writing by name in any directory

  /** `fat16_write_file` in directory `d`: a file not found is created and the write tried again. Each
      create takes a cluster (`CreateInKeeps`), so the measure always shrinks. */
  ghost function WriteIn(t: Tree, cb: nat, d: nat, name: seq<byte>, buf: seq<byte>): (r: Done)
    decreases |FreeSet(t.store.fat)|
  {
    if !Usable(t, cb, d) then Done(false, t)
    else
      LookupSound(Slots(t, d), name);
      match FirstMatch(Items(Slots(t, d)), name)
      case Some(item) =>
        if IsDirEntry(item.entry) || |buf| >= TWO32 then Done(false, t)
        else Done(WriteItem(In(t, d), cb, item, buf).Some?, Back(t, d, ItemAfter(In(t, d), cb, item, buf)))
      case None =>
        var made := CreateIn(t, cb, d, name, 0, NoScratch);
        if made.ok && |FreeSet(made.t.store.fat)| < |FreeSet(t.store.fat)| then WriteIn(made.t, cb, d, name, buf)
        else Done(false, made.t)
  }

  /** What a write by name in directory `d` promises about `r`: the tree is good and every file but the
      one at `k` is kept; a successful write is found again under its name and reads back. */
  ghost predicate Wrote(t: Tree, cb: nat, chains: map<Key, seq<nat>>, d: nat, name: seq<byte>, buf: seq<byte>, r: Done,
                        k: Key, chains': map<Key, seq<nat>>)
  {
    && TreeGood(r.t, cb, chains') && TreeKept(t, chains, r.t, chains', k)
    && (r.ok ==>
          && k.0 == d && k in TreeFiles(r.t) && k in chains' && FoundAt(Slots(r.t, d), name, k.1)
          && TreeFiles(r.t)[k] == File(Head(chains'[k]), |buf|)
          && InData(r.t.store.data, chains'[k]) && Content(r.t.store.data, chains'[k], |buf|) == buf)
  }

  lemma KeptAll(t: Tree, cb: nat, chains: map<Key, seq<nat>>, k: Key)
    requires TreeGood(t, cb, chains)
    ensures TreeKept(t, chains, t, chains, k)
  {
    hide TreeFiles, Slots, DirKey, DirOk, Home, Sound, IsChain;
    forall j: Key | j in TreeFiles(t)
      ensures KeptKey(t, chains, t, chains, j)
    {
      SoundChain(t.store.fat, TreeFiles(t), chains, j);
      ChainInside(t.store.fat, chains[j]);
    }
  }

  /** The write to an entry that was found. */
  lemma WriteFound(t: Tree, cb: nat, chains: map<Key, seq<nat>>, d: nat, name: seq<byte>, buf: seq<byte>, item: Item)
    returns (chains': map<Key, seq<nat>>)
    requires TreeGood(t, cb, chains) && IsDir(t, d) && FirstMatch(Items(Slots(t, d)), name) == Some(item)
    requires ItemSound(Slots(t, d), item) && !IsDirEntry(item.entry) && |buf| < TWO32
    ensures Usable(t, cb, d)
    ensures Wrote(t, cb, chains, d, name, buf,
                  Done(WriteItem(In(t, d), cb, item, buf).Some?, Back(t, d, ItemAfter(In(t, d), cb, item, buf))),
                  (d, item.idx), chains')
  {
    hide TreeFiles, Slots, Back, Sound, TreeGood, TreeKept, ItemAfter, WriteItem, FirstMatch, Items, ItemSound,
         NewChain,
         Overwrite, LinksInside, StartsInside, ZeroSuffix, Unique, Shaped, Content;
    GoodUsable(t, cb, chains, d);
    GoodDir(t, cb, chains, d);
    ShapedStore(t, cb);
    chains' := ItemTreeKeeps(t, cb, chains, d, item, buf);
    if WriteItem(In(t, d), cb, item, buf).Some? {
      ItemTreeReads(t, cb, chains, d, item, buf);
      ItemTreeFound(t, cb, chains, d, name, item, buf);
    }
  }

  lemma ItemTreeFound(t: Tree, cb: nat, chains: map<Key, seq<nat>>, d: nat, name: seq<byte>, item: Item,
                      buf: seq<byte>)
    requires TreeGood(t, cb, chains) && IsDir(t, d) && FirstMatch(Items(Slots(t, d)), name) == Some(item)
    requires ItemSound(Slots(t, d), item) && !IsDirEntry(item.entry) && |buf| < TWO32
    requires cb > 0 && cb % 512 == 0 && WellFormed(t.store, cb) && WriteItem(In(t, d), cb, item, buf).Some?
    ensures FoundAt(Slots(Back(t, d, ItemAfter(In(t, d), cb, item, buf)), d), name, item.idx)
    ensures LinksInside(t.store.fat) && StartsInside(t.store.fat, Le16(item.entry, 26))
    ensures var r := Overwrite(t.store, cb, Le16(item.entry, 26), buf); NewChain(Le16(item.entry, 26), r) == r.cs
  {
    hide TreeFiles, Slots, Back, Sound, TreeGood, ItemAfter, WriteItem, FirstMatch, Items, ItemSound, Overwrite,
         LinksInside, StartsInside, Shaped, Replaced, Entries, DirsKept;
    GoodDir(t, cb, chains, d);
    ItemTreeGood(t, cb, chains, d, item, buf);
    WriteItemFinds(In(t, d), cb, name, item, buf);
    AfterIsWritten(In(t, d), cb, item, buf);
    BackSlots(t, cb, d, ItemAfter(In(t, d), cb, item, buf));
  }

  lemma AfterIsWritten(v: Vol, cb: nat, item: Item, buf: seq<byte>)
    requires cb > 0 && cb % 512 == 0 && WellFormed(v.store, cb) && ItemSound(v.root, item)
    requires WriteItem(v, cb, item, buf).Some?
    ensures ItemAfter(v, cb, item, buf) == WriteItem(v, cb, item, buf).value
  {
    hide WriteItem;
  }

  lemma KeptThrough(t: Tree, chains: map<Key, seq<nat>>, t1: Tree, chains1: map<Key, seq<nat>>, t2: Tree,
                    chains2: map<Key, seq<nat>>, k1: Key, k: Key)
    requires k1 !in TreeFiles(t) && TreeKept(t, chains, t1, chains1, k1) && TreeKept(t1, chains1, t2, chains2, k)
    requires forall j: Key :: j in TreeFiles(t) ==> (DirKey(t1, j) <==> DirKey(t, j))
    ensures TreeKept(t, chains, t2, chains2, k)
  {
    hide TreeFiles, DirKey;
    forall j: Key | j in TreeFiles(t) && j != k && !DirKey(t, j)
      ensures KeptKey(t, chains, t2, chains2, j)
    {
      assert KeptKey(t, chains, t1, chains1, j);
      assert KeptKey(t1, chains1, t2, chains2, j);
    }
  }

  lemma WroteThrough(t: Tree, cb: nat, chains: map<Key, seq<nat>>, t1: Tree, chains1: map<Key, seq<nat>>, d: nat,
                     name: seq<byte>, buf: seq<byte>, r: Done, k1: Key, k: Key, chains2: map<Key, seq<nat>>)
    requires k1 !in TreeFiles(t) && TreeKept(t, chains, t1, chains1, k1)
    requires forall j: Key :: j in TreeFiles(t) ==> (DirKey(t1, j) <==> DirKey(t, j))
    requires Wrote(t1, cb, chains1, d, name, buf, r, k, chains2)
    ensures Wrote(t, cb, chains, d, name, buf, r, k, chains2)
  {
    hide TreeFiles, DirKey, TreeKept, TreeGood, Slots, FoundAt, Content, InData;
    KeptThrough(t, chains, t1, chains1, r.t, chains2, k1, k);
  }

  lemma WroteNothing(t: Tree, cb: nat, chains: map<Key, seq<nat>>, d: nat, name: seq<byte>, buf: seq<byte>, k: Key)
    requires TreeGood(t, cb, chains)
    ensures Wrote(t, cb, chains, d, name, buf, Done(false, t), k, chains)
  {
    hide TreeFiles, TreeKept, TreeGood, Slots;
    KeptAll(t, cb, chains, k);
  }

  /** Every create the write makes finds a tidy directory. */
  ghost predicate TidyWrite(t: Tree, cb: nat, d: nat, name: seq<byte>)
    decreases |FreeSet(t.store.fat)|
  {
    Usable(t, cb, d) && FirstMatch(Items(Slots(t, d)), name).None? ==>
      && Tidy(t, d, name)
      && var made := CreateIn(t, cb, d, name, 0, NoScratch);
         made.ok && |FreeSet(made.t.store.fat)| < |FreeSet(t.store.fat)| ==> TidyWrite(made.t, cb, d, name)
  }

  /** A write by name in any directory: a successful one is found again and reads back as written;
      successful or not, the tree stays good and every other file of every directory is kept. */
  lemma {:induction false} WriteInMeans(t: Tree, cb: nat, chains: map<Key, seq<nat>>, d: nat, name: seq<byte>,
                                        buf: seq<byte>)
    returns (k: Key, chains': map<Key, seq<nat>>)
    requires TreeGood(t, cb, chains) && IsDir(t, d) && TidyWrite(t, cb, d, name)
    ensures Wrote(t, cb, chains, d, name, buf, WriteIn(t, cb, d, name, buf), k, chains')
    decreases |FreeSet(t.store.fat)|
  {
    hide TreeFiles, Slots, Back, TreeGood, TreeKept, ItemAfter, WriteItem, FirstMatch, Items, ItemSound, CreateIn,
         Shaped, FreeSet, Wrote, DirKey, IsDirEntry, Usable, Tidy;
    GoodUsable(t, cb, chains, d);
    LookupSound(Slots(t, d), name);
    k, chains' := (d, 0), chains;
    match FirstMatch(Items(Slots(t, d)), name) {
      case Some(item) =>
        if IsDirEntry(item.entry) || |buf| >= TWO32 {
          WroteNothing(t, cb, chains, d, name, buf, k);
        } else {
          k := (d, item.idx);
          chains' := WriteFound(t, cb, chains, d, name, buf, item);
        }
      case None =>
        var made := CreateIn(t, cb, d, name, 0, NoScratch);
        var k1, chains1 := CreateInKeeps(t, cb, chains, d, name, 0, NoScratch);
        if made.ok {
          SubsetSmaller(FreeSet(made.t.store.fat), FreeSet(t.store.fat));
          k, chains' := WriteInMeans(made.t, cb, chains1, d, name, buf);
          var r := WriteIn(made.t, cb, d, name, buf);
          WroteThrough(t, cb, chains, made.t, chains1, d, name, buf, r, k1, k, chains');
        } else {
          k, chains' := k1, chains1;
          WroteFailed(t, cb, chains, d, name, buf, made.t, k, chains1);
        }
    }
  }

  lemma WroteFailed(t: Tree, cb: nat, chains: map<Key, seq<nat>>, d: nat, name: seq<byte>, buf: seq<byte>, t1: Tree,
                    k: Key, chains1: map<Key, seq<nat>>)
    requires TreeGood(t1, cb, chains1) && TreeKept(t, chains, t1, chains1, k)
    ensures Wrote(t, cb, chains, d, name, buf, Done(false, t1), k, chains1)
  {
    hide TreeFiles, TreeKept, TreeGood, Slots;
  }

  lemma SubsetSmaller(a: set<nat>, b: set<nat>)
    requires a < b
    ensures |a| < |b|
  {
    var x :| x in b && x !in a;
    assert a <= b - {x};
    SubsetSize(a, b - {x});
  }

  // ---------------------------------------------------------------- runs

  datatype TreeOp =
    | CreateAt(d: nat, name: seq<byte>, size: nat, scratch: nat -> bool)
    | MkdirAt(d: nat, name: seq<byte>)
    | WriteAt(d: nat, name: seq<byte>, buf: seq<byte>)
    | RemoveAt(d: nat, name: seq<byte>)

  /** The operation names a directory of the tree, which grows for it only when no slot is left there that
      was never used, and a remove names no directory. */
  ghost predicate Allowed(t: Tree, cb: nat, op: TreeOp) {
    && IsDir(t, op.d)
    && match op
       case CreateAt(d, name, _, _) => Tidy(t, d, name)
       case MkdirAt(d, name) => Tidy(t, d, name)
       case WriteAt(d, name, _) => TidyWrite(t, cb, d, name)
       case RemoveAt(d, name) =>
         var found := FirstMatch(Items(Slots(t, d)), name);
         found.Some? ==> !IsDirEntry(found.value.entry)
  }

  /** The tree after a call, whether or not it succeeded. */
  ghost function TreeAfter(t: Tree, cb: nat, op: TreeOp): (r: Tree)
    requires Usable(t, cb, op.d)
  {
    var v := In(t, op.d);
    match op
    case CreateAt(d, name, size, scratch) => if size < TWO32 then CreateIn(t, cb, d, name, size, scratch).t else t
    case MkdirAt(d, name) => MkdirIn(t, cb, d, name).t
    case WriteAt(d, name, buf) => WriteIn(t, cb, d, name, buf).t
    case RemoveAt(d, name) =>
      if RemoveFile(v, name).Some? then Back(t, d, RemoveFile(v, name).value) else t
  }

  lemma TreeAfterGood(t: Tree, cb: nat, chains: map<Key, seq<nat>>, op: TreeOp) returns (chains': map<Key, seq<nat>>)
    requires TreeGood(t, cb, chains) && Allowed(t, cb, op)
    ensures Usable(t, cb, op.d) && TreeGood(TreeAfter(t, cb, op), cb, chains')
  {
    hide TreeFiles, Slots, Back, TreeGood, TreeKept, FirstMatch, Items, ItemSound, CreateIn, RemoveItem, MkdirIn,
         WriteIn, Shaped, DirKey, IsDirEntry, Entries, NextFit, Tidy, TidyWrite, Usable, RoomFor, FreeSet;
    GoodUsable(t, cb, chains, op.d);
    chains' := chains;
    match op {
      case CreateAt(d, name, size, scratch) =>
        if size < TWO32 {
          var k;
          k, chains' := CreateInKeeps(t, cb, chains, d, name, size, scratch);
        }
      case MkdirAt(d, name) =>
        var k;
        k, chains' := MkdirTreeKeeps(t, cb, chains, d, name);
      case WriteAt(d, name, buf) =>
        var k;
        k, chains' := WriteInMeans(t, cb, chains, d, name, buf);
      case RemoveAt(d, name) =>
        LookupSound(Slots(t, d), name);
        var found := FirstMatch(Items(Slots(t, d)), name);
        if found.Some? {
          RemoveTreeKeeps(t, cb, chains, d, found.value);
          chains' := chains - {(d, found.value.idx)};
        }
    }
  }

  /** `t'` is where the calls `ops` lead from `t`. */
  ghost predicate TreeReaches(t: Tree, cb: nat, ops: seq<TreeOp>, t': Tree)
    decreases ops
  {
    if ops == [] then t' == t
    else Allowed(t, cb, ops[0]) && Usable(t, cb, ops[0].d) && TreeReaches(TreeAfter(t, cb, ops[0]), cb, ops[1..], t')
  }

  /** Every run of creates, mkdirs, writes and file removals in the directories of a tree, failing ones and
      ones that make a directory grow included, keeps the tree good. */
  lemma {:induction false} TreeRunsStayGood(t: Tree, cb: nat, chains: map<Key, seq<nat>>, ops: seq<TreeOp>, t': Tree)
    requires TreeGood(t, cb, chains) && TreeReaches(t, cb, ops, t')
    ensures exists chains' :: TreeGood(t', cb, chains')
    decreases ops
  {
    if ops != [] {
      hide TreeGood, TreeAfter, Usable, Allowed;
      var chains1 := TreeAfterGood(t, cb, chains, ops[0]);
      TreeRunsStayGood(TreeAfter(t, cb, ops[0]), cb, chains1, ops[1..], t');
    }
  }

  /** A good volume with nothing in it is a good tree. */
  lemma EmptyTreeGood(v: Vol, cb: nat)
    requires cb >= 512 && Good(v, cb, map[])
    ensures TreeGood(Tree(v.store, v.root, map[]), cb, map[])
  {
    hide ZeroSuffix, Unique;
    var t := Tree(v.store, v.root, map[]);
    assert Files(v.root) == map[];
    forall k: Key
      ensures k !in TreeFiles(t)
    {
      KeyOf(t, k);
    }
    assert TreeFiles(t) == map[];
  }
}
