/** Disks shorter than their table: what a caller checks so that an operation touches only clusters
    that exist, and what every run of such operations keeps. */
module FatBacking {
  import opened Bytes
  import opened FatChains
  import opened FatFiles
  import opened FatDisk
  import opened FatLfn
  import opened FatDir
  import opened FatNames
  import opened FatRoot
  import opened FatRuns
  import opened FatLookup
  import opened FatEngine

  /** The next search starts on the disk or at its end. */
  ghost predicate HintBelow(v: Store, limit: nat) {
    2 <= limit <= |v.fat| && SearchStart(v.fat, v.hint) <= limit
  }

  /** Overwriting is backed when the free entries are ample beforehand: what the release frees can
      only add to them. */
  lemma OverwriteAmple(v: Vol, cb: nat, chains: map<nat, seq<nat>>, item: Item, n: nat, limit: nat)
    requires Good(v, cb, chains) && ItemSound(v.root, item) && ChainsBelow(chains, limit) && HintBelow(v.store, limit)
    requires Ample(v.store.fat, v.store.hint, limit, ClustersFor(n, cb))
    ensures ItemBacked(v, cb, item, n, limit)
  {
    hide Unique, ZeroSuffix, Files, Visit, Released, Ample, Safe, ClustersFor, LinksInside, StartsInside, IsChain;
    var first := Le16(item.entry, 26);
    FilesAt(v.root, item.idx);
    SoundLinks(v.store.fat, Files(v.root), chains);
    SoundChain(v.store.fat, Files(v.root), chains, item.idx);
    ReleaseSound(v.store, cb, Files(v.root), chains, item.idx);
    VisitChain(v.store.fat, chains[item.idx]);
    var fat := Released(v.store, first).fat;
    AmpleGrows(v.store.fat, fat, v.store.hint, limit, ClustersFor(n, cb));
    SafeExactly(fat, v.store.hint, limit, ClustersFor(n, cb));
  }

  // ---------------------------------------------------------------- writing under a name

  /** How often `fat16_write_file` tries to create the file before it finds it. */
  ghost function Creates(v: Vol, cb: nat, name: seq<byte>): (n: nat)
    requires cb > 0 && cb % 512 == 0 && WellFormed(v.store, cb) && ZeroSuffix(v.root) && Unique(v.root)
    ensures n <= |FreeSlots(v.root)|
    decreases |FreeSlots(v.root)|
  {
    if FirstMatch(Items(v.root), name).Some? || FindSpot(v.root, name).None? then 0
    else
      SpotIsFree(v.root, name);
      match CreateFile(v, cb, name, 0, NoScratch)
      case None => 1
      case Some(u) =>
        CreateShrinks(v, cb, name, 0, NoScratch);
        AddEntryMeans(v, cb, name, ATTR_FILE, CreateCount(0, cb), 0, NoScratch);
        1 + Creates(u, cb, name)
  }

  /** A name that lookup can find again is created once at most, and not at all when it is there. */
  lemma CreatesOnce(v: Vol, cb: nat, name: seq<byte>)
    requires cb > 0 && cb % 512 == 0 && WellFormed(v.store, cb) && ZeroSuffix(v.root) && Unique(v.root)
    requires Findable(name)
    ensures Creates(v, cb, name) <= if FirstMatch(Items(v.root), name).Some? then 0 else 1
  {
    hide FindSpot, Items, Unique, ZeroSuffix, Findable, CreateFile, FreeSlots, Added;
    var made := CreateFile(v, cb, name, 0, NoScratch);
    if made.Some? { CreatedFound(v, cb, name); }
  }

  lemma CreatedFound(v: Vol, cb: nat, name: seq<byte>)
    requires cb > 0 && WellFormed(v.store, cb) && ZeroSuffix(v.root)
    requires Findable(name)
    requires CreateFile(v, cb, name, 0, NoScratch).Some?
    ensures FirstMatch(Items(CreateFile(v, cb, name, 0, NoScratch).value.root), name).Some?
  {
    hide FindSpot, Items, Unique, ZeroSuffix, Place, Findable, Reserve, Taken, FirstMatch, Written;
    SpotMeans(v.root, name);
    var s, cs := FindSpot(v.root, name).value, Reserve(v.store, cb, CreateCount(0, cb), 0, NoScratch).1;
    EntryLive(s.short, cs[0]);
    CreatedIsFound(v.root, name, ShortEntry(s.short, ATTR_FILE, cs[0], 0));
  }

  lemma EntryLive(short: Short, first: nat)
    requires first < EOC && short[0] != 0 && short[0] != DELETED
    ensures IsLive(ShortEntry(short, ATTR_FILE, first, 0))
  {
    var e := ShortEntry(short, ATTR_FILE, first, 0);
    assert e[0] == e[..11][0];
  }

  lemma SpotIsFree(root: seq<Slot>, name: seq<byte>)
    requires FindSpot(root, name).Some? && ZeroSuffix(root)
    ensures |FreeSlots(root)| >= 1
  {
    hide FindSpot;
    SpotMeans(root, name);
    var s := FindSpot(root, name).value;
    assert s.at in FreeSlots(root);
  }

  /** A successful create of an empty file takes the next cluster, on the disk. */
  lemma CreateStep(v: Vol, cb: nat, chains: map<nat, seq<nat>>, name: seq<byte>, limit: nat, m: nat)
    returns (chains': map<nat, seq<nat>>)
    requires Good(v, cb, chains) && ChainsBelow(chains, limit) && HintBelow(v.store, limit)
    requires m > 0 && Safe(v.store.fat, v.store.hint, limit, m)
    ensures var r := CreateFile(v, cb, name, 0, NoScratch);
            r.Some? ==>
              && Good(r.value, cb, chains') && ChainsBelow(chains', limit) && HintBelow(r.value.store, limit)
              && Safe(r.value.store.fat, r.value.store.hint, limit, m - 1)
  {
    hide FindSpot, Place, Sound, Unique, ZeroSuffix, Kept, Files, ShortEntry, NextFit, Safe, CreateCount;
    CreateEmpty(cb);
    var k, cs := AddEntryGood(v, cb, chains, name, ATTR_FILE, 1, 0, NoScratch);
    chains' := chains[k := cs];
    ReserveOne(v.store, cb, NoScratch);
    var c := NextFit(v.store.fat, v.store.hint);
    if CreateFile(v, cb, name, 0, NoScratch).Some? {
      TakeOne(v.store, cb, limit, m);
      assert Reserve(v.store, cb, 1, 0, NoScratch).0 == ReserveTurn(v.store, cb, 0, NoScratch);
    }
  }

  lemma TakeOne(v: Store, cb: nat, limit: nat, m: nat)
    requires WellFormed(v, cb) && HintBelow(v, limit) && m > 0 && Safe(v.fat, v.hint, limit, m)
    requires NextFit(v.fat, v.hint) != 0
    ensures NextFit(v.fat, v.hint) < limit
    ensures var u := ReserveTurn(v, cb, 0, NoScratch);
            HintBelow(u, limit) && Safe(u.fat, u.hint, limit, m - 1)
    ensures Reserve(v, cb, 1, 0, NoScratch).0 == ReserveTurn(v, cb, 0, NoScratch)
  {
    hide NextFit;
    NextFitExhaustive(v.fat, v.hint);
    ReserveTurnSafe(v, cb, 0, NoScratch, limit, m);
    var u := ReserveTurn(v, cb, 0, NoScratch);
    assert Reserve(u, cb, 0, NextFit(v.fat, v.hint), NoScratch).0 == u;
  }

  /** A write is backed when as many clusters are safe as its creates and its bytes take. */
  lemma {:induction false} WriteSafe(v: Vol, cb: nat, chains: map<nat, seq<nat>>, name: seq<byte>, n: nat, limit: nat)
    requires Good(v, cb, chains) && ChainsBelow(chains, limit) && HintBelow(v.store, limit)
    requires Safe(v.store.fat, v.store.hint, limit, Creates(v, cb, name) + ClustersFor(n, cb))
    ensures WriteBacked(v, cb, name, n, limit)
    decreases |FreeSlots(v.root)|
  {
    hide Unique, ZeroSuffix, Items, FindSpot, CreateFile, Sound, FreeSlots, ItemBacked, ItemSound, Safe, ClustersFor,
         HintBelow, ChainsBelow, Creates, WriteBacked, CreateBacked;
    LookupSound(v.root, name);
    HintLimits(v.store, limit);
    var need := ClustersFor(n, cb);
    match FirstMatch(Items(v.root), name) {
      case Some(item) =>
        SafeFewer(v.store.fat, v.store.hint, limit, Creates(v, cb, name) + need, need);
        SafeExactly(v.store.fat, v.store.hint, limit, need);
        OverwriteAmple(v, cb, chains, item, n, limit);
        BackedFound(v, cb, name, n, limit);
      case None =>
        CreatesStep(v, cb, name);
        if FindSpot(v.root, name).Some? {
          SafeFewer(v.store.fat, v.store.hint, limit, Creates(v, cb, name) + need, 1);
          var chains' := CreateStep(v, cb, chains, name, limit, Creates(v, cb, name) + need);
          var made := CreateFile(v, cb, name, 0, NoScratch);
          if made.Some? { WriteSafe(made.value, cb, chains', name, n, limit); }
        }
        BackedStep(v, cb, name, n, limit);
    }
  }

  lemma BackedFound(v: Vol, cb: nat, name: seq<byte>, n: nat, limit: nat)
    requires cb > 0 && cb % 512 == 0 && WellFormed(v.store, cb) && ZeroSuffix(v.root) && Unique(v.root)
    requires FirstMatch(Items(v.root), name).Some?
    requires ItemBacked(v, cb, FirstMatch(Items(v.root), name).value, n, limit)
    ensures WriteBacked(v, cb, name, n, limit)
  {
    hide Unique, ZeroSuffix, Items, ItemBacked;
  }

  lemma BackedStep(v: Vol, cb: nat, name: seq<byte>, n: nat, limit: nat)
    requires cb > 0 && cb % 512 == 0 && WellFormed(v.store, cb) && ZeroSuffix(v.root) && Unique(v.root)
    requires FirstMatch(Items(v.root), name).None?
    requires FindSpot(v.root, name).Some? ==>
               && Safe(v.store.fat, v.store.hint, limit, 1)
               && var made := CreateFile(v, cb, name, 0, NoScratch);
                  made.Some? ==>
                    && WellFormed(made.value.store, cb) && ZeroSuffix(made.value.root) && Unique(made.value.root)
                    && WriteBacked(made.value, cb, name, n, limit)
    ensures WriteBacked(v, cb, name, n, limit)
  {
    hide Unique, ZeroSuffix, Items, ItemBacked, FindSpot, CreateFile, Safe, FreeSlots;
    if FindSpot(v.root, name).None? { NoSpotNoFile(v, cb, name); }
  }

  lemma CreatesStep(v: Vol, cb: nat, name: seq<byte>)
    requires cb > 0 && cb % 512 == 0 && WellFormed(v.store, cb) && ZeroSuffix(v.root) && Unique(v.root)
    requires FirstMatch(Items(v.root), name).None?
    ensures FindSpot(v.root, name).Some? ==> Creates(v, cb, name) >= 1
    ensures var made := CreateFile(v, cb, name, 0, NoScratch);
            FindSpot(v.root, name).Some? && made.Some? ==>
              && WellFormed(made.value.store, cb) && ZeroSuffix(made.value.root) && Unique(made.value.root)
              && |FreeSlots(made.value.root)| < |FreeSlots(v.root)|
              && Creates(v, cb, name) == 1 + Creates(made.value, cb, name)
  {
    hide Unique, ZeroSuffix, Items, FindSpot, CreateFile, FreeSlots;
    if FindSpot(v.root, name).Some? && CreateFile(v, cb, name, 0, NoScratch).Some? {
      CreateShrinks(v, cb, name, 0, NoScratch);
      CreatedFormed(v, cb, name);
    }
  }

  lemma CreatedFormed(v: Vol, cb: nat, name: seq<byte>)
    requires cb > 0 && WellFormed(v.store, cb) && ZeroSuffix(v.root) && Unique(v.root)
    requires CreateFile(v, cb, name, 0, NoScratch).Some?
    ensures var u := CreateFile(v, cb, name, 0, NoScratch).value; ZeroSuffix(u.root) && Unique(u.root)
  {
    hide Unique, ZeroSuffix, AddEntry, Added;
    AddEntryMeans(v, cb, name, ATTR_FILE, CreateCount(0, cb), 0, NoScratch);
  }

  lemma HintLimits(v: Store, limit: nat)
    requires HintBelow(v, limit)
    ensures 2 <= limit <= |v.fat| && SearchStart(v.fat, v.hint) <= limit
  {
  }

  lemma NoSpotNoFile(v: Vol, cb: nat, name: seq<byte>)
    requires cb > 0 && WellFormed(v.store, cb) && FindSpot(v.root, name).None?
    ensures CreateFile(v, cb, name, 0, NoScratch).None?
  {
  }

  // ---------------------------------------------------------------- runs

  ghost predicate OpBacked(v: Vol, cb: nat, op: Op, limit: nat)
    requires Runnable(v, cb)
  {
    match op
    case Create(name, size, _) => CreateBacked(v, name, CreateCount(size, cb), limit)
    case MakeDir(name) => CreateBacked(v, name, 1, limit)
    case Write(name, buf) => WriteBacked(v, cb, name, |buf|, limit)
    case Remove(_) => true
  }

  lemma {:induction false} WriteKeepsBelow(v: Vol, cb: nat, chains: map<nat, seq<nat>>, name: seq<byte>,
                                           buf: seq<byte>, limit: nat)
    returns (chains': map<nat, seq<nat>>)
    requires Good(v, cb, chains) && ChainsBelow(chains, limit) && WriteBacked(v, cb, name, |buf|, limit)
    ensures Good(FileAfter(v, cb, name, buf), cb, chains') && ChainsBelow(chains', limit)
    decreases |FreeSlots(v.root)|
  {
    hide Unique, ZeroSuffix, Items, FindSpot, CreateFile, Sound, FreeSlots, ItemSound, ItemAfter, Kept, Files,
         ItemBacked, CreateBacked, WriteFile;
    LookupSound(v.root, name);
    chains' := chains;
    match FirstMatch(Items(v.root), name) {
      case Some(item) => chains' := ItemKeepsBelow(v, cb, chains, item, buf, limit);
      case None =>
        var made := CreateFile(v, cb, name, 0, NoScratch);
        if made.Some? {
          WriteFileRetries(v, cb, name, buf, made.value);
          var chains1 := EmptyKeepsBelow(v, cb, chains, name, limit);
          chains' := WriteKeepsBelow(made.value, cb, chains1, name, buf, limit);
        }
    }
  }

  lemma ItemKeepsBelow(v: Vol, cb: nat, chains: map<nat, seq<nat>>, item: Item, buf: seq<byte>, limit: nat)
    returns (chains': map<nat, seq<nat>>)
    requires Good(v, cb, chains) && ItemSound(v.root, item) && ChainsBelow(chains, limit)
    requires ItemBacked(v, cb, item, |buf|, limit)
    ensures Good(ItemAfter(v, cb, item, buf), cb, chains') && ChainsBelow(chains', limit)
  {
    hide Unique, ZeroSuffix, Sound, Kept, ReadsAs, Files, Append, Released, Safe, ClustersFor, LinksInside,
         StartsInside, LeftOver, FreeSet, Visit;
    chains' := chains;
    if |buf| < TWO32 && !IsDirEntry(item.entry) {
      FilesAt(v.root, item.idx);
      ReleaseSound(v.store, cb, Files(v.root), chains, item.idx);
      var first := Le16(item.entry, 26);
      AppendBelow(Released(v.store, first), cb, buf, 0, limit);
      if WriteItem(v, cb, item, buf).Some? {
        var cs := WriteItemMeans(v, cb, chains, item, buf);
        chains' := chains[item.idx := cs];
      } else {
        var cs := FailedItemMeans(v, cb, chains, item, buf);
        chains' := chains[item.idx := cs];
        LeftOverBelow(first, Overwrite(v.store, cb, first, buf).cs, limit);
      }
    }
  }

  lemma LeftOverBelow(first: nat, taken: seq<nat>, limit: nat)
    requires Below(taken, limit)
    ensures Below(LeftOver(first, taken), limit)
  {
    hide From;
    var cs := LeftOver(first, taken);
    forall i | 0 <= i < |cs|
      ensures cs[i] < limit
    {
      assert cs[i] in cs && cs[i] in taken;
    }
  }

  lemma EmptyKeepsBelow(v: Vol, cb: nat, chains: map<nat, seq<nat>>, name: seq<byte>, limit: nat)
    returns (chains': map<nat, seq<nat>>)
    requires Good(v, cb, chains) && ChainsBelow(chains, limit) && CreateBacked(v, name, 1, limit)
    ensures var r := CreateFile(v, cb, name, 0, NoScratch);
            r.Some? ==> Good(r.value, cb, chains') && ChainsBelow(chains', limit)
  {
    hide AddEntry, Good, Files, Kept, CreateCount, CreateBacked;
    GoodBlocks(v, cb, chains);
    CreateEmpty(cb);
    var k;
    k, chains' := AddKeepsBelow(v, cb, chains, name, ATTR_FILE, 1, 0, NoScratch, limit);
  }

  lemma GoodBlocks(v: Vol, cb: nat, chains: map<nat, seq<nat>>)
    requires Good(v, cb, chains)
    ensures cb > 0 && WellFormed(v.store, cb)
  {
  }

  lemma AddKeepsBelow(v: Vol, cb: nat, chains: map<nat, seq<nat>>, name: seq<byte>, attr: byte, n: nat, size: nat,
                      scratch: nat -> bool, limit: nat) returns (k: nat, chains': map<nat, seq<nat>>)
    requires Good(v, cb, chains) && ChainsBelow(chains, limit) && size < TWO32 && attr != LFN_ATTR
    requires WellFormed(v.store, cb) && CreateBacked(v, name, n, limit)
    ensures var r := AddEntry(v, cb, name, attr, n, size, scratch);
            r.Some? ==> Good(r.value, cb, chains') && ChainsBelow(chains', limit)
  {
    hide Sound, Unique, ZeroSuffix, Files, Kept, FindSpot, Place, ShortEntry, Reserve, Safe;
    var cs;
    k, cs := AddEntryGood(v, cb, chains, name, attr, n, size, scratch);
    chains' := chains[k := cs];
    if AddEntry(v, cb, name, attr, n, size, scratch).Some? {
      ReserveBelow(v.store, cb, n, 0, scratch, limit);
    }
  }

  lemma AfterKeepsBelow(v: Vol, cb: nat, chains: map<nat, seq<nat>>, op: Op, limit: nat)
    returns (chains': map<nat, seq<nat>>)
    requires cb >= 512 && Good(v, cb, chains) && ChainsBelow(chains, limit) && OpBacked(v, cb, op, limit)
    ensures Good(After(v, cb, op), cb, chains') && ChainsBelow(chains', limit)
  {
    hide Sound, Files, Unique, ZeroSuffix, Items, Kept, ReadsAs, Mkdir, WriteFile, FileAfter, AddEntry, CreateBacked,
         WriteBacked;
    chains' := chains;
    match op {
      case Create(name, size, scratch) =>
        if size < TWO32 && CreateFile(v, cb, name, size, scratch).Some? {
          var k;
          k, chains' := AddKeepsBelow(v, cb, chains, name, ATTR_FILE, CreateCount(size, cb), size, scratch, limit);
        }
      case MakeDir(name) =>
        if Mkdir(v, cb, name).Some? { chains' := MkdirKeepsBelow(v, cb, chains, name, limit); }
      case Write(name, buf) => chains' := WriteKeepsBelow(v, cb, chains, name, buf, limit);
      case Remove(name) =>
        LookupSound(v.root, name);
        var found := FirstMatch(Items(v.root), name);
        if found.Some? {
          RemoveItemMeans(v, cb, chains, found.value);
          chains' := chains - {found.value.idx};
        }
    }
  }

  lemma MkdirKeepsBelow(v: Vol, cb: nat, chains: map<nat, seq<nat>>, name: seq<byte>, limit: nat)
    returns (chains': map<nat, seq<nat>>)
    requires cb >= 512 && Good(v, cb, chains) && ChainsBelow(chains, limit) && CreateBacked(v, name, 1, limit)
    ensures var r := Mkdir(v, cb, name); r.Some? ==> Good(r.value, cb, chains') && ChainsBelow(chains', limit)
  {
    hide Sound, Files, Unique, ZeroSuffix, Kept, FindSpot, Place, ShortEntry, Reserve, NextFit, Safe, DirBlock;
    var k, cs := MkdirGood(v, cb, chains, name);
    chains' := chains[k := cs];
    if Mkdir(v, cb, name).Some? {
      AddEntryTook(v, cb, name);
      SafeFirst(v.store.fat, v.store.hint, limit);
    }
  }

  /** `v'` is where the calls `ops` lead from `v`, each backed when it is made. */
  ghost predicate ReachesBacked(v: Vol, cb: nat, ops: seq<Op>, limit: nat, v': Vol)
    decreases ops
  {
    if ops == [] then v' == v
    else
      && Runnable(v, cb) && OpBacked(v, cb, ops[0], limit)
      && ReachesBacked(After(v, cb, ops[0]), cb, ops[1..], limit, v')
  }

  /** Over every such run the volume stays good and every file stays on the disk. */
  lemma {:induction false} RunsStayBacked(v: Vol, cb: nat, chains: map<nat, seq<nat>>, ops: seq<Op>, limit: nat,
                                          v': Vol)
    requires cb >= 512 && Good(v, cb, chains) && ChainsBelow(chains, limit) && ReachesBacked(v, cb, ops, limit, v')
    ensures exists chains' :: Good(v', cb, chains') && ChainsBelow(chains', limit)
    decreases ops
  {
    if ops != [] {
      hide Good, ChainsBelow, After, OpBacked;
      var chains1 := AfterKeepsBelow(v, cb, chains, ops[0], limit);
      RunsStayBacked(After(v, cb, ops[0]), cb, chains1, ops[1..], limit, v');
    }
  }
}
