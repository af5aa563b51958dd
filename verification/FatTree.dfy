/** A tree of directories. A directory other than the root keeps its slots in the clusters of its own
    chain; what an operation on those slots changes, and what a good tree is. */
module FatTree {
  import opened Bytes
  import opened Arith
  import opened FatChains
  import opened FatFiles
  import opened FatDisk
  import opened FatLfn
  import opened FatDir
  import opened FatNames
  import opened FatRoot
  import opened FatRuns

  // ---------------------------------------------------------------- slots in clusters

  /** The 32-byte slots of a block. */
  function BlockSlots(block: seq<byte>): (r: seq<Slot>)
    ensures |r| == |block| / 32 && forall i :: 0 <= i < |r| ==> r[i] == block[32 * i..32 * i + 32]
  {
    seq(|block| / 32, i requires 0 <= i < |block| / 32 => block[32 * i..32 * i + 32])
  }

  function BlockOf(slots: seq<Slot>): (r: seq<byte>)
    ensures |r| == 32 * |slots|
  {
    if slots == [] then [] else BlockOf(slots[..|slots| - 1]) + slots[|slots| - 1]
  }

  lemma {:induction false} BlockOfAt(slots: seq<Slot>, i: nat)
    requires i < |slots|
    ensures BlockOf(slots)[32 * i..32 * i + 32] == slots[i]
  {
    var init := slots[..|slots| - 1];
    if i < |slots| - 1 {
      BlockOfAt(init, i);
      assert BlockOf(slots)[32 * i..32 * i + 32] == BlockOf(init)[32 * i..32 * i + 32];
    }
  }

  lemma BlockRoundTrip(slots: seq<Slot>)
    ensures BlockSlots(BlockOf(slots)) == slots
  {
    forall i | 0 <= i < |slots|
      ensures BlockSlots(BlockOf(slots))[i] == slots[i]
    {
      BlockOfAt(slots, i);
    }
  }

  ghost predicate InData(data: seq<seq<byte>>, ds: seq<nat>) { forall i :: 0 <= i < |ds| ==> ds[i] < |data| }

  /** The slots of a directory, cluster by cluster. */
  ghost function DirSlots(data: seq<seq<byte>>, ds: seq<nat>): (r: seq<Slot>)
    requires InData(data, ds)
  {
    if ds == [] then [] else BlockSlots(data[ds[0]]) + DirSlots(data, ds[1..])
  }

  /** The clusters rewritten to hold `slots`. */
  ghost function PutDir(data: seq<seq<byte>>, ds: seq<nat>, slots: seq<Slot>): (r: seq<seq<byte>>)
    requires InData(data, ds) && |slots| == |DirSlots(data, ds)|
    ensures |r| == |data| && forall c :: 0 <= c < |data| && c !in ds ==> r[c] == data[c]
  {
    if ds == [] then data
    else
      var n := |data[ds[0]]| / 32;
      PutDir(data, ds[1..], slots[n..])[ds[0] := BlockOf(slots[..n])]
  }

  lemma {:induction false} DirSlotsFrame(data: seq<seq<byte>>, data': seq<seq<byte>>, ds: seq<nat>)
    requires InData(data, ds) && |data'| == |data| && forall i :: 0 <= i < |ds| ==> data'[ds[i]] == data[ds[i]]
    ensures DirSlots(data', ds) == DirSlots(data, ds)
  {
    if ds != [] {
      assert data'[ds[0]] == data[ds[0]];
      var t := ds[1..];
      assert forall i :: 0 <= i < |t| ==> t[i] == ds[i + 1];
      DirSlotsFrame(data, data', t);
    }
  }

  ghost predicate WholeSlots(data: seq<seq<byte>>) { forall c :: 0 <= c < |data| ==> |data[c]| % 32 == 0 }

  /** Blocks keep their size. */
  lemma {:induction false} PutSizes(data: seq<seq<byte>>, ds: seq<nat>, slots: seq<Slot>)
    requires InData(data, ds) && |slots| == |DirSlots(data, ds)| && WholeSlots(data)
    ensures forall c :: 0 <= c < |data| ==> |PutDir(data, ds, slots)[c]| == |data[c]|
  {
    if ds != [] {
      hide DirSlots;
      DirSlotsStep(data, ds);
      PutSizes(data, ds[1..], slots[|data[ds[0]]| / 32..]);
    }
  }

  lemma DirSlotsStep(data: seq<seq<byte>>, ds: seq<nat>)
    requires InData(data, ds) && ds != []
    ensures InData(data, ds[1..]) && DirSlots(data, ds) == BlockSlots(data[ds[0]]) + DirSlots(data, ds[1..])
    ensures |DirSlots(data, ds)| == |data[ds[0]]| / 32 + |DirSlots(data, ds[1..])|
  {
  }

  lemma PutDirStep(data: seq<seq<byte>>, ds: seq<nat>, slots: seq<Slot>)
    requires InData(data, ds) && ds != [] && |slots| == |DirSlots(data, ds)|
    ensures var n := |data[ds[0]]| / 32;
            && InData(data, ds[1..]) && n <= |slots| && |slots[n..]| == |DirSlots(data, ds[1..])|
            && PutDir(data, ds, slots) == PutDir(data, ds[1..], slots[n..])[ds[0] := BlockOf(slots[..n])]
  {
    hide BlockOf;
    DirSlotsStep(data, ds);
  }

  lemma InDataMoves(data: seq<seq<byte>>, data': seq<seq<byte>>, ds: seq<nat>)
    requires InData(data, ds) && |data'| == |data|
    ensures InData(data', ds)
  {
  }

  /** What is put is what is read. */
  lemma {:induction false} PutGet(data: seq<seq<byte>>, ds: seq<nat>, slots: seq<Slot>)
    requires InData(data, ds) && |slots| == |DirSlots(data, ds)| && Distinct(ds)
    ensures InData(PutDir(data, ds, slots), ds) && DirSlots(PutDir(data, ds, slots), ds) == slots
  {
    hide DirSlots, PutDir, Distinct, InData;
    InDataMoves(data, PutDir(data, ds, slots), ds);
    if ds == [] {
      PutNothing(data, slots);
    } else {
      PutDirStep(data, ds, slots);
      TailDistinct(ds);
      PutGet(data, ds[1..], slots[|data[ds[0]]| / 32..]);
      PutMore(data, ds, slots, |data[ds[0]]| / 32);
    }
  }

  lemma PutNothing(data: seq<seq<byte>>, slots: seq<Slot>)
    requires InData(data, []) && |slots| == |DirSlots(data, [])|
    ensures InData(PutDir(data, [], slots), []) && DirSlots(PutDir(data, [], slots), []) == slots
  {
  }

  lemma PutMore(data: seq<seq<byte>>, ds: seq<nat>, slots: seq<Slot>, n: nat)
    requires ds != [] && InData(data, ds) && InData(data, ds[1..]) && |slots| == |DirSlots(data, ds)| && n <= |slots|
    requires |slots[n..]| == |DirSlots(data, ds[1..])|
    requires forall i :: 0 <= i < |ds[1..]| ==> ds[1..][i] != ds[0]
    requires var rest := PutDir(data, ds[1..], slots[n..]);
             && InData(rest, ds[1..]) && DirSlots(rest, ds[1..]) == slots[n..]
             && PutDir(data, ds, slots) == rest[ds[0] := BlockOf(slots[..n])]
    ensures InData(PutDir(data, ds, slots), ds) && DirSlots(PutDir(data, ds, slots), ds) == slots
  {
    hide DirSlots, BlockSlots, BlockOf, PutDir, InData;
    var front, back := slots[..n], slots[n..];
    var rest := PutDir(data, ds[1..], back);
    InDataMoves(data, rest, ds);
    InDataMoves(data, PutDir(data, ds, slots), ds);
    BlockRoundTrip(front);
    PutJoin(rest, ds, BlockOf(front), front, back);
    assert slots == front + back;
  }

  /** A block in front of a directory already in place. */
  lemma PutJoin(rest: seq<seq<byte>>, ds: seq<nat>, block: seq<byte>, front: seq<Slot>, back: seq<Slot>)
    requires InData(rest, ds) && ds != [] && BlockSlots(block) == front
    requires InData(rest, ds[1..]) && DirSlots(rest, ds[1..]) == back
    requires forall i :: 0 <= i < |ds[1..]| ==> ds[1..][i] != ds[0]
    ensures DirSlots(rest[ds[0] := block], ds) == front + back
  {
    hide DirSlots, BlockSlots;
    var all := rest[ds[0] := block];
    DirSlotsStep(all, ds);
    DirSlotsFrame(rest, all, ds[1..]);
  }

  lemma TailDistinct(ds: seq<nat>)
    requires Distinct(ds) && ds != []
    ensures Distinct(ds[1..]) && forall i :: 0 <= i < |ds[1..]| ==> ds[1..][i] != ds[0]
  {
    assert forall i :: 0 <= i < |ds[1..]| ==> ds[1..][i] == ds[i + 1];
  }

  // ---------------------------------------------------------------- trees

  /** A volume and its directories: for each, by first cluster, the clusters its slots are in. */
  datatype Tree = Tree(store: Store, root: seq<Slot>, dirs: map<nat, seq<nat>>)

  ghost predicate IsDir(t: Tree, d: nat) { d == 0 || d in t.dirs }

  /** The slots of a directory; 0 is the root, as in `fat16_resolve_dir`. */
  ghost function Slots(t: Tree, d: nat): (r: seq<Slot>) {
    if d == 0 then t.root
    else if d in t.dirs && InData(t.store.data, t.dirs[d]) then DirSlots(t.store.data, t.dirs[d])
    else []
  }

  /** Directory `d` as an operation on a fixed root sees it. */
  ghost function In(t: Tree, d: nat): (v: Vol) { Vol(t.store, Slots(t, d)) }

  /** The tree after such an operation: its slots go back to the root or to the directory's clusters. */
  ghost function Back(t: Tree, d: nat, u: Vol): (r: Tree) {
    if d == 0 then t.(store := u.store, root := u.root)
    else if d in t.dirs && InData(u.store.data, t.dirs[d]) && |u.root| == |DirSlots(u.store.data, t.dirs[d])|
    then t.(store := u.store.(data := PutDir(u.store.data, t.dirs[d], u.root)))
    else t
  }

  /** Directories lie in the data region, no two in the same cluster. */
  ghost predicate Shaped(t: Tree, cb: nat) {
    && cb >= 512 && cb % 512 == 0 && WellFormed(t.store, cb) && 0 !in t.dirs
    && (forall d :: d in t.dirs ==> InData(t.store.data, t.dirs[d]) && Distinct(t.dirs[d]))
    && (forall d, e :: d in t.dirs && e in t.dirs && d != e ==> Disjoint(t.dirs[d], t.dirs[e]))
  }

  /** `data` still holds every directory of `t`. */
  ghost predicate DirsKept(t: Tree, data: seq<seq<byte>>) {
    && |data| == |t.store.data|
    && forall d, c :: d in t.dirs && c in t.dirs[d] && c < |data| ==> data[c] == t.store.data[c]
  }

  lemma KeptSlots(t: Tree, cb: nat, data: seq<seq<byte>>, d: nat)
    requires Shaped(t, cb) && d in t.dirs && DirsKept(t, data)
    ensures InData(data, t.dirs[d]) && DirSlots(data, t.dirs[d]) == Slots(t, d)
  {
    var ds := t.dirs[d];
    forall i | 0 <= i < |ds|
      ensures data[ds[i]] == t.store.data[ds[i]]
    {
      assert ds[i] in ds;
    }
    DirSlotsFrame(t.store.data, data, ds);
  }

  lemma BackInDir(t: Tree, cb: nat, d: nat, u: Vol)
    requires Shaped(t, cb) && d in t.dirs && WellFormed(u.store, cb)
    requires DirsKept(t, u.store.data) && |u.root| == |Slots(t, d)|
    ensures var t' := Back(t, d, u);
            && t'.dirs == t.dirs && t'.root == t.root && t'.store == u.store.(data := t'.store.data)
            && WellFormed(t'.store, cb) && Slots(t', d) == u.root
            && (forall c :: 0 <= c < |u.store.data| && c !in t.dirs[d] ==> t'.store.data[c] == u.store.data[c])
  {
    hide DirSlots, PutDir;
    KeptSlots(t, cb, u.store.data, d);
    PutGet(u.store.data, t.dirs[d], u.root);
    BlocksWhole(u.store, cb);
    PutSizes(u.store.data, t.dirs[d], u.root);
  }

  lemma BlocksWhole(v: Store, cb: nat)
    requires WellFormed(v, cb) && cb % 512 == 0
    ensures WholeSlots(v.data)
  {
  }

  lemma BackElsewhere(t: Tree, cb: nat, d: nat, u: Vol, e: nat)
    requires Shaped(t, cb) && d in t.dirs && WellFormed(u.store, cb) && e in t.dirs && e != d
    requires DirsKept(t, u.store.data) && |u.root| == |Slots(t, d)|
    ensures Slots(Back(t, d, u), e) == Slots(t, e)
  {
    hide DirSlots, PutDir, Back, Slots;
    BackInDir(t, cb, d, u);
    var data, es := Back(t, d, u).store.data, t.dirs[e];
    KeptSlots(t, cb, u.store.data, e);
    forall i | 0 <= i < |es|
      ensures data[es[i]] == u.store.data[es[i]]
    {
      assert es[i] in es && es[i] !in t.dirs[d];
    }
    DirSlotsFrame(u.store.data, data, es);
    SlotsAre(Back(t, d, u), e);
  }

  lemma SlotsAre(t: Tree, d: nat)
    requires d != 0 && d in t.dirs && InData(t.store.data, t.dirs[d])
    ensures Slots(t, d) == DirSlots(t.store.data, t.dirs[d])
  {
  }

  /** An operation in one directory changes the slots of that directory alone. */
  lemma BackSlots(t: Tree, cb: nat, d: nat, u: Vol)
    requires Shaped(t, cb) && IsDir(t, d) && WellFormed(u.store, cb)
    requires DirsKept(t, u.store.data) && |u.root| == |Slots(t, d)|
    ensures var t' := Back(t, d, u);
            && Shaped(t', cb) && t'.dirs == t.dirs && t'.store.fat == u.store.fat && t'.store.hint == u.store.hint
            && Slots(t', d) == u.root && (forall e :: IsDir(t, e) && e != d ==> Slots(t', e) == Slots(t, e))
            && |t'.store.data| == |u.store.data|
            && (forall c :: 0 <= c < |u.store.data| && (d != 0 ==> c !in t.dirs[d]) ==>
                  t'.store.data[c] == u.store.data[c])
  {
    hide DirSlots, PutDir;
    if d == 0 {
      forall e | e in t.dirs
        ensures Slots(Back(t, d, u), e) == Slots(t, e)
      {
        KeptSlots(t, cb, u.store.data, e);
      }
    } else {
      BackInDir(t, cb, d, u);
      forall e | e in t.dirs && e != d
        ensures Slots(Back(t, d, u), e) == Slots(t, e)
      {
        BackElsewhere(t, cb, d, u, e);
      }
    }
  }

  // ---------------------------------------------------------------- the files of a tree

  /** A file is named by its directory and its slot there. */
  type Key = (nat, nat)

  /** The entries of a directory; a directory other than the root starts with itself and its parent. */
  ghost function Entries(d: nat, slots: seq<Slot>): map<nat, File> {
    if d == 0 then Files(slots) else Files(slots) - {0, 1}
  }

  ghost function TreeFiles(t: Tree): map<Key, File> {
    map d: nat, i: nat | d in t.dirs.Keys + {0} && i in Entries(d, Slots(t, d)) :: (d, i) := Entries(d, Slots(t, d))[i]
  }

  /** The files of a tree with those of directory `d` replaced. */
  ghost function Replaced(files: map<Key, File>, d: nat, entries: map<nat, File>): map<Key, File> {
    (map k | k in files && k.0 != d :: files[k]) + (map i: nat | i in entries :: (d, i) := entries[i])
  }

  lemma KeyOf(t: Tree, k: Key)
    ensures k in TreeFiles(t) <==> IsDir(t, k.0) && k.1 in Entries(k.0, Slots(t, k.0))
    ensures k in TreeFiles(t) ==> TreeFiles(t)[k] == Entries(k.0, Slots(t, k.0))[k.1]
  {
    hide Entries, Slots;
  }

  lemma EntryOf(d: nat, slots: seq<Slot>, i: nat)
    ensures i in Entries(d, slots) <==> i < |slots| && IsLive(slots[i]) && (d == 0 || i >= 2)
    ensures i in Entries(d, slots) ==> Entries(d, slots)[i] == FileOf(slots[i])
  {
    hide FileOf, IsLive;
  }

  lemma ReplacedAt(files: map<Key, File>, d: nat, entries: map<nat, File>, k: Key)
    ensures k in Replaced(files, d, entries) <==> if k.0 == d then k.1 in entries else k in files
    ensures k in Replaced(files, d, entries) ==>
              Replaced(files, d, entries)[k] == if k.0 == d then entries[k.1] else files[k]
  {
    var mine := map i: nat | i in entries :: (d, i) := entries[i];
    assert k in mine <==> k.0 == d && k.1 in entries by {
      if k.0 == d && k.1 in entries { assert k == (d, k.1); }
    }
  }

  /** The two maps agree on every key. */
  ghost predicate SameAt(a: map<Key, File>, b: map<Key, File>, k: Key) {
    (k in a <==> k in b) && (k in a ==> a[k] == b[k])
  }

  lemma SameMaps(a: map<Key, File>, b: map<Key, File>)
    requires forall k: Key :: SameAt(a, b, k)
    ensures a == b
  {
    forall k | k in a
      ensures k in b && a[k] == b[k]
    {
      assert SameAt(a, b, k);
    }
    forall k | k in b
      ensures k in a
    {
      assert SameAt(a, b, k);
    }
  }

  lemma BackFiles(t: Tree, cb: nat, d: nat, u: Vol)
    requires Shaped(t, cb) && IsDir(t, d) && WellFormed(u.store, cb)
    requires DirsKept(t, u.store.data) && |u.root| == |Slots(t, d)|
    ensures TreeFiles(Back(t, d, u)) == Replaced(TreeFiles(t), d, Entries(d, u.root))
  {
    hide Back, Slots, Entries, TreeFiles, Replaced, DirsKept;
    BackSlots(t, cb, d, u);
    FilesElsewhere(t, Back(t, d, u), d);
  }

  lemma FilesElsewhere(t: Tree, t': Tree, d: nat)
    requires IsDir(t, d) && t'.dirs == t.dirs
    requires forall e :: IsDir(t, e) && e != d ==> Slots(t', e) == Slots(t, e)
    ensures TreeFiles(t') == Replaced(TreeFiles(t), d, Entries(d, Slots(t', d)))
  {
    hide Slots, Entries, TreeFiles, Replaced;
    var a, b := TreeFiles(t'), Replaced(TreeFiles(t), d, Entries(d, Slots(t', d)));
    forall k: Key
      ensures SameAt(a, b, k)
    {
      KeyOf(t, k);
      KeyOf(t', k);
      ReplacedAt(TreeFiles(t), d, Entries(d, Slots(t', d)), k);
    }
    SameMaps(a, b);
  }

  lemma ReplacedOne(t: Tree, d: nat, i: nat, f: File)
    requires IsDir(t, d)
    ensures Replaced(TreeFiles(t), d, Entries(d, Slots(t, d))[i := f]) == TreeFiles(t)[(d, i) := f]
  {
    hide Slots, Entries, TreeFiles, Replaced;
    var a, b := Replaced(TreeFiles(t), d, Entries(d, Slots(t, d))[i := f]), TreeFiles(t)[(d, i) := f];
    forall k: Key
      ensures SameAt(a, b, k)
    {
      KeyOf(t, k);
      ReplacedAt(TreeFiles(t), d, Entries(d, Slots(t, d))[i := f], k);
    }
    SameMaps(a, b);
  }

  lemma ReplacedNone(t: Tree, d: nat)
    requires IsDir(t, d)
    ensures Replaced(TreeFiles(t), d, Entries(d, Slots(t, d))) == TreeFiles(t)
  {
    hide Slots, Entries, TreeFiles, Replaced;
    var a, b := Replaced(TreeFiles(t), d, Entries(d, Slots(t, d))), TreeFiles(t);
    forall k: Key
      ensures SameAt(a, b, k)
    {
      KeyOf(t, k);
      ReplacedAt(TreeFiles(t), d, Entries(d, Slots(t, d)), k);
    }
    SameMaps(a, b);
  }

  lemma ReplacedLess(t: Tree, d: nat, i: nat)
    requires IsDir(t, d)
    ensures Replaced(TreeFiles(t), d, Entries(d, Slots(t, d)) - {i}) == TreeFiles(t) - {(d, i)}
  {
    hide Slots, Entries, TreeFiles, Replaced;
    var a, b := Replaced(TreeFiles(t), d, Entries(d, Slots(t, d)) - {i}), TreeFiles(t) - {(d, i)};
    forall k: Key
      ensures SameAt(a, b, k)
    {
      KeyOf(t, k);
      ReplacedAt(TreeFiles(t), d, Entries(d, Slots(t, d)) - {i}, k);
    }
    SameMaps(a, b);
  }

  // ---------------------------------------------------------------- good trees

  ghost predicate DirSlot(s: Slot) { IsLive(s) && IsDirEntry(s) }

  /** Never-used slots last, short names distinct, and outside the root itself and its parent first. */
  ghost predicate DirOk(d: nat, slots: seq<Slot>) {
    ZeroSuffix(slots) && Unique(slots) && (d != 0 ==> |slots| >= 2 && DirSlot(slots[0]) && DirSlot(slots[1]))
  }

  /** Key `k` names a directory entry. */
  ghost predicate DirKey(t: Tree, k: Key) {
    k in TreeFiles(t) && k.1 < |Slots(t, k.0)| && DirSlot(Slots(t, k.0)[k.1])
  }

  /** `k` is the entry of directory `d` in its parent. */
  ghost predicate Home(t: Tree, chains: map<Key, seq<nat>>, d: nat, k: Key) {
    DirKey(t, k) && k in chains && d in t.dirs && chains[k] == t.dirs[d]
  }

  /** What every run keeps: each directory is one, each but the root has an entry and is stored in the
      chain of that entry, and the chains of all live entries of all directories are whole and
      disjoint. */
  ghost predicate TreeGood(t: Tree, cb: nat, chains: map<Key, seq<nat>>) {
    && Shaped(t, cb)
    && (forall d :: IsDir(t, d) ==> DirOk(d, Slots(t, d)))
    && (forall d :: d in t.dirs ==> t.dirs[d] != [] && t.dirs[d][0] == d && exists k: Key :: Home(t, chains, d, k))
    && Sound(t.store.fat, TreeFiles(t), chains)
  }

  lemma GoodDir(t: Tree, cb: nat, chains: map<Key, seq<nat>>, d: nat)
    requires TreeGood(t, cb, chains) && IsDir(t, d)
    ensures Shaped(t, cb) && DirOk(d, Slots(t, d)) && Sound(t.store.fat, TreeFiles(t), chains)
    ensures ZeroSuffix(Slots(t, d)) && Unique(Slots(t, d))
  {
  }

  /** The directory's own clusters are nobody else's. */
  lemma DirApart(t: Tree, cb: nat, chains: map<Key, seq<nat>>, d: nat, j: Key)
    requires TreeGood(t, cb, chains) && d in t.dirs && j in TreeFiles(t) && !DirKey(t, j)
    ensures j in chains && Disjoint(chains[j], t.dirs[d]) && IsChain(t.store.fat, t.dirs[d])
  {
    hide TreeFiles, Slots, Shaped, DirOk, DirSlot, IsChain, Disjoint;
    var k: Key :| Home(t, chains, d, k);
    SoundPair(t.store.fat, TreeFiles(t), chains, k, j);
    SoundChain(t.store.fat, TreeFiles(t), chains, k);
  }

  /** Directory entries of the slots stay. */
  ghost predicate DirEntriesStay(slots: seq<Slot>, slots': seq<Slot>) {
    |slots'| == |slots| && forall i :: 0 <= i < |slots| && DirSlot(slots[i]) ==> slots'[i] == slots[i]
  }

  lemma HomesStay(t: Tree, cb: nat, chains: map<Key, seq<nat>>, d: nat, u: Vol, chains': map<Key, seq<nat>>, e: nat)
    requires TreeGood(t, cb, chains) && IsDir(t, d) && WellFormed(u.store, cb)
    requires DirsKept(t, u.store.data) && DirEntriesStay(Slots(t, d), u.root)
    requires forall k: Key :: DirKey(t, k) ==> k in chains' && k in chains && chains'[k] == chains[k]
    requires e in t.dirs
    ensures exists k: Key :: Home(Back(t, d, u), chains', e, k)
  {
    hide TreeFiles, Slots, Shaped, DirOk, DirSlot, Entries, Back;
    GoodDir(t, cb, chains, d);
    BackSlots(t, cb, d, u);
    var t' := Back(t, d, u);
    var k: Key :| Home(t, chains, e, k);
    KeyOf(t, k);
    KeyOf(t', k);
    EntryOf(k.0, Slots(t, k.0), k.1);
    EntryOf(k.0, Slots(t', k.0), k.1);
    DirSlotLive(Slots(t, k.0)[k.1]);
    assert Home(t', chains', e, k);
  }

  lemma DirSlotLive(s: Slot)
    requires DirSlot(s)
    ensures IsLive(s)
  {
  }

  /** An operation in directory `d` that keeps directories and directory entries leaves a good tree. */
  lemma Settled(t: Tree, cb: nat, chains: map<Key, seq<nat>>, d: nat, u: Vol, chains': map<Key, seq<nat>>)
    requires TreeGood(t, cb, chains) && IsDir(t, d) && WellFormed(u.store, cb)
    requires DirsKept(t, u.store.data) && DirEntriesStay(Slots(t, d), u.root) && DirOk(d, u.root)
    requires forall k: Key :: DirKey(t, k) ==> k in chains' && k in chains && chains'[k] == chains[k]
    requires Sound(u.store.fat, Replaced(TreeFiles(t), d, Entries(d, u.root)), chains')
    ensures TreeGood(Back(t, d, u), cb, chains')
  {
    hide TreeFiles, Slots, DirOk, DirSlot, Entries, Back, Sound, Replaced, DirKey;
    BackSlots(t, cb, d, u);
    BackFiles(t, cb, d, u);
    var t' := Back(t, d, u);
    forall e | e in t.dirs
      ensures exists k: Key :: Home(t', chains', e, k)
    {
      HomesStay(t, cb, chains, d, u, chains', e);
    }
    forall e | IsDir(t, e)
      ensures DirOk(e, Slots(t', e))
    {
      if e != d { assert Slots(t', e) == Slots(t, e); }
    }
  }

  // ---------------------------------------------------------------- what an operation keeps

  ghost predicate BlocksSame(data: seq<seq<byte>>, data': seq<seq<byte>>, cs: seq<nat>) {
    |data'| == |data| && forall i :: 0 <= i < |cs| ==> cs[i] < |data| && data'[cs[i]] == data[cs[i]]
  }

  /** File `j` is still there, with the same entry, the same chain and the same bytes. */
  ghost predicate KeptKey(t: Tree, chains: map<Key, seq<nat>>, t': Tree, chains': map<Key, seq<nat>>, j: Key) {
    && j in TreeFiles(t) && j in chains && j in TreeFiles(t') && j in chains'
    && TreeFiles(t')[j] == TreeFiles(t)[j] && chains'[j] == chains[j]
    && BlocksSame(t.store.data, t'.store.data, chains[j])
  }

  /** Every file of every directory but `k` is kept. Directories are told apart by their slots. */
  ghost predicate TreeKept(t: Tree, chains: map<Key, seq<nat>>, t': Tree, chains': map<Key, seq<nat>>, k: Key) {
    forall j: Key :: j in TreeFiles(t) && j != k && !DirKey(t, j) ==> KeptKey(t, chains, t', chains', j)
  }

  /** Same blocks, same content. */
  lemma KeptContent(t: Tree, chains: map<Key, seq<nat>>, t': Tree, chains': map<Key, seq<nat>>, j: Key)
    requires KeptKey(t, chains, t', chains', j)
    ensures (forall i :: 0 <= i < |chains[j]| ==> chains[j][i] < |t.store.data| == |t'.store.data|)
    ensures var size := TreeFiles(t)[j].size;
            Content(t'.store.data, chains[j], size) == Content(t.store.data, chains[j], size)
  {
    hide TreeFiles;
    GatherFrame(t.store.data, t'.store.data, chains[j]);
  }

  lemma SettledKeeps(t: Tree, cb: nat, chains: map<Key, seq<nat>>, d: nat, u: Vol, chains': map<Key, seq<nat>>, j: Key)
    requires TreeGood(t, cb, chains) && IsDir(t, d) && WellFormed(u.store, cb)
    requires DirsKept(t, u.store.data) && |u.root| == |Slots(t, d)|
    requires j in TreeFiles(t) && !DirKey(t, j) && j in chains && j in chains' && chains'[j] == chains[j]
    requires var files := Replaced(TreeFiles(t), d, Entries(d, u.root)); j in files && files[j] == TreeFiles(t)[j]
    requires BlocksSame(t.store.data, u.store.data, chains[j])
    ensures KeptKey(t, chains, Back(t, d, u), chains', j)
  {
    hide TreeFiles, Slots, Shaped, DirOk, Entries, Back, Replaced, DirKey, Sound, DirsKept;
    GoodDir(t, cb, chains, d);
    BackSlots(t, cb, d, u);
    BackFiles(t, cb, d, u);
    var data := Back(t, d, u).store.data;
    if d != 0 { DirApart(t, cb, chains, d, j); }
    forall i | 0 <= i < |chains[j]|
      ensures data[chains[j][i]] == u.store.data[chains[j][i]]
    {
      assert chains[j][i] in chains[j];
    }
  }
}
