/** Directories that grow. A directory other than the root that has no run of free slots left gets new
    clusters, and the entry goes to the first of their slots. */
module FatGrowth {
  import opened Bytes
  import opened Arith
  import opened FatChains
  import opened FatFiles
  import opened FatDisk
  import opened FatLfn
  import opened FatDir
  import opened FatNames
  import opened FatRoot
  import opened FatRuns
  import opened FatLookup
  import opened FatTree

  // ---------------------------------------------------------------- the chain

  /** Every cluster a directory gets is zeroed. */
  function Zeroed(c: nat): bool { true }

  lemma {:induction false} ReserveZeroes(v: Store, cb: nat, n: nat, prev: nat)
    requires WellFormed(v, cb) && InTable(v.fat, prev) && v.fat[prev] != 0
    ensures var (u, cs) := Reserve(v, cb, n, prev, Zeroed);
            forall i :: 0 <= i < |cs| ==> cs[i] < |u.data| && u.data[cs[i]] == Fill(cb, 0)
    decreases n
  {
    hide NextFit, ReserveTurn, WellFormed, Grown;
    WellFormedSizes(v, cb);
    var c := NextFit(v.fat, v.hint);
    if n > 0 && c != 0 {
      ReserveTurnMeans(v, cb, prev, Zeroed);
      TurnZeroes(v, cb, prev);
      var x := ReserveTurn(v, cb, prev, Zeroed);
      FreeMember(v.fat, c);
      ReserveZeroes(x, cb, n - 1, c);
      ReserveGrows(x, cb, n - 1, c, Zeroed);
      ReserveFrame(x, cb, n - 1, c, Zeroed);
      var (u, cs) := Reserve(x, cb, n - 1, c, Zeroed);
      GrownFromFree(x.fat, u.fat, c, cs, c);
      assert Reserve(v, cb, n, prev, Zeroed) == (u, [c] + cs);
    }
  }

  lemma TurnZeroes(v: Store, cb: nat, prev: nat)
    requires WellFormed(v, cb) && prev != 0 && prev < |v.fat| && NextFit(v.fat, v.hint) != 0
    ensures var c, u := NextFit(v.fat, v.hint), ReserveTurn(v, cb, prev, Zeroed);
            c < |u.data| && u.data[c] == Fill(cb, 0)
  {
    NextFitExhaustive(v.fat, v.hint);
  }

  lemma GrownFromFree(fat: seq<nat>, fat': seq<nat>, prev: nat, cs: seq<nat>, c: nat)
    requires Grown(fat, fat', prev, cs) && c < |fat| && fat[c] != 0
    ensures c !in cs
  {
  }

  /** A chain that grew behind its last cluster. */
  lemma GrownExtends(fat: seq<nat>, fat': seq<nat>, ds: seq<nat>, cs: seq<nat>)
    requires IsChain(fat, ds) && ds != [] && Grown(fat, fat', ds[|ds| - 1], cs)
    ensures IsChain(fat', ds + cs) && Disjoint(ds, cs)
  {
    var all, last := ds + cs, ds[|ds| - 1];
    forall c | c in ds
      ensures c !in cs
    {
      ChainEntryUsed(fat, ds, c);
    }
    forall i | 0 <= i < |all| - 1
      ensures Linked(fat', all, i)
    {
      if i < |ds| - 1 {
        assert Linked(fat, ds, i) && ds[i] in ds;
      } else if i >= |ds| {
        assert Linked(fat', cs, i - |ds|);
      }
    }
    forall i, j | 0 <= i < j < |all|
      ensures all[i] != all[j]
    {
      if i < |ds| <= j { assert ds[i] in ds && cs[j - |ds|] in cs; }
    }
  }

  /** The other chains. */
  lemma GrownApart(fat: seq<nat>, fat': seq<nat>, ds: seq<nat>, cs: seq<nat>, other: seq<nat>)
    requires IsChain(fat, ds) && ds != [] && Grown(fat, fat', ds[|ds| - 1], cs)
    requires IsChain(fat, other) && Disjoint(other, ds)
    ensures IsChain(fat', other) && Disjoint(other, ds + cs) && Disjoint(ds + cs, other)
  {
    var last := ds[|ds| - 1];
    assert last in ds;
    forall c | c in other
      ensures c !in cs && c != last && c < |fat| && fat'[c] == fat[c]
    {
      ChainEntryUsed(fat, other, c);
    }
    assert forall i :: 0 <= i < |other| ==> other[i] in other;
    ChainFrame(fat, fat', other);
  }

  lemma GrownLinks(fat: seq<nat>, fat': seq<nat>, prev: nat, cs: seq<nat>)
    requires LinksInside(fat) && InTable(fat, prev) && fat[prev] != 0 && Grown(fat, fat', prev, cs)
    ensures LinksInside(fat') && FreeSet(fat') == FreeSet(fat) - Members(cs)
  {
    forall c | 2 <= c < |fat|
      ensures c in cs ==> fat'[c] == LAST || InTable(fat, fat'[c])
      ensures c !in cs && c != prev ==> fat'[c] == fat[c]
    {
      if c in cs {
        var i :| 0 <= i < |cs| && cs[i] == c;
        if i < |cs| - 1 { assert Linked(fat', cs, i); }
      }
    }
    assert cs == [] ==> fat'[prev] == fat[prev];
    assert forall c :: c in cs ==> fat'[c] != 0;
  }

  // ---------------------------------------------------------------- the slots

  lemma ZeroBlock(cb: nat)
    ensures BlockSlots(Fill(cb, 0)) == seq(cb / 32, i => Fill(32, 0))
  {
    var b := BlockSlots(Fill(cb, 0));
    forall i | 0 <= i < |b|
      ensures b[i] == Fill(32, 0)
    {
      assert b[i] == Fill(cb, 0)[32 * i..32 * i + 32];
    }
  }

  /** The slots of `m` clusters. */
  function SlotsIn(m: nat, cb: nat): nat { m * (cb / 32) }

  /** Clusters of zeros hold slots never used. */
  lemma {:induction false} ZeroDir(data: seq<seq<byte>>, cs: seq<nat>, cb: nat)
    requires InData(data, cs) && forall i :: 0 <= i < |cs| ==> data[cs[i]] == Fill(cb, 0)
    ensures DirSlots(data, cs) == seq(SlotsIn(|cs|, cb), i => Fill(32, 0))
  {
    if cs == [] {
      NoSlots(cb);
    } else {
      hide BlockSlots, DirSlots, SlotsIn;
      DirSlotsStep(data, cs);
      ZeroDir(data, cs[1..], cb);
      ZeroBlock(cb);
      MoreSlots(|cs| - 1, cb);
      assert data[cs[0]] == Fill(cb, 0);
      Fills(cb / 32, SlotsIn(|cs| - 1, cb));
    }
  }

  lemma NoSlots(cb: nat)
    ensures SlotsIn(0, cb) == 0
  {
  }

  lemma MoreSlots(m: nat, cb: nat)
    ensures SlotsIn(m + 1, cb) == cb / 32 + SlotsIn(m, cb)
  {
    MulStep(m, cb / 32);
  }

  lemma Fills(m: nat, n: nat)
    ensures seq(m, i => Fill(32, 0)) + seq(n, i => Fill(32, 0)) == seq(m + n, i => Fill(32, 0))
  {
  }

  lemma {:induction false} DirSlotsJoin(data: seq<seq<byte>>, ds: seq<nat>, cs: seq<nat>)
    requires InData(data, ds) && InData(data, cs)
    ensures InData(data, ds + cs) && DirSlots(data, ds + cs) == DirSlots(data, ds) + DirSlots(data, cs)
  {
    hide BlockSlots;
    if ds == [] {
      assert ds + cs == cs;
    } else {
      assert (ds + cs)[1..] == ds[1..] + cs;
      DirSlotsJoin(data, ds[1..], cs);
    }
  }

  // ---------------------------------------------------------------- a directory that grew

  /** The store and the clusters when directory `d` asks for `m` more; fewer when the volume is full. */
  ghost function NewClusters(t: Tree, cb: nat, d: nat, m: nat): (r: (Store, seq<nat>))
    requires Shaped(t, cb) && d in t.dirs && t.dirs[d] != []
  {
    var ds := t.dirs[d];
    assert ds[|ds| - 1] < |t.store.data|;
    Reserve(t.store, cb, m, ds[|ds| - 1], Zeroed)
  }

  ghost function Grow(t: Tree, cb: nat, d: nat, m: nat): (r: Tree)
    requires Shaped(t, cb) && d in t.dirs && t.dirs[d] != []
  {
    var (st, cs) := NewClusters(t, cb, d, m);
    t.(store := st, dirs := t.dirs[d := t.dirs[d] + cs])
  }

  /** What became of the table and the data when chain `ds` grew by `cs`. */
  ghost predicate GrewBy(v: Store, u: Store, cb: nat, ds: seq<nat>, cs: seq<nat>) {
    && WellFormed(u, cb) && |u.fat| == |v.fat| && |u.data| == |v.data|
    && ds != [] && Grown(v.fat, u.fat, ds[|ds| - 1], cs)
    && InData(u.data, cs) && (forall i :: 0 <= i < |cs| ==> u.data[cs[i]] == Fill(cb, 0))
    && (forall c :: 0 <= c < |v.data| && c !in cs ==> u.data[c] == v.data[c])
  }

  lemma GrowStore(t: Tree, cb: nat, chains: map<Key, seq<nat>>, d: nat, m: nat)
    requires TreeGood(t, cb, chains) && d in t.dirs
    ensures t.dirs[d] != [] && IsChain(t.store.fat, t.dirs[d])
    ensures var (st, cs) := NewClusters(t, cb, d, m); GrewBy(t.store, st, cb, t.dirs[d], cs)
  {
    hide TreeFiles, Slots, DirOk, Sound, DirKey, IsChain, Reserve, Grown;
    var ds := t.dirs[d];
    var h: Key :| Home(t, chains, d, h);
    HomeIsKey(t, chains, d, h);
    SoundChain(t.store.fat, TreeFiles(t), chains, h);
    var last := ds[|ds| - 1];
    assert last in ds;
    ChainEntryUsed(t.store.fat, ds, last);
    ReserveGrows(t.store, cb, m, last, Zeroed);
    ReserveFrame(t.store, cb, m, last, Zeroed);
    ReserveZeroes(t.store, cb, m, last);
    GrownSameSize(t.store.fat, NewClusters(t, cb, d, m).0.fat, last, NewClusters(t, cb, d, m).1);
  }

  lemma HomeIsKey(t: Tree, chains: map<Key, seq<nat>>, d: nat, h: Key)
    requires Home(t, chains, d, h)
    ensures h in TreeFiles(t) && DirKey(t, h) && h in chains && d in t.dirs && chains[h] == t.dirs[d]
  {
  }

  lemma GrownSameSize(fat: seq<nat>, fat': seq<nat>, prev: nat, cs: seq<nat>)
    requires Grown(fat, fat', prev, cs)
    ensures |fat'| == |fat|
  {
  }

  lemma GrowSound(t: Tree, cb: nat, chains: map<Key, seq<nat>>, d: nat, u: Store, cs: seq<nat>, k: Key)
    requires TreeGood(t, cb, chains) && Home(t, chains, d, k) && GrewBy(t.store, u, cb, t.dirs[d], cs)
    ensures Sound(u.fat, TreeFiles(t), chains[k := t.dirs[d] + cs])
    ensures FreeSet(u.fat) == FreeSet(t.store.fat) - Members(cs)
  {
    hide TreeFiles, Slots, DirOk, DirKey, IsChain, Grown, Disjoint, LinksInside, Shaped, FreeSet;
    var files, ds := TreeFiles(t), t.dirs[d];
    var fat, chains' := t.store.fat, chains[k := ds + cs];
    HomeIsKey(t, chains, d, k);
    assert ds[|ds| - 1] in ds;
    ChainEntryUsed(fat, ds, ds[|ds| - 1]);
    GrownLinks(fat, u.fat, ds[|ds| - 1], cs);
    GrownExtends(fat, u.fat, ds, cs);
    forall j | j in files && j != k
      ensures IsChain(u.fat, chains[j]) && Disjoint(chains[j], ds + cs) && Disjoint(ds + cs, chains[j])
    {
      GrownApart(fat, u.fat, ds, cs, chains[j]);
    }
  }

  /** `g` has the directories of `t` with `room` more slots, never used, in `d`. */
  ghost predicate Wider(t: Tree, g: Tree, d: nat, room: nat) {
    && g.dirs.Keys == t.dirs.Keys && Slots(g, d) == Followed(Slots(t, d), room)
    && forall e :: IsDir(t, e) && e != d ==> Slots(g, e) == Slots(t, e)
  }

  lemma GrowShaped(t: Tree, cb: nat, chains: map<Key, seq<nat>>, d: nat, g: Tree, cs: seq<nat>)
    requires TreeGood(t, cb, chains) && d in t.dirs && GrewBy(t.store, g.store, cb, t.dirs[d], cs)
    requires IsChain(t.store.fat, t.dirs[d]) && g.dirs == t.dirs[d := t.dirs[d] + cs]
    ensures Shaped(g, cb)
  {
    hide TreeFiles, Slots, DirOk, Sound, Home, Grown, DirSlots, Distinct, Disjoint, IsChain, InData;
    var ds := t.dirs[d];
    GrownExtends(t.store.fat, g.store.fat, ds, cs);
    ChainDistinct(g.store.fat, ds + cs);
    DirFrame(t, cb, chains, d, g.store, cs, d);
    InDataJoin(g.store.data, ds, cs);
    forall e | e in t.dirs && e != d
      ensures InData(g.store.data, t.dirs[e]) && Disjoint(t.dirs[e], ds + cs) && Disjoint(ds + cs, t.dirs[e])
    {
      DirFrame(t, cb, chains, d, g.store, cs, e);
      DisjointJoin(t.dirs[e], ds, cs);
    }
  }

  lemma InDataJoin(data: seq<seq<byte>>, ds: seq<nat>, cs: seq<nat>)
    requires InData(data, ds) && InData(data, cs)
    ensures InData(data, ds + cs)
  {
  }

  lemma GrowSlots(t: Tree, cb: nat, chains: map<Key, seq<nat>>, d: nat, g: Tree, cs: seq<nat>)
    requires TreeGood(t, cb, chains) && d in t.dirs && GrewBy(t.store, g.store, cb, t.dirs[d], cs)
    requires g.root == t.root && g.dirs == t.dirs[d := t.dirs[d] + cs]
    ensures Wider(t, g, d, SlotsIn(|cs|, cb))
  {
    hide TreeFiles, DirOk, Sound, Home, Grown, DirSlots, Distinct, Disjoint, InData, WellFormed, Slots, Followed,
         SlotsIn;
    var ds := t.dirs[d];
    DirFrame(t, cb, chains, d, g.store, cs, d);
    DirSlotsJoin(g.store.data, ds, cs);
    ZeroDir(g.store.data, cs, cb);
    SlotsAre(t, d);
    SlotsAre(g, d);
    FollowedIs(Slots(t, d), SlotsIn(|cs|, cb));
    forall e | IsDir(t, e) && e != d
      ensures Slots(g, e) == Slots(t, e)
    {
      if e == 0 {
        RootSlots(t);
        RootSlots(g);
      } else {
        DirFrame(t, cb, chains, d, g.store, cs, e);
        SlotsAre(t, e);
        SlotsAre(g, e);
      }
    }
  }

  lemma RootSlots(t: Tree)
    ensures Slots(t, 0) == t.root
  {
  }

  lemma FollowedIs(slots: seq<Slot>, room: nat)
    ensures Followed(slots, room) == slots + seq(room, i => Fill(32, 0))
  {
  }

  lemma ChainDistinct(fat: seq<nat>, cs: seq<nat>)
    requires IsChain(fat, cs)
    ensures Distinct(cs)
  {
  }

  lemma DisjointJoin(a: seq<nat>, b: seq<nat>, c: seq<nat>)
    requires Disjoint(a, b) && Disjoint(a, c)
    ensures Disjoint(a, b + c) && Disjoint(b + c, a)
  {
  }

  /** New clusters belong to no directory of before. */
  lemma DirFrame(t: Tree, cb: nat, chains: map<Key, seq<nat>>, d: nat, u: Store, cs: seq<nat>, e: nat)
    requires TreeGood(t, cb, chains) && d in t.dirs && GrewBy(t.store, u, cb, t.dirs[d], cs) && e in t.dirs
    ensures InData(u.data, t.dirs[e]) && DirSlots(u.data, t.dirs[e]) == DirSlots(t.store.data, t.dirs[e])
    ensures Disjoint(t.dirs[e], cs)
  {
    hide TreeFiles, Slots, DirOk, Sound, DirKey, IsChain, DirSlots, Grown;
    var h: Key :| Home(t, chains, e, h);
    HomeIsKey(t, chains, e, h);
    SoundChain(t.store.fat, TreeFiles(t), chains, h);
    var es := t.dirs[e];
    forall c | c in es
      ensures c !in cs
    {
      ChainEntryUsed(t.store.fat, es, c);
      GrownFromFree(t.store.fat, u.fat, t.dirs[d][|t.dirs[d]| - 1], cs, c);
    }
    forall i | 0 <= i < |es|
      ensures u.data[es[i]] == t.store.data[es[i]]
    {
      assert es[i] in es;
    }
    DirSlotsFrame(t.store.data, u.data, es);
  }

  lemma FollowedEntries(d: nat, slots: seq<Slot>, room: nat)
    ensures Entries(d, Followed(slots, room)) == Entries(d, slots)
  {
    hide FileOf;
    assert Files(Followed(slots, room)) == Files(slots);
  }

  lemma FollowedOk(d: nat, slots: seq<Slot>, room: nat)
    requires DirOk(d, slots)
    ensures DirOk(d, Followed(slots, room))
  {
  }

  lemma GrowFiles(t: Tree, g: Tree, d: nat, room: nat)
    requires d in t.dirs && Wider(t, g, d, room)
    ensures TreeFiles(g) == TreeFiles(t) && forall j: Key :: j in TreeFiles(t) ==> (DirKey(g, j) <==> DirKey(t, j))
  {
    hide Slots, Entries, TreeFiles, DirSlot, Followed;
    FollowedEntries(d, Slots(t, d), room);
    var a, b := TreeFiles(g), TreeFiles(t);
    forall k: Key
      ensures SameAt(a, b, k)
    {
      KeyOf(t, k);
      KeyOf(g, k);
    }
    SameMaps(a, b);
    forall j: Key | j in TreeFiles(t)
      ensures DirKey(g, j) <==> DirKey(t, j)
    {
      KeyOf(t, j);
      EntryOf(j.0, Slots(t, j.0), j.1);
    }
  }

  lemma GrowHomes(t: Tree, cb: nat, chains: map<Key, seq<nat>>, d: nat, g: Tree, k: Key, chains': map<Key, seq<nat>>,
                  e: nat)
    requires TreeGood(t, cb, chains) && Home(t, chains, d, k) && e in t.dirs
    requires d in g.dirs && g.dirs == t.dirs[d := g.dirs[d]] && chains' == chains[k := g.dirs[d]]
    requires forall j: Key :: j in TreeFiles(t) ==> (DirKey(g, j) <==> DirKey(t, j))
    ensures exists h: Key :: Home(g, chains', e, h)
  {
    hide TreeFiles, Slots, DirOk, Sound, DirKey, Shaped;
    HomeIsKey(t, chains, d, k);
    if e == d {
      assert Home(g, chains', d, k);
    } else {
      var h: Key :| Home(t, chains, e, h);
      HomeIsKey(t, chains, e, h);
      assert Home(g, chains', e, h);
    }
  }

  lemma GrowGood(t: Tree, cb: nat, chains: map<Key, seq<nat>>, d: nat, g: Tree, k: Key, chains': map<Key, seq<nat>>,
                 room: nat)
    requires TreeGood(t, cb, chains) && Home(t, chains, d, k) && Shaped(g, cb) && Wider(t, g, d, room)
    requires d in g.dirs && t.dirs[d] <= g.dirs[d] && g.dirs == t.dirs[d := g.dirs[d]]
    requires chains' == chains[k := g.dirs[d]] && Sound(g.store.fat, TreeFiles(t), chains')
    requires TreeFiles(g) == TreeFiles(t) && forall j: Key :: j in TreeFiles(t) ==> (DirKey(g, j) <==> DirKey(t, j))
    ensures TreeGood(g, cb, chains')
  {
    hide TreeFiles, Slots, DirOk, Sound, DirKey, Shaped, Followed, Home;
    FollowedOk(d, Slots(t, d), room);
    forall e | e in g.dirs
      ensures g.dirs[e] != [] && g.dirs[e][0] == e && exists h: Key :: Home(g, chains', e, h)
    {
      GrowHomes(t, cb, chains, d, g, k, chains', e);
    }
    forall e | IsDir(g, e)
      ensures DirOk(e, Slots(g, e))
    {
      if e != d { assert IsDir(t, e); }
    }
  }

  /** Growth alone keeps the tree good, and every file of every directory. */
  lemma GrowKeeps(t: Tree, cb: nat, chains: map<Key, seq<nat>>, d: nat, m: nat) returns (chains': map<Key, seq<nat>>)
    requires TreeGood(t, cb, chains) && d in t.dirs
    ensures t.dirs[d] != []
    ensures var g, cs := Grow(t, cb, d, m), NewClusters(t, cb, d, m).1;
            && TreeGood(g, cb, chains') && TreeFiles(g) == TreeFiles(t) && Wider(t, g, d, SlotsIn(|cs|, cb))
            && FreeSet(g.store.fat) == FreeSet(t.store.fat) - Members(cs)
            && (forall j: Key :: j in TreeFiles(t) ==> (DirKey(g, j) <==> DirKey(t, j)))
            && (forall j: Key :: j in TreeFiles(t) && !DirKey(t, j) ==> KeptKey(t, chains, g, chains', j))
  {
    hide TreeFiles, Slots, DirOk, Sound, DirKey, IsChain, Shaped, GrewBy, NewClusters, KeptKey, FreeSet, Wider,
         TreeGood, Home, SlotsIn;
    GoodDir(t, cb, chains, d);
    GrowStore(t, cb, chains, d, m);
    var g, cs, ds := Grow(t, cb, d, m), NewClusters(t, cb, d, m).1, t.dirs[d];
    var k := HomeOf(t, cb, chains, d);
    chains' := chains[k := ds + cs];
    GrowSound(t, cb, chains, d, g.store, cs, k);
    GrowShaped(t, cb, chains, d, g, cs);
    GrowSlots(t, cb, chains, d, g, cs);
    GrowFiles(t, g, d, SlotsIn(|cs|, cb));
    GrowGood(t, cb, chains, d, g, k, chains', SlotsIn(|cs|, cb));
    HomeIsKey(t, chains, d, k);
    forall j: Key | j in TreeFiles(t) && !DirKey(t, j)
      ensures KeptKey(t, chains, g, chains', j)
    {
      GrowKeepsKey(t, cb, chains, d, g, k, cs, j);
    }
  }

  lemma HomeOf(t: Tree, cb: nat, chains: map<Key, seq<nat>>, d: nat) returns (k: Key)
    requires TreeGood(t, cb, chains) && d in t.dirs
    ensures Home(t, chains, d, k)
  {
    hide Home, Shaped, DirOk, Sound;
    k :| Home(t, chains, d, k);
  }

  lemma GrowKeepsKey(t: Tree, cb: nat, chains: map<Key, seq<nat>>, d: nat, g: Tree, k: Key, cs: seq<nat>, j: Key)
    requires TreeGood(t, cb, chains) && d in t.dirs && GrewBy(t.store, g.store, cb, t.dirs[d], cs)
    requires TreeFiles(g) == TreeFiles(t) && j in TreeFiles(t) && j != k
    ensures KeptKey(t, chains, g, chains[k := t.dirs[d] + cs], j)
  {
    hide TreeFiles, Slots, DirOk, Sound, DirKey, IsChain, Home, Grown;
    SoundChain(t.store.fat, TreeFiles(t), chains, j);
    var old_ := chains[j];
    ChainInside(t.store.fat, old_);
    forall i | 0 <= i < |old_|
      ensures g.store.data[old_[i]] == t.store.data[old_[i]]
    {
      assert old_[i] in old_;
      ChainEntryUsed(t.store.fat, old_, old_[i]);
      GrownFromFree(t.store.fat, g.store.fat, t.dirs[d][|t.dirs[d]| - 1], cs, old_[i]);
    }
  }

  // ---------------------------------------------------------------- the entry in the new slots

  lemma {:induction false} ScanStops(slots: seq<Slot>, slots': seq<Slot>, i: nat, st: LfnState, z: nat)
    requires i <= z < |slots| <= |slots'| && slots[z][0] == 0
    requires forall k :: 0 <= k < |slots| ==> slots'[k] == slots[k]
    ensures Scan(slots', i, st) == Scan(slots, i, st)
    decreases z - i
  {
    if slots[i][0] != 0 { ScanStops(slots, slots', i + 1, Next(st, slots[i], i), z); }
  }

  /** The entry goes to the first of the new slots even when slots never used are left in front of
      them. */
  function GrownSlots(slots: seq<Slot>, room: nat, name: seq<byte>, count: nat, e: Slot): (r: seq<Slot>)
    requires count < room && count <= MAX_ENTRIES
  {
    Place(Followed(slots, room), |slots|, name, count, e)
  }

  lemma GrownAt(slots: seq<Slot>, room: nat, name: seq<byte>, count: nat, e: Slot)
    requires count < room && count <= MAX_ENTRIES
    ensures |GrownSlots(slots, room, name, count, e)| == |slots| + room
    ensures forall k :: 0 <= k < |slots| ==> GrownSlots(slots, room, name, count, e)[k] == slots[k]
    ensures GrownSlots(slots, room, name, count, e)[|slots| + count] == e
  {
    hide Fragment, Checksum, Place;
    PlaceAt(Followed(slots, room), |slots|, name, count, e);
  }

  /** No slot of the directory is left that was never used. */
  ghost predicate Crammed(slots: seq<Slot>) { forall i :: 0 <= i < |slots| ==> slots[i][0] != 0 }

  /** Growth keeps never-used slots last exactly when none was left, and then lists the new entry; when one
      was left, the new entry is not listed. */
  lemma GrowthExact(slots: seq<Slot>, room: nat, name: seq<byte>, count: nat, e: Slot)
    requires ZeroSuffix(slots) && count < room && count <= MAX_ENTRIES && IsLive(e)
    ensures var slots' := GrownSlots(slots, room, name, count, e);
            && (ZeroSuffix(slots') <==> Crammed(slots))
            && (Crammed(slots) ==> Written(Followed(slots, room), |slots|, name, count, e) in Items(slots'))
            && (!Crammed(slots) ==> Items(slots') == Items(slots))
  {
    hide Place, Scan, StateAt, ItemsBefore, Written, Fragment, Checksum;
    var slots' := GrownSlots(slots, room, name, count, e);
    GrownAt(slots, room, name, count, e);
    if z :| 0 <= z < |slots| && slots[z][0] == 0 {
      ScanStops(slots, slots', 0, Idle, z);
      assert slots'[z][0] == 0 && slots'[|slots| + count] == e;
    } else {
      var wide := Followed(slots, room);
      PlaceInserts(wide, |slots|, name, count, e);
      PlaceKeepsSuffix(wide, |slots|, name, count, e);
    }
  }

  /** A name is created in a directory that has a slot never used, but no run of free slots: looking it up
      afterwards finds nothing. */
  lemma GrowthHides(slots: seq<Slot>, room: nat, name: seq<byte>, e: Slot)
    requires ZeroSuffix(slots) && !Crammed(slots) && IsLive(e) && Settle(slots, name).Some?
    requires Settle(slots, name).value.count < room && FindRun(slots, 0, Settle(slots, name).value.count + 1).None?
    ensures var s := Settle(slots, name).value;
            && FirstMatch(Items(slots), name).None? && s.count <= MAX_ENTRIES
            && FirstMatch(Items(GrownSlots(slots, room, s.long, s.count, e)), name).None?
  {
    hide GrownSlots, Items, FirstMatch, Settle, Crammed, FindRun, NeedsLong, Prepare, FragmentCount;
    SettleMeans(slots, name);
    var s := Settle(slots, name).value;
    GrowthExact(slots, room, s.long, s.count, e);
  }

  // ---------------------------------------------------------------- such a directory

  /** Slot `i` of a crowded directory: itself, its parent, then files B02, B03 and so on. */
  function Crowd(i: nat): (e: Slot)
    requires i < 63
  {
    if i == 0 then ShortEntry([DOT] + Fill(10, SPACE), ATTR_DIR, 2, 0)
    else if i == 1 then ShortEntry([DOT, DOT] + Fill(9, SPACE), ATTR_DIR, 0, 0)
    else ShortEntry([0x42, 0x30 + (i / 10) as byte, 0x30 + (i % 10) as byte] + Fill(8, SPACE), ATTR_FILE, 0, 0)
  }

  /** A cluster of 2048 bytes: 63 live entries and one slot never used. */
  function Crowded(): (r: seq<Slot>)
    ensures |r| == 64 && r[63] == Fill(32, 0) && forall i :: 0 <= i < 63 ==> r[i] == Crowd(i)
  {
    Followed(seq(63, i requires 0 <= i < 63 => Crowd(i)), 1)
  }

  /** Thirteen letters, so a long name of one fragment. */
  const THIRTEEN: seq<byte> := Fill(13, 0x41)

  lemma CrowdIs(i: nat)
    requires i < 63
    ensures IsLive(Crowd(i)) && Crowd(i)[0] in {DOT, 0x42} && (i < 2 ==> IsDirEntry(Crowd(i)))
    ensures forall j :: 0 <= j < i ==> Crowd(j)[..11] != Crowd(i)[..11]
  {
    var e := Crowd(i);
    assert e[0] == e[..11][0];
    forall j | 0 <= j < i
      ensures Crowd(j)[..11] != e[..11]
    {
      var f := Crowd(j);
      assert f[..11][0] == f[0] && f[..11][1] == f[1] && f[..11][2] == f[2];
      assert e[..11][0] == e[0] && e[..11][1] == e[1] && e[..11][2] == e[2];
    }
  }

  lemma CrowdedOk()
    ensures DirOk(2, Crowded()) && !Crammed(Crowded())
    ensures forall i :: 0 <= i < 63 ==> IsLive(Crowded()[i]) && Crowded()[i][0] in {DOT, 0x42}
  {
    hide Crowd, Crowded;
    var slots := Crowded();
    forall i | 0 <= i < 63
      ensures IsLive(slots[i]) && slots[i][0] in {DOT, 0x42} && (i < 2 ==> IsDirEntry(slots[i]))
      ensures forall j :: 0 <= j < i ==> slots[j][..11] != slots[i][..11]
    {
      CrowdIs(i);
    }
    assert slots[63][0] == 0;
  }

  /** Short names are too short to match. */
  lemma {:induction false} NoneMatches(slots: seq<Slot>, i: nat, name: seq<byte>)
    requires |name| > 12 && forall k :: 0 <= k < |slots| ==> slots[k][0] != DELETED && !IsLfn(slots[k])
    ensures FirstMatch(Scan(slots, i, Idle), name).None?
    decreases |slots| - i
  {
    hide Scan, ShortText, FirstMatch;
    if i >= |slots| {
      LookupEnd(slots, i, Idle, name);
    } else {
      LookupStep(slots, i, Idle, name);
      ShortTextBounds(slots[i]);
      NoneMatches(slots, i + 1, name);
    }
  }

  lemma ThirteenIs()
    ensures NeedsLong(THIRTEEN) && Prepare(THIRTEEN) == Some(THIRTEEN) && FragmentCount(THIRTEEN) == 1
  {
    hide NeedsLong;
    var name := THIRTEEN;
    LongNeedsLong(name);
    assert TrimEnd(name, 13) == 13 && TrimStart(name, 0, 13) == 0 && name[0..13] == name && LongChar(0x41);
  }

  lemma ThirteenAlias()
    ensures Candidate(THIRTEEN, 0)[0] == 0x41
  {
    hide LastDot;
    assert Base(THIRTEEN) == THIRTEEN;
    assert Sanitize(THIRTEEN, 31)[0] == 0x41;
  }

  lemma CrowdedAlias()
    ensures !Taken(Crowded(), Candidate(THIRTEEN, 0))
  {
    hide Crowd, Crowded, Candidate, DirOk, Crammed;
    CrowdedOk();
    ThirteenAlias();
    CrowdedOrdered();
    var slots, short := Crowded(), Candidate(THIRTEEN, 0);
    TakenFromExact(slots, short, 0);
    forall k | 0 <= k < |slots| && IsLive(slots[k])
      ensures slots[k][..11] != short
    {
      assert slots[k][..11][0] == slots[k][0];
    }
  }

  lemma CrowdedOrdered()
    ensures ZeroSuffix(Crowded())
  {
    hide Crowd, Crowded, ZeroSuffix, Unique;
    CrowdedOk();
  }

  lemma CrowdedSettles()
    ensures FirstMatch(Items(Crowded()), THIRTEEN).None? && Settle(Crowded(), THIRTEEN).Some?
    ensures Settle(Crowded(), THIRTEEN).value.long == THIRTEEN && Settle(Crowded(), THIRTEEN).value.count == 1
  {
    hide Crowd, Crowded, DirOk, Crammed, NeedsLong, Prepare, FragmentCount, Candidate, Scan, FirstMatch, Taken;
    CrowdedOk();
    ThirteenIs();
    NoneMatches(Crowded(), 0, THIRTEEN);
    CrowdedAlias();
  }

  lemma CrowdedNoRun()
    ensures FindRun(Crowded(), 0, 2).None?
  {
    hide Crowd, Crowded, FindRun, DirOk, Crammed;
    CrowdedOk();
    FindRunMeans(Crowded(), 0, 2);
    forall b: nat
      ensures !FreeRun(Crowded(), b, 2)
    {
      if b + 2 <= 64 { assert !IsFree(Crowded()[b]); }
    }
  }

  /** The crowded directory is one a run can reach, has no room for the name, and after the create does not
      show it. */
  lemma CrowdedHides(room: nat, e: Slot)
    requires room >= 2 && IsLive(e)
    ensures DirOk(2, Crowded()) && Settle(Crowded(), THIRTEEN).Some?
    ensures var s := Settle(Crowded(), THIRTEEN).value;
            && s.long == THIRTEEN && s.count == 1 && FindRun(Crowded(), 0, 2).None?
            && FirstMatch(Items(GrownSlots(Crowded(), room, THIRTEEN, 1, e)), THIRTEEN).None?
  {
    hide Crowd, Crowded, GrownSlots, Crammed, FindRun, Settle, Items, FirstMatch, ZeroSuffix;
    CrowdedOk();
    CrowdedOrdered();
    CrowdedSettles();
    CrowdedNoRun();
    GrowthHides(Crowded(), room, THIRTEEN, e);
  }
}
