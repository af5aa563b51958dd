/** What the write loop, the release loop and the readers mean for files: chains built whole,
    bytes read back, other files untouched, free clusters conserved. */
module FatFiles {
  import opened Bytes
  import opened FatChains
  import opened Arith

  lemma ClustersStep(n: nat, cb: nat)
    requires cb > 0
    ensures ClustersFor(n, cb) == if n == 0 then 0 else 1 + ClustersFor(n - Min(n, cb), cb)
  {
    if n > cb {
      var q := (n - 1) / cb;
      assert q * cb <= n - 1 < q * cb + cb;
      assert (q + 1) * cb == q * cb + cb;
      DivUnique(n + cb - 1, cb, q + 1);
    } else if n > 0 {
      DivUnique(n + cb - 1, cb, 1);
    } 
    DivUnique(cb - 1, cb, 0);
  }

  /** Everything a run of the write loop promises about the table. */
  ghost predicate Grown(fat: seq<nat>, fat': seq<nat>, prev: nat, cs: seq<nat>) {
    && |fat'| == |fat|
    && Distinct(cs)
    && (forall i :: 0 <= i < |cs| ==> InTable(fat, cs[i]) && fat[cs[i]] == 0)
    && (forall i :: 0 <= i < |cs| - 1 ==> Linked(fat', cs, i))
    && (cs != [] ==> fat'[cs[|cs| - 1]] == LAST)
    && (cs != [] && prev != 0 && prev < |fat| ==> fat'[prev] == cs[0])
    && (forall c :: 0 <= c < |fat| && c !in cs && (c != prev || prev == 0 || cs == []) ==> fat'[c] == fat[c])
  }

  /** One turn of the write loop, as `Append` unfolds it. */
  ghost function Turn(v: Store, cb: nat, buf: seq<byte>, prev: nat): (u: Store)
    requires cb > 0 && cb % 512 == 0 && WellFormed(v, cb) && prev < |v.fat|
    requires buf != [] && NextFit(v.fat, v.hint) != 0
  {
    var (w, c) := Take(v);
    var n := Min(|buf|, cb);
    var linked := if prev == 0 then w.fat else w.fat[prev := c];
    w.(fat := linked[c := LAST], data := w.data[c := Patch(w.data[c], buf[..n])])
  }

  lemma {:induction false} AppendGrows(v: Store, cb: nat, buf: seq<byte>, prev: nat)
    requires cb > 0 && cb % 512 == 0 && WellFormed(v, cb)
    requires prev == 0 || (InTable(v.fat, prev) && v.fat[prev] != 0)
    ensures var r := Append(v, cb, buf, prev); WellFormed(r.v, cb) && Grown(v.fat, r.v.fat, prev, r.cs)
    decreases |buf|
  {
    var r := Append(v, cb, buf, prev);
    NextFitExhaustive(v.fat, v.hint);
    var c := NextFit(v.fat, v.hint);
    if buf != [] && c != 0 {
      var u := Turn(v, cb, buf, prev);
      var rest := buf[Min(|buf|, cb)..];
      AppendGrows(u, cb, rest, c);
      var s := Append(u, cb, rest, c);
      assert r.v == s.v && r.cs == [c] + s.cs;
      GrownStep(v.fat, u.fat, s.v.fat, prev, c, s.cs);
    }
  }

  /** The table after one turn, for the rest of the run to grow from. */
  ghost predicate Turned(fat: seq<nat>, mid: seq<nat>, prev: nat, c: nat) {
    && InTable(fat, c) && fat[c] == 0 && c != prev
    && (prev == 0 || (InTable(fat, prev) && fat[prev] != 0))
    && mid == if prev == 0 then fat[c := LAST] else fat[prev := c][c := LAST]
  }

  lemma GrownStep(fat: seq<nat>, mid: seq<nat>, fat': seq<nat>, prev: nat, c: nat, cs: seq<nat>)
    requires Turned(fat, mid, prev, c) && Grown(mid, fat', c, cs)
    ensures Grown(fat, fat', prev, [c] + cs)
  {
    GrownClusters(fat, mid, fat', prev, c, cs);
    var all := [c] + cs;
    forall x | 0 <= x < |fat| && x !in all && (x != prev || prev == 0)
      ensures fat'[x] == fat[x]
    {
      assert x != c && x !in cs;
    }
    if prev != 0 { assert prev !in cs; }
  }

  lemma GrownClusters(fat: seq<nat>, mid: seq<nat>, fat': seq<nat>, prev: nat, c: nat, cs: seq<nat>)
    requires Turned(fat, mid, prev, c) && Grown(mid, fat', c, cs)
    ensures var all := [c] + cs;
            && Distinct(all) && fat'[all[|all| - 1]] == LAST
            && (forall i :: 0 <= i < |all| ==> InTable(fat, all[i]) && fat[all[i]] == 0)
            && (forall i :: 0 <= i < |all| - 1 ==> Linked(fat', all, i))
  {
    var all := [c] + cs;
    forall i | 0 <= i < |all|
      ensures InTable(fat, all[i]) && fat[all[i]] == 0
    {
      if i > 0 { assert all[i] == cs[i - 1] && mid[cs[i - 1]] == 0; }
    }
    assert c !in cs;
    forall i | 0 <= i < |all| - 1
      ensures Linked(fat', all, i)
    {
      if i > 0 { assert all[i] == cs[i - 1] && all[i + 1] == cs[i] && Linked(fat', cs, i - 1); }
    }
    if cs == [] { assert fat'[c] == mid[c]; }
  }

  /** A grown run, on its own, is a chain. */
  lemma GrownIsChain(fat: seq<nat>, fat': seq<nat>, prev: nat, cs: seq<nat>)
    requires Grown(fat, fat', prev, cs)
    ensures IsChain(fat', cs)
  {
  }

  lemma {:induction false} AppendFrame(v: Store, cb: nat, buf: seq<byte>, prev: nat)
    requires cb > 0 && cb % 512 == 0 && WellFormed(v, cb) && prev < |v.fat|
    ensures var r := Append(v, cb, buf, prev);
            && |r.v.data| == |v.data|
            && (forall c :: 0 <= c < |v.data| && c !in r.cs ==> r.v.data[c] == v.data[c])
    decreases |buf|
  {
    var r := Append(v, cb, buf, prev);
    NextFitExhaustive(v.fat, v.hint);
    var c := NextFit(v.fat, v.hint);
    if buf != [] && c != 0 {
      var u := Turn(v, cb, buf, prev);
      var rest := buf[Min(|buf|, cb)..];
      AppendFrame(u, cb, rest, c);
      var s := Append(u, cb, rest, c);
      assert r.v == s.v && r.cs == [c] + s.cs;
      assert forall x :: x !in [c] + s.cs ==> x != c && x !in s.cs;
    }
  }

  /** The clusters taken hold the bytes written, in chain order. */
  lemma {:induction false} AppendStores(v: Store, cb: nat, buf: seq<byte>, prev: nat)
    requires cb > 0 && cb % 512 == 0 && WellFormed(v, cb)
    requires prev == 0 || (InTable(v.fat, prev) && v.fat[prev] != 0)
    ensures var r := Append(v, cb, buf, prev);
            r.Filled? ==>
              && (forall i :: 0 <= i < |r.cs| ==> r.cs[i] < |r.v.data|)
              && buf <= Gather(r.v.data, r.cs)
    decreases |buf|
  {
    var r := Append(v, cb, buf, prev);
    if buf != [] && r.Filled? {
      NextFitExhaustive(v.fat, v.hint);
      var c := NextFit(v.fat, v.hint);
      var u := Turn(v, cb, buf, prev);
      var n := Min(|buf|, cb);
      var s := Append(u, cb, buf[n..], c);
      assert r == Filled(s.v, [c] + s.cs);
      AppendStores(u, cb, buf[n..], c);
      AppendMisses(u, cb, buf[n..], c);
      assert s.v.data[c] == Patch(v.data[c], buf[..n]);
      assert r.cs[1..] == s.cs;
      StoredPrefix(s.v.data[c], Gather(s.v.data, s.cs), buf, n, cb);
    }
  }

  /** The cluster taken last is not taken again, so its bytes stay. */
  lemma AppendMisses(v: Store, cb: nat, buf: seq<byte>, prev: nat)
    requires cb > 0 && cb % 512 == 0 && WellFormed(v, cb)
    requires InTable(v.fat, prev) && v.fat[prev] != 0
    ensures var r := Append(v, cb, buf, prev);
            r.Filled? ==> |r.v.data| == |v.data| && r.v.data[prev] == v.data[prev]
  {
    AppendGrows(v, cb, buf, prev);
    AppendFrame(v, cb, buf, prev);
  }

  lemma StoredPrefix(block: seq<byte>, rest: seq<byte>, buf: seq<byte>, n: nat, cb: nat)
    requires n == Min(|buf|, cb) && |block| == cb && block[..n] == buf[..n] && buf[n..] <= rest
    ensures buf <= block + rest
  {
    if n < cb {
      assert buf == buf[..n];
    } else {
      assert block == buf[..n];
      assert buf == buf[..n] + buf[n..];
    }
  }

  lemma TakeShrinks(v: Store, cb: nat, buf: seq<byte>, prev: nat)
    requires cb > 0 && cb % 512 == 0 && WellFormed(v, cb) && buf != []
    requires prev == 0 || (InTable(v.fat, prev) && v.fat[prev] != 0)
    requires NextFit(v.fat, v.hint) in FreeSet(v.fat)
    ensures WellFormed(Turn(v, cb, buf, prev), cb)
    ensures FreeSet(Turn(v, cb, buf, prev).fat) == FreeSet(v.fat) - {NextFit(v.fat, v.hint)}
  {
  }

  /** The write loop succeeds exactly when the table holds enough free clusters, and then takes
      exactly as many as the bytes need. */
  lemma {:induction false} AppendCount(v: Store, cb: nat, buf: seq<byte>, prev: nat)
    requires cb > 0 && cb % 512 == 0 && WellFormed(v, cb)
    requires prev == 0 || (InTable(v.fat, prev) && v.fat[prev] != 0)
    ensures Append(v, cb, buf, prev).Filled? <==> ClustersFor(|buf|, cb) <= |FreeSet(v.fat)|
    ensures var r := Append(v, cb, buf, prev);
            r.Filled? ==> |r.cs| == ClustersFor(|buf|, cb)
    decreases |buf|
  {
    hide NextFit, Patch, ClustersFor;
    ClustersStep(|buf|, cb);
    if buf != [] {
      NextFitExhaustive(v.fat, v.hint);
      var c := NextFit(v.fat, v.hint);
      if c != 0 {
        TakeShrinks(v, cb, buf, prev);
        var u := Turn(v, cb, buf, prev);
        AppendCount(u, cb, buf[Min(|buf|, cb)..], c);
      }
    }
  }

  // ---------------------------------------------------------------- files

  datatype File = File(first: nat, size: nat)

  ghost function Members(cs: seq<nat>): set<nat> { set c | c in cs }

  ghost predicate Disjoint(a: seq<nat>, b: seq<nat>) {
    forall c :: c in a ==> c !in b
  }

  /** The chains of all live entries: each whole, none shared. `chains` names the chain of each. */
  ghost predicate Sound<K>(fat: seq<nat>, files: map<K, File>, chains: map<K, seq<nat>>) {
    && LinksInside(fat)
    && chains.Keys == files.Keys
    && (forall k :: k in files ==> IsChain(fat, chains[k]) && files[k].first == Head(chains[k]))
    && (forall j, k :: j in files && k in files && j != k ==> Disjoint(chains[j], chains[k]))
  }

  /** The store after the old chain of an overwritten file was released and zeroed. */
  ghost function Released(v: Store, first: nat): (r: Store)
    requires LinksInside(v.fat) && StartsInside(v.fat, first)
  {
    var cs := Visit(v.fat, first);
    v.(fat := ZeroFat(v.fat, cs), data := ZeroData(v.data, cs))
  }

  /** `fat16_write_file` below its directory lookup: release the old chain, write a new one. */
  ghost function Overwrite(v: Store, cb: nat, first: nat, buf: seq<byte>): (r: FillResult)
    requires cb > 0 && cb % 512 == 0 && WellFormed(v, cb)
    requires LinksInside(v.fat) && StartsInside(v.fat, first)
  {
    Append(Released(v, first), cb, buf, 0)
  }

  lemma ZeroedSound<K>(fat: seq<nat>, files: map<K, File>, chains: map<K, seq<nat>>, k: K)
    requires Sound(fat, files, chains) && k in files
    ensures Sound(ZeroFat(fat, chains[k]), files - {k}, chains - {k})
  {
    var fat' := ZeroFat(fat, chains[k]);
    forall j | j in files && j != k
      ensures IsChain(fat', chains[j])
    {
      assert Disjoint(chains[j], chains[k]);
      ChainFrame(fat, fat', chains[j]);
    }
  }

  lemma ZeroedFree(fat: seq<nat>, cs: seq<nat>)
    requires IsChain(fat, cs)
    ensures FreeSet(ZeroFat(fat, cs)) == FreeSet(fat) + Members(cs)
  {
  }

  /** Removing entry `k` from a sound table: its chain is freed, the other chains stand. */
  lemma ReleaseSound<K>(v: Store, cb: nat, files: map<K, File>, chains: map<K, seq<nat>>, k: K)
    requires WellFormed(v, cb) && Sound(v.fat, files, chains) && k in files
    ensures StartsInside(v.fat, files[k].first)
    ensures Released(v, files[k].first) ==
            v.(fat := ZeroFat(v.fat, chains[k]), data := ZeroData(v.data, chains[k]))
    ensures WellFormed(Released(v, files[k].first), cb)
    ensures Sound(Released(v, files[k].first).fat, files - {k}, chains - {k})
    ensures FreeSet(Released(v, files[k].first).fat) == FreeSet(v.fat) + Members(chains[k])
  {
    hide Sound, IsChain, Visit, LinksInside, StartsInside, FreeSet;
    SoundChain(v.fat, files, chains, k);
    SoundLinks(v.fat, files, chains);
    VisitChain(v.fat, chains[k]);
    ZeroedSound(v.fat, files, chains, k);
    ZeroedFree(v.fat, chains[k]);
  }

  lemma SoundLinks<K>(fat: seq<nat>, files: map<K, File>, chains: map<K, seq<nat>>)
    requires Sound(fat, files, chains)
    ensures LinksInside(fat) && chains.Keys == files.Keys
  {
  }

  lemma GrownFree(fat: seq<nat>, fat': seq<nat>, cs: seq<nat>)
    requires |fat| <= EOC && LinksInside(fat) && Grown(fat, fat', 0, cs)
    ensures LinksInside(fat')
    ensures FreeSet(fat') == FreeSet(fat) - Members(cs)
  {
    forall c | 2 <= c < |fat|
      ensures c in cs ==> fat'[c] == LAST || InTable(fat, fat'[c])
      ensures c !in cs ==> fat'[c] == fat[c]
    {
      if c in cs {
        var i :| 0 <= i < |cs| && cs[i] == c;
        if i < |cs| - 1 { assert Linked(fat', cs, i); }
      }
    }
    assert forall c :: c in cs ==> fat'[c] != 0;
  }

  /** Putting a run grown from free clusters under key `k`, in place of whatever `k` had. */
  lemma GrownSound<K>(fat: seq<nat>, fat': seq<nat>, files: map<K, File>, chains: map<K, seq<nat>>,
                      k: K, cs: seq<nat>, size: nat)
    requires |fat| <= EOC && Sound(fat, files - {k}, chains - {k}) && Grown(fat, fat', 0, cs)
    requires chains.Keys == files.Keys
    ensures Sound(fat', files[k := File(Head(cs), size)], chains[k := cs])
  {
    hide IsChain, Grown, Disjoint, LinksInside;
    GrownIsChain(fat, fat', 0, cs);
    GrownFree(fat, fat', cs);
    forall j | j in files && j != k
      ensures IsChain(fat', chains[j]) && Disjoint(chains[j], cs) && Disjoint(cs, chains[j])
      ensures files[j].first == Head(chains[j])
    {
      assert j in files - {k} && (chains - {k})[j] == chains[j];
      ChainMissesGrown(fat, fat', chains[j], cs);
    }
    forall i, j | i in files && j in files && i != k && j != k && i != j
      ensures Disjoint(chains[i], chains[j])
    {
      assert i in files - {k} && j in files - {k};
    }
  }

  lemma ChainMissesGrown(fat: seq<nat>, fat': seq<nat>, old_: seq<nat>, cs: seq<nat>)
    requires IsChain(fat, old_) && Grown(fat, fat', 0, cs)
    ensures Disjoint(old_, cs) && Disjoint(cs, old_)
    ensures IsChain(fat', old_)
  {
    forall c | c in old_
      ensures c !in cs && c < |fat| && fat'[c] == fat[c]
    {
      ChainEntryUsed(fat, old_, c);
    }
    ChainFrame(fat, fat', old_);
  }

  /** No entry of a chain is a free entry. */
  lemma ChainEntryUsed(fat: seq<nat>, cs: seq<nat>, c: nat)
    requires IsChain(fat, cs) && c in cs
    ensures InTable(fat, c) && fat[c] != 0
  {
    var i :| 0 <= i < |cs| && cs[i] == c;
    if i < |cs| - 1 { assert Linked(fat, cs, i); }
  }

  // ---------------------------------------------------------------- the overwrite theorems

  /** What a file holds: the bytes of its chain, cut at its size. */
  function Content(data: seq<seq<byte>>, cs: seq<nat>, size: nat): (r: seq<byte>)
    requires forall i :: 0 <= i < |cs| ==> cs[i] < |data|
  {
    var all := Gather(data, cs);
    all[..Min(size, |all|)]
  }

  /** An overwrite leaves every other chain whole and the clusters taken as a chain of their own, none
      shared; a successful one puts that chain under the entry. */
  lemma OverwriteSound<K>(v: Store, cb: nat, files: map<K, File>, chains: map<K, seq<nat>>, k: K, buf: seq<byte>)
    requires cb > 0 && cb % 512 == 0 && WellFormed(v, cb) && Sound(v.fat, files, chains) && k in files
    ensures StartsInside(v.fat, files[k].first)
    ensures var r := Overwrite(v, cb, files[k].first, buf);
            && WellFormed(r.v, cb)
            && Sound(r.v.fat, files[k := File(Head(r.cs), |buf|)], chains[k := r.cs])
  {
    ReleaseSound(v, cb, files, chains, k);
    var w := Released(v, files[k].first);
    var r := Overwrite(v, cb, files[k].first, buf);
    AppendGrows(w, cb, buf, 0);
    GrownSound(w.fat, r.v.fat, files, chains, k, r.cs, |buf|);
  }

  // ---------------------------------------------------------------- overwrites that run out of space

  /** A fill that runs out has taken every free cluster. */
  lemma {:induction false} AppendTakesAll(v: Store, cb: nat, buf: seq<byte>, prev: nat)
    requires cb > 0 && cb % 512 == 0 && WellFormed(v, cb)
    requires prev == 0 || (InTable(v.fat, prev) && v.fat[prev] != 0)
    ensures var r := Append(v, cb, buf, prev); r.Full? ==> FreeSet(r.v.fat) == {} && Members(r.cs) == FreeSet(v.fat)
    decreases |buf|
  {
    hide NextFit, Patch;
    NextFitExhaustive(v.fat, v.hint);
    var c := NextFit(v.fat, v.hint);
    if buf != [] && c != 0 {
      TakeShrinks(v, cb, buf, prev);
      var u, rest := Turn(v, cb, buf, prev), buf[Min(|buf|, cb)..];
      AppendTakesAll(u, cb, rest, c);
      var s := Append(u, cb, rest, c);
      MembersFirst(c, s.cs);
    }
  }

  lemma MembersFirst(c: nat, cs: seq<nat>)
    ensures Members([c] + cs) == {c} + Members(cs)
  {
  }

  /** The part of `cs` from cluster `c` on. */
  ghost function From(cs: seq<nat>, c: nat): (r: seq<nat>)
    ensures c in cs ==> r != [] && r[0] == c
    ensures c !in cs ==> r == []
    ensures forall x :: x in r ==> x in cs
  {
    if cs == [] then [] else if cs[0] == c then cs else From(cs[1..], c)
  }

  lemma {:induction false} FromChain(fat: seq<nat>, cs: seq<nat>, c: nat)
    requires |fat| <= EOC && IsChain(fat, cs)
    ensures IsChain(fat, From(cs, c))
  {
    if cs != [] && cs[0] != c {
      ChainTail(fat, cs);
      FromChain(fat, cs[1..], c);
    }
  }

  /** The chain an entry heads after its file's overwrite ran out of space: the entry was not
      rewritten, its first cluster was taken again, so it heads the last part of what was taken. */
  ghost function LeftOver(first: nat, taken: seq<nat>): seq<nat> { if first == 0 then [] else From(taken, first) }

  /** An overwrite that runs out of space keeps every chain whole and no cluster shared as well. */
  lemma FailedOverwriteSound<K>(v: Store, cb: nat, files: map<K, File>, chains: map<K, seq<nat>>, k: K,
                             buf: seq<byte>)
    requires cb > 0 && cb % 512 == 0 && WellFormed(v, cb) && Sound(v.fat, files, chains) && k in files
    ensures StartsInside(v.fat, files[k].first)
    ensures var r := Overwrite(v, cb, files[k].first, buf);
            r.Full? ==>
              && WellFormed(r.v, cb) && FreeSet(r.v.fat) == {}
              && Sound(r.v.fat, files, chains[k := LeftOver(files[k].first, r.cs)])
  {
    hide Append, Sound, Visit, Grown, LinksInside;
    SoundLinks(v.fat, files, chains);
    SoundChain(v.fat, files, chains, k);
    ReleaseSound(v, cb, files, chains, k);
    OverwriteSound(v, cb, files, chains, k, buf);
    var r, first := Overwrite(v, cb, files[k].first, buf), files[k].first;
    if r.Full? {
      AppendTakesAll(Released(v, first), cb, buf, 0);
      if first != 0 { assert first in chains[k]; assert first in Members(r.cs); }
      SuffixSound(r.v.fat, files, chains, k, r.cs, |buf|, first);
    }
  }

  lemma SuffixSound<K>(fat: seq<nat>, files: map<K, File>, chains: map<K, seq<nat>>, k: K, cs: seq<nat>, size: nat,
                    first: nat)
    requires |fat| <= EOC && k in files && files[k].first == first && (first == 0 || first in cs)
    requires chains.Keys == files.Keys && Sound(fat, files[k := File(Head(cs), size)], chains[k := cs])
    ensures Sound(fat, files, chains[k := LeftOver(first, cs)])
  {
    hide IsChain, From;
    var files1, chains1 := files[k := File(Head(cs), size)], chains[k := cs];
    assert chains1[k] == cs;
    FromChain(fat, cs, first);
    EmptyChain(fat);
    forall j | j in files && j != k
      ensures IsChain(fat, chains[j]) && files[j].first == Head(chains[j])
      ensures Disjoint(chains[j], cs) && Disjoint(cs, chains[j])
    {
      assert files1[j] == files[j] && chains1[j] == chains[j];
    }
    forall i, j | i in files && j in files && i != k && j != k && i != j
      ensures Disjoint(chains[i], chains[j])
    {
      assert chains1[i] == chains[i] && chains1[j] == chains[j];
    }
  }

  lemma EmptyChain(fat: seq<nat>)
    ensures IsChain(fat, [])
  {
  }

  /** The overwritten file holds exactly the new bytes. */
  lemma OverwriteReadsBack<K>(v: Store, cb: nat, files: map<K, File>, chains: map<K, seq<nat>>, k: K,
                           buf: seq<byte>)
    requires cb > 0 && cb % 512 == 0 && WellFormed(v, cb) && Sound(v.fat, files, chains) && k in files
    ensures StartsInside(v.fat, files[k].first)
    ensures var r := Overwrite(v, cb, files[k].first, buf);
            r.Filled? ==>
              && (forall i :: 0 <= i < |r.cs| ==> r.cs[i] < |r.v.data|)
              && Content(r.v.data, r.cs, |buf|) == buf
  {
    hide Append, Sound, Released, Gather, LinksInside;
    SoundLinks(v.fat, files, chains);
    ReleaseSound(v, cb, files, chains, k);
    AppendStores(Released(v, files[k].first), cb, buf, 0);
  }

  /** Every cluster of another file holds what it held, although freed clusters are reused. */
  lemma OverwriteBlocks<K>(v: Store, cb: nat, files: map<K, File>, chains: map<K, seq<nat>>, k: K, buf: seq<byte>,
                           j: K)
    requires cb > 0 && cb % 512 == 0 && WellFormed(v, cb) && Sound(v.fat, files, chains)
    requires k in files && j in files && j != k
    ensures StartsInside(v.fat, files[k].first)
    ensures var r := Overwrite(v, cb, files[k].first, buf);
            && |r.v.data| == |v.data|
            && (forall i :: 0 <= i < |chains[j]| ==> chains[j][i] < |v.data|)
            && (forall i :: 0 <= i < |chains[j]| ==> r.v.data[chains[j][i]] == v.data[chains[j][i]])
  {
    hide Append, Grown, Sound, IsChain, Disjoint, LinksInside;
    SoundLinks(v.fat, files, chains);
    ReleaseSound(v, cb, files, chains, k);
    SoundPair(v.fat, files, chains, k, j);
    var w := Released(v, files[k].first);
    SoundChain(w.fat, files - {k}, chains - {k}, j);
    var r := Overwrite(v, cb, files[k].first, buf);
    AppendGrows(w, cb, buf, 0);
    AppendFrame(w, cb, buf, 0);
    ChainMissesGrown(w.fat, r.v.fat, chains[j], r.cs);
    ChainInside(v.fat, chains[j]);
    BlocksKept(v.data, w.data, r.v.data, chains[j], chains[k], r.cs);
  }

  /** So every other file holds the same bytes as before. */
  lemma OverwriteIsolated<K>(v: Store, cb: nat, files: map<K, File>, chains: map<K, seq<nat>>, k: K, buf: seq<byte>,
                             j: K)
    requires cb > 0 && cb % 512 == 0 && WellFormed(v, cb) && Sound(v.fat, files, chains)
    requires k in files && j in files && j != k
    ensures StartsInside(v.fat, files[k].first)
    ensures var r := Overwrite(v, cb, files[k].first, buf);
            && |r.v.data| == |v.data|
            && Content(r.v.data, chains[j], files[j].size) == Content(v.data, chains[j], files[j].size)
  {
    hide Overwrite, Sound, Gather, LinksInside;
    SoundLinks(v.fat, files, chains);
    OverwriteBlocks(v, cb, files, chains, k, buf, j);
    GatherFrame(v.data, Overwrite(v, cb, files[k].first, buf).v.data, chains[j]);
  }

  lemma SoundChain<K>(fat: seq<nat>, files: map<K, File>, chains: map<K, seq<nat>>, j: K)
    requires Sound(fat, files, chains) && j in files
    ensures j in chains && IsChain(fat, chains[j]) && files[j].first == Head(chains[j])
  {
  }

  lemma SoundPair<K>(fat: seq<nat>, files: map<K, File>, chains: map<K, seq<nat>>, k: K, j: K)
    requires Sound(fat, files, chains) && k in files && j in files && j != k
    ensures j in chains && k in chains && IsChain(fat, chains[j]) && Disjoint(chains[j], chains[k])
  {
  }

  lemma ChainInside(fat: seq<nat>, cs: seq<nat>)
    requires IsChain(fat, cs)
    ensures forall i :: 0 <= i < |cs| ==> 2 <= cs[i] < |fat|
  {
  }

  /** Blocks of a chain survive a release and a fill that both miss it. */
  lemma BlocksKept(data: seq<seq<byte>>, mid: seq<seq<byte>>, data': seq<seq<byte>>, cs: seq<nat>, gone: seq<nat>,
                   taken: seq<nat>)
    requires |data'| == |data| && mid == ZeroData(data, gone) && Disjoint(cs, gone) && Disjoint(cs, taken)
    requires forall c :: 0 <= c < |mid| && c !in taken ==> data'[c] == mid[c]
    requires forall i :: 0 <= i < |cs| ==> cs[i] < |data|
    ensures forall i :: 0 <= i < |cs| ==> data'[cs[i]] == data[cs[i]]
  {
    forall i | 0 <= i < |cs|
      ensures data'[cs[i]] == data[cs[i]]
    {
      assert cs[i] in cs;
    }
  }

  lemma {:induction false} DistinctCard(cs: seq<nat>)
    requires Distinct(cs)
    ensures |Members(cs)| == |cs|
  {
    if cs != [] {
      var t := cs[1..];
      DistinctCard(t);
      assert forall c :: c in t ==> exists i :: 1 <= i < |cs| && cs[i] == c;
      assert Members(cs) == Members(t) + {cs[0]};
    }
  }

  /** Conservation: an overwrite succeeds exactly when the free clusters and the old chain
      together suffice, and it moves the free count by old length minus new length. */
  lemma OverwriteConserves<K>(v: Store, cb: nat, files: map<K, File>, chains: map<K, seq<nat>>, k: K,
                           buf: seq<byte>)
    requires cb > 0 && cb % 512 == 0 && WellFormed(v, cb) && Sound(v.fat, files, chains) && k in files
    ensures StartsInside(v.fat, files[k].first)
    ensures var r := Overwrite(v, cb, files[k].first, buf);
            && (r.Filled? <==> ClustersFor(|buf|, cb) <= |FreeSet(v.fat)| + |chains[k]|)
            && (r.Filled? ==>
                  |FreeSet(r.v.fat)| == |FreeSet(v.fat)| + |chains[k]| - ClustersFor(|buf|, cb))
  {
    hide Append, Sound, Released, IsChain, FreeSet, ClustersFor, LinksInside;
    SoundLinks(v.fat, files, chains);
    ReleaseSound(v, cb, files, chains, k);
    SoundChain(v.fat, files, chains, k);
    var w := Released(v, files[k].first);
    SoundLinks(w.fat, files - {k}, chains - {k});
    ReleaseCount(v.fat, chains[k]);
    AppendCount(w, cb, buf, 0);
    var r := Overwrite(v, cb, files[k].first, buf);
    if r.Filled? {
      AppendGrows(w, cb, buf, 0);
      GrownFree(w.fat, r.v.fat, r.cs);
      DistinctCard(r.cs);
      GrownFromFree(w.fat, r.v.fat, r.cs);
    }
  }

  lemma GrownFromFree(fat: seq<nat>, fat': seq<nat>, cs: seq<nat>)
    requires Grown(fat, fat', 0, cs)
    ensures Members(cs) <= FreeSet(fat)
  {
  }

  /** A remove returns exactly the chain to the free clusters. */
  lemma ReleaseCount(fat: seq<nat>, cs: seq<nat>)
    requires IsChain(fat, cs)
    ensures |FreeSet(ZeroFat(fat, cs))| == |FreeSet(fat)| + |cs|
  {
    ZeroedFree(fat, cs);
    DistinctCard(cs);
    forall c | c in cs
      ensures c !in FreeSet(fat)
    {
      ChainEntryUsed(fat, cs, c);
    }
  }

  // ---------------------------------------------------------------- readers

  /** The bytes a reader of a file of size `size` should deliver for `[off, off + n)`. */
  function Slice(all: seq<byte>, off: nat, n: nat, size: nat): (r: seq<byte>) {
    var hi := Min(Min(off + n, size), |all|);
    all[Min(off, hi)..hi]
  }

  /** The length `fat16_read_file_range` settles on: the sum is a 32-bit one. */
  function RangeLength(off: nat, n: nat, size: nat): nat
    requires off < size
  {
    if U32(off + n) > size then size - off else n
  }

  /** The range reader delivers the specified slice exactly when the 32-bit sum does not wrap,
      or the file fills its last cluster to the end so that nothing lies behind it. */
  lemma RangeExact(all: seq<byte>, off: nat, n: nat, size: nat)
    requires off < size <= |all| && size < TWO32 && n < TWO32
    ensures all[off..Min(off + RangeLength(off, n, size), |all|)] == Slice(all, off, n, size)
            <==> off + n < TWO32 || size == |all|
  {
    if off + n >= TWO32 {
      assert U32(off + n) == off + n - TWO32 < off;
      assert RangeLength(off, n, size) == n;
      var hi := Min(off + n, |all|);
      assert |all[off..hi]| == hi - off;
      assert |Slice(all, off, n, size)| == size - off;
    }
  }

  /** The wrap is reachable: a one-byte file, read from 0 with a length of 2^32 - 1, is fine, but
      from offset 1 of a two-byte file the same length overruns the file by its cluster's slack. */
  lemma RangeOverrun(all: seq<byte>)
    requires |all| == 512
    ensures all[1..Min(1 + RangeLength(1, TWO32 - 1, 2), |all|)] == all[1..512]
    ensures Slice(all, 1, TWO32 - 1, 2) == all[1..2]
  {
  }

  /** Reading a whole file with room for it delivers its content. */
  lemma ReadWhole(data: seq<seq<byte>>, cs: seq<nat>, size: nat, n: nat)
    requires (forall i :: 0 <= i < |cs| ==> cs[i] < |data|) && size <= n
    ensures Slice(Gather(data, cs), 0, n, size) == Content(data, cs, size)
  {
    hide Gather;
  }

  lemma {:induction false} GatherBlock(data: seq<seq<byte>>, cs: seq<nat>, cb: nat, q: nat)
    requires forall i :: 0 <= i < |cs| ==> cs[i] < |data|
    requires forall c :: 0 <= c < |data| ==> |data[c]| == cb
    requires q < |cs|
    ensures q * cb + cb <= |Gather(data, cs)| && Gather(data, cs)[q * cb..q * cb + cb] == data[cs[q]]
  {
    GatherLength(data, cs, cb);
    MulMono(q + 1, |cs|, cb);
    MulStep(q, cb);
    if q > 0 {
      GatherBlock(data, cs[1..], cb, q - 1);
      MulStep(q - 1, cb);
      var all, t := Gather(data, cs), Gather(data, cs[1..]);
      assert all == data[cs[0]] + t;
      assert all[q * cb..q * cb + cb] == t[(q - 1) * cb..(q - 1) * cb + cb];
    }
  }

  /** Cutting a piece out of one block cuts it out of the whole. */
  lemma GatherPiece(data: seq<seq<byte>>, cs: seq<nat>, cb: nat, q: nat, a: nat, n: nat)
    requires forall i :: 0 <= i < |cs| ==> cs[i] < |data|
    requires forall c :: 0 <= c < |data| ==> |data[c]| == cb
    requires q < |cs| && a + n <= cb
    ensures q * cb + cb <= |Gather(data, cs)|
    ensures data[cs[q]][a..a + n] == Gather(data, cs)[q * cb + a..q * cb + a + n]
  {
    hide Gather;
    GatherBlock(data, cs, cb, q);
    SliceOfSlice(Gather(data, cs), q * cb, cb, a, n);
  }

  lemma SliceOfSlice(all: seq<byte>, x: nat, cb: nat, a: nat, n: nat)
    requires x + cb <= |all| && a + n <= cb
    ensures all[x..x + cb][a..a + n] == all[x + a..x + a + n]
  {
    var block := all[x..x + cb];
    assert forall k :: 0 <= k < cb ==> block[k] == all[x + k];
    var got, want := block[a..a + n], all[x + a..x + a + n];
    forall k | 0 <= k < n
      ensures got[k] == want[k]
    {
      assert got[k] == block[a + k];
    }
  }

  // ---------------------------------------------------------------- creating a file

  lemma ReserveTurnMeans(v: Store, cb: nat, prev: nat, scratch: nat -> bool)
    requires WellFormed(v, cb) && (prev == 0 || (InTable(v.fat, prev) && v.fat[prev] != 0))
    requires NextFit(v.fat, v.hint) != 0
    ensures var c, u := NextFit(v.fat, v.hint), ReserveTurn(v, cb, prev, scratch);
            && c in FreeSet(v.fat) && c != prev && WellFormed(u, cb)
            && u.fat == (if prev == 0 then v.fat[c := LAST] else v.fat[prev := c][c := LAST])
            && FreeSet(u.fat) == FreeSet(v.fat) - {c}
            && (forall x :: 0 <= x < |v.data| && x != c ==> u.data[x] == v.data[x])
  {
    NextFitExhaustive(v.fat, v.hint);
  }

  lemma {:induction false} ReserveGrows(v: Store, cb: nat, n: nat, prev: nat, scratch: nat -> bool)
    requires WellFormed(v, cb) && (prev == 0 || (InTable(v.fat, prev) && v.fat[prev] != 0))
    ensures var (u, cs) := Reserve(v, cb, n, prev, scratch);
            WellFormed(u, cb) && Grown(v.fat, u.fat, prev, cs)
    decreases n
  {
    hide NextFit, Grown, ReserveTurn, WellFormed;
    GrownNothing(v.fat, prev);
    WellFormedSizes(v, cb);
    var c := NextFit(v.fat, v.hint);
    if n > 0 && c != 0 {
      ReserveTurnMeans(v, cb, prev, scratch);
      var x := ReserveTurn(v, cb, prev, scratch);
      ReserveGrows(x, cb, n - 1, c, scratch);
      var (u, cs) := Reserve(x, cb, n - 1, c, scratch);
      GrownStep(v.fat, x.fat, u.fat, prev, c, cs);
      assert Reserve(v, cb, n, prev, scratch) == (u, [c] + cs);
    }
  }

  lemma FreeMember(fat: seq<nat>, c: nat)
    ensures c in FreeSet(fat) <==> InTable(fat, c) && fat[c] == 0
  {
  }

  lemma GrownNothing(fat: seq<nat>, prev: nat)
    ensures Grown(fat, fat, prev, [])
  {
  }

  lemma WellFormedSizes(v: Store, cb: nat)
    requires WellFormed(v, cb)
    ensures 2 <= |v.fat| == |v.data|
  {
  }

  lemma {:induction false} ReserveFrame(v: Store, cb: nat, n: nat, prev: nat, scratch: nat -> bool)
    requires WellFormed(v, cb) && (prev == 0 || (InTable(v.fat, prev) && v.fat[prev] != 0))
    ensures var (u, cs) := Reserve(v, cb, n, prev, scratch);
            |u.data| == |v.data| && forall c :: 0 <= c < |v.data| && c !in cs ==> u.data[c] == v.data[c]
    decreases n
  {
    hide NextFit, ReserveTurn, WellFormed;
    WellFormedSizes(v, cb);
    var c := NextFit(v.fat, v.hint);
    if n > 0 && c != 0 {
      ReserveTurnMeans(v, cb, prev, scratch);
      var x := ReserveTurn(v, cb, prev, scratch);
      ReserveFrame(x, cb, n - 1, c, scratch);
      var (u, cs) := Reserve(x, cb, n - 1, c, scratch);
      assert Reserve(v, cb, n, prev, scratch) == (u, [c] + cs);
      assert forall y :: y !in [c] + cs ==> y != c && y !in cs;
    }
  }

  /** A create gets as many clusters as it asked for, or all that were free. */
  lemma {:induction false} ReserveCount(v: Store, cb: nat, n: nat, prev: nat, scratch: nat -> bool)
    requires WellFormed(v, cb) && (prev == 0 || (InTable(v.fat, prev) && v.fat[prev] != 0))
    ensures |Reserve(v, cb, n, prev, scratch).1| == Min(n, |FreeSet(v.fat)|)
    decreases n
  {
    hide NextFit, ReserveTurn, FreeSet, WellFormed;
    WellFormedSizes(v, cb);
    NextFitExhaustive(v.fat, v.hint);
    var c := NextFit(v.fat, v.hint);
    if n > 0 && c != 0 {
      ReserveTurnMeans(v, cb, prev, scratch);
      FreeMember(v.fat, c);
      var x := ReserveTurn(v, cb, prev, scratch);
      ReserveCount(x, cb, n - 1, c, scratch);
      var (u, cs) := Reserve(x, cb, n - 1, c, scratch);
      assert Reserve(v, cb, n, prev, scratch) == (u, [c] + cs);
    }
  }

  // ---------------------------------------------------------------- clusters on the disk

  /** The clusters left to take stay below the limit after a turn. */
  lemma TurnSafe(v: Store, cb: nat, rest: seq<byte>, prev: nat, limit: nat)
    requires cb > 0 && cb % 512 == 0 && WellFormed(v, cb) && prev < |v.fat| && (prev == 0 || v.fat[prev] != 0)
    requires rest != [] && Safe(v.fat, v.hint, limit, ClustersFor(|rest|, cb))
    ensures Safe(v.fat, v.hint, limit, 1)
    ensures NextFit(v.fat, v.hint) != 0 ==>
              var u := Turn(v, cb, rest, prev);
              && u.fat[NextFit(v.fat, v.hint)] != 0
              && Safe(u.fat, u.hint, limit, ClustersFor(|rest[Min(|rest|, cb)..]|, cb))
  {
    hide NextFit, Patch, ClustersFor;
    ClustersStep(|rest|, cb);
    LinkedSafe(v.fat, v.hint, prev, limit, ClustersFor(|rest|, cb));
  }

  lemma ReserveTurnSafe(v: Store, cb: nat, prev: nat, scratch: nat -> bool, limit: nat, left: nat)
    requires WellFormed(v, cb) && prev < |v.fat| && (prev == 0 || v.fat[prev] != 0)
    requires left > 0 && Safe(v.fat, v.hint, limit, left)
    ensures Safe(v.fat, v.hint, limit, 1)
    ensures NextFit(v.fat, v.hint) != 0 ==>
              var u := ReserveTurn(v, cb, prev, scratch);
              u.fat[NextFit(v.fat, v.hint)] != 0 && Safe(u.fat, u.hint, limit, left - 1)
  {
    hide NextFit;
    NextFitExhaustive(v.fat, v.hint);
    LinkedSafe(v.fat, v.hint, prev, limit, left);
  }

  lemma LinkedSafe(fat: seq<nat>, hint: nat, prev: nat, limit: nat, n: nat)
    requires 2 <= |fat| && prev < |fat| && (prev == 0 || fat[prev] != 0) && n > 0 && Safe(fat, hint, limit, n)
    ensures Safe(fat, hint, limit, 1)
    ensures var c := NextFit(fat, hint);
            c != 0 ==>
              && c < |fat|
              && var linked := if prev == 0 then fat[c := LAST] else fat[c := LAST][prev := c];
                 Safe(linked[c := LAST], c + 1, limit, n - 1)
  {
    hide NextFit;
    SafeFewer(fat, hint, limit, n, 1);
    NextFitExhaustive(fat, hint);
    var c := NextFit(fat, hint);
    if c != 0 {
      var linked := if prev == 0 then fat[c := LAST] else fat[c := LAST][prev := c];
      SafeFrame(fat[c := LAST], linked[c := LAST], c + 1, limit, n - 1);
    }
  }

  /** A write whose next clusters are on the disk builds its chain there. */
  lemma {:induction false} AppendBelow(v: Store, cb: nat, buf: seq<byte>, prev: nat, limit: nat)
    requires cb > 0 && cb % 512 == 0 && WellFormed(v, cb) && prev < |v.fat| && (prev == 0 || v.fat[prev] != 0)
    requires Safe(v.fat, v.hint, limit, ClustersFor(|buf|, cb))
    ensures Below(Append(v, cb, buf, prev).cs, limit)
    decreases |buf|
  {
    hide NextFit, Patch, ClustersFor, Safe;
    if buf != [] && NextFit(v.fat, v.hint) != 0 {
      NextFitExhaustive(v.fat, v.hint);
      TurnSafe(v, cb, buf, prev, limit);
      SafeFirst(v.fat, v.hint, limit);
      AppendBelow(Turn(v, cb, buf, prev), cb, buf[Min(|buf|, cb)..], NextFit(v.fat, v.hint), limit);
    }
  }

  lemma SafeFirst(fat: seq<nat>, hint: nat, limit: nat)
    requires 2 <= |fat| && Safe(fat, hint, limit, 1)
    ensures NextFit(fat, hint) == 0 || NextFit(fat, hint) < limit
  {
    hide NextFit;
  }

  /** So does a create. */
  lemma {:induction false} ReserveBelow(v: Store, cb: nat, n: nat, prev: nat, scratch: nat -> bool, limit: nat)
    requires WellFormed(v, cb) && prev < |v.fat| && (prev == 0 || v.fat[prev] != 0)
    requires Safe(v.fat, v.hint, limit, n)
    ensures Below(Reserve(v, cb, n, prev, scratch).1, limit)
    decreases n
  {
    hide NextFit, ReserveTurn, Safe;
    if n > 0 && NextFit(v.fat, v.hint) != 0 {
      var c, u := NextFit(v.fat, v.hint), ReserveTurn(v, cb, prev, scratch);
      NextFitExhaustive(v.fat, v.hint);
      ReserveTurnSafe(v, cb, prev, scratch, limit, n);
      ReserveTurnFormed(v, cb, prev, scratch);
      SafeFirst(v.fat, v.hint, limit);
      ReserveBelow(u, cb, n - 1, c, scratch, limit);
    }
  }

  lemma ReserveTurnFormed(v: Store, cb: nat, prev: nat, scratch: nat -> bool)
    requires WellFormed(v, cb) && prev < |v.fat| && NextFit(v.fat, v.hint) != 0
    ensures WellFormed(ReserveTurn(v, cb, prev, scratch), cb)
  {
    NextFitExhaustive(v.fat, v.hint);
  }
}
