/** The allocation table of a FAT16 volume as a value: cluster chains, the next-fit
    allocator, chain release and the allocate-link-write loop. No disk layout here. */
module FatChains {
  import opened Bytes

  const EOC := 0xFFF8
  const LAST := 0xFFFF

  /** `Store` is what the volume engine keeps on disk and in `fat16_alloc_hint`: one value per
      table entry, one byte block per cluster, and the allocation hint. */
  datatype Store = Store(fat: seq<nat>, data: seq<seq<byte>>, hint: nat)

  ghost predicate WellFormed(v: Store, cb: nat) {
    && |v.data| == |v.fat| <= EOC
    && 2 <= |v.fat|
    && (forall c :: 0 <= c < |v.data| ==> |v.data[c]| == cb)
  }

  predicate InTable(fat: seq<nat>, c: nat) { 2 <= c < |fat| }

  ghost function FreeSet(fat: seq<nat>): set<nat> {
    set c: nat | 2 <= c < |fat| && fat[c] == 0
  }

  ghost function UsedSet(fat: seq<nat>): set<nat> {
    set c: nat | 0 <= c < |fat| && fat[c] != 0
  }

  // ---------------------------------------------------------------- chains

  ghost predicate Distinct(cs: seq<nat>) {
    forall i, j :: 0 <= i < j < |cs| ==> cs[i] != cs[j]
  }

  /** The `i`-th cluster's entry names the next one. */
  predicate Linked(fat: seq<nat>, cs: seq<nat>, i: nat)
    requires i + 1 < |cs| && cs[i] < |fat|
  {
    fat[cs[i]] == cs[i + 1]
  }

  /** `cs` is a whole chain: inside the table, linked in order, ended by an end-of-chain mark,
      and free of repetitions. The empty sequence is the chain of an entry with no cluster. */
  ghost predicate IsChain(fat: seq<nat>, cs: seq<nat>) {
    && (forall i :: 0 <= i < |cs| ==> InTable(fat, cs[i]))
    && (forall i :: 0 <= i < |cs| - 1 ==> Linked(fat, cs, i))
    && (cs != [] ==> fat[cs[|cs| - 1]] >= EOC)
    && Distinct(cs)
  }

  function Head(cs: seq<nat>): nat { if cs == [] then 0 else cs[0] }

  lemma {:induction false} ChainTail(fat: seq<nat>, cs: seq<nat>)
    requires |fat| <= EOC && IsChain(fat, cs) && cs != []
    ensures IsChain(fat, cs[1..])
    ensures |cs| > 1 ==> fat[cs[0]] == cs[1]
    ensures |cs| == 1 ==> fat[cs[0]] >= EOC
  {
    var t := cs[1..];
    assert forall i :: 0 <= i < |t| ==> t[i] == cs[i + 1];
    forall i | 0 <= i < |t| - 1
      ensures Linked(fat, t, i)
    {
      assert Linked(fat, cs, i + 1);
    }
    if |cs| > 1 { assert Linked(fat, cs, 0); }
  }

  /** The table determines the chain: no entry can be read as two different files. */
  lemma {:induction false} ChainUnique(fat: seq<nat>, a: seq<nat>, b: seq<nat>)
    requires |fat| <= EOC && IsChain(fat, a) && IsChain(fat, b) && Head(a) == Head(b)
    ensures a == b
  {
    if a != [] && b != [] {
      ChainTail(fat, a);
      ChainTail(fat, b);
      assert a == [a[0]] + a[1..] && b == [b[0]] + b[1..];
      if |a| > 1 && |b| > 1 { ChainUnique(fat, a[1..], b[1..]); }
    }
  }

  /** A chain keeps being a chain when only entries outside it change. */
  lemma ChainFrame(fat: seq<nat>, fat': seq<nat>, cs: seq<nat>)
    requires |fat| == |fat'| && IsChain(fat, cs)
    requires forall i :: 0 <= i < |cs| ==> fat'[cs[i]] == fat[cs[i]]
    ensures IsChain(fat', cs)
  {
    forall i | 0 <= i < |cs| - 1
      ensures Linked(fat', cs, i)
    {
      assert Linked(fat, cs, i);
    }
  }

  /** The bytes of the clusters `cs`, one after the other. */
  function Gather(data: seq<seq<byte>>, cs: seq<nat>): (r: seq<byte>)
    requires forall i :: 0 <= i < |cs| ==> cs[i] < |data|
  {
    if cs == [] then [] else data[cs[0]] + Gather(data, cs[1..])
  }

  lemma {:induction false} GatherLength(data: seq<seq<byte>>, cs: seq<nat>, cb: nat)
    requires forall i :: 0 <= i < |cs| ==> cs[i] < |data|
    requires forall c :: 0 <= c < |data| ==> |data[c]| == cb
    ensures |Gather(data, cs)| == |cs| * cb
  {
    if cs != [] {
      GatherLength(data, cs[1..], cb);
      assert |cs| * cb == cb + (|cs| - 1) * cb;
    }
  }

  lemma {:induction false} GatherFrame(data: seq<seq<byte>>, data': seq<seq<byte>>, cs: seq<nat>)
    requires |data| == |data'|
    requires forall i :: 0 <= i < |cs| ==> cs[i] < |data| && data'[cs[i]] == data[cs[i]]
    ensures Gather(data', cs) == Gather(data, cs)
  {
    if cs != [] {
      assert data'[cs[0]] == data[cs[0]];
      forall i | 0 <= i < |cs[1..]|
        ensures cs[1..][i] < |data| && data'[cs[1..][i]] == data[cs[1..][i]]
      {
        assert cs[1..][i] == cs[i + 1];
      }
      GatherFrame(data, data', cs[1..]);
    }
  }

  // ---------------------------------------------------------------- the allocator

  /** The first free entry in `[lo, hi)`, or `hi`. */
  function FirstFree(fat: seq<nat>, lo: nat, hi: nat): (r: nat)
    requires lo <= hi <= |fat|
    ensures lo <= r <= hi
    ensures r < hi ==> fat[r] == 0
    ensures forall c :: lo <= c < r ==> fat[c] != 0
    decreases hi - lo
  {
    if lo == hi || fat[lo] == 0 then lo else FirstFree(fat, lo + 1, hi)
  }

  /** Where a search begins: the hint, or 2 when the hint is outside the table. */
  function SearchStart(fat: seq<nat>, hint: nat): nat {
    if hint < 2 || hint >= |fat| then 2 else hint
  }

  /** The cluster `_alloc_cluster` takes: next-fit from the hint, wrapping round; 0 for none. */
  function NextFit(fat: seq<nat>, hint: nat): (r: nat)
    requires 2 <= |fat|
  {
    var start := SearchStart(fat, hint);
    var a := FirstFree(fat, start, |fat|);
    if a < |fat| then a
    else
      var b := FirstFree(fat, 2, start);
      if b < start then b else 0
  }

  /** The allocator is exhaustive: it fails exactly when the table has no free entry at all,
      whatever the hint, and otherwise returns a free one. */
  lemma NextFitExhaustive(fat: seq<nat>, hint: nat)
    requires 2 <= |fat|
    ensures NextFit(fat, hint) == 0 <==> FreeSet(fat) == {}
    ensures NextFit(fat, hint) != 0 ==> NextFit(fat, hint) in FreeSet(fat)
  {
    var r := NextFit(fat, hint);
    if r == 0 {
      forall c: nat | 2 <= c < |fat|
        ensures fat[c] != 0
      {
      }
    } else {
      assert r in FreeSet(fat);
    }
  }

  /** The two tables have the same free entries. */
  ghost predicate SameFree(fat: seq<nat>, fat': seq<nat>) {
    |fat'| == |fat| && forall c :: 0 <= c < |fat| ==> (fat'[c] == 0 <==> fat[c] == 0)
  }

  lemma NextFitFrame(fat: seq<nat>, fat': seq<nat>, hint: nat)
    requires 2 <= |fat| && SameFree(fat, fat')
    ensures NextFit(fat', hint) == NextFit(fat, hint)
  {
  }

  // ---------------------------------------------------------------- which clusters are handed out

  /** The next `n` clusters the allocator hands out, as far as there are any, lie below `limit`.
      The allocator counts table entries, so on a disk that is shorter than its table this is what
      a caller needs before its data can be stored. */
  ghost predicate Safe(fat: seq<nat>, hint: nat, limit: nat, n: nat)
    requires 2 <= |fat|
    decreases n
  {
    n == 0 ||
    var c := NextFit(fat, hint);
    c == 0 || (c < limit && Safe(fat[c := LAST], c + 1, limit, n - 1))
  }

  lemma {:induction false} SafeFrame(fat: seq<nat>, fat': seq<nat>, hint: nat, limit: nat, n: nat)
    requires 2 <= |fat| && SameFree(fat, fat') && Safe(fat, hint, limit, n)
    ensures Safe(fat', hint, limit, n)
    decreases n
  {
    hide NextFit;
    NextFitFrame(fat, fat', hint);
    NextFitExhaustive(fat, hint);
    var c := NextFit(fat, hint);
    if n > 0 && c != 0 { SafeFrame(fat[c := LAST], fat'[c := LAST], c + 1, limit, n - 1); }
  }

  lemma {:induction false} SafeFewer(fat: seq<nat>, hint: nat, limit: nat, n: nat, m: nat)
    requires 2 <= |fat| && Safe(fat, hint, limit, n) && m <= n
    ensures Safe(fat, hint, limit, m)
    decreases m
  {
    hide NextFit;
    NextFitExhaustive(fat, hint);
    var c := NextFit(fat, hint);
    if m > 0 && c != 0 { SafeFewer(fat[c := LAST], c + 1, limit, n - 1, m - 1); }
  }

  ghost function FreeBetween(fat: seq<nat>, lo: nat, hi: nat): set<nat> {
    set c: nat | lo <= c < hi && c < |fat| && fat[c] == 0
  }

  /** No entry from `limit` on is free. */
  ghost predicate NoneBeyond(fat: seq<nat>, limit: nat) { forall c :: limit <= c < |fat| ==> fat[c] != 0 }

  /** What a caller can check: no free entry lies beyond the limit, or enough free entries lie
      between the place the search starts and the limit. */
  ghost predicate Ample(fat: seq<nat>, hint: nat, limit: nat, n: nat) {
    NoneBeyond(fat, limit) || n <= |FreeBetween(fat, SearchStart(fat, hint), limit)|
  }

  lemma TakeFromStretch(fat: seq<nat>, hint: nat, limit: nat)
    requires 2 <= limit <= |fat| && FreeBetween(fat, SearchStart(fat, hint), limit) != {}
    ensures var c, start := NextFit(fat, hint), SearchStart(fat, hint);
            && c in FreeBetween(fat, start, limit)
            && FreeBetween(fat[c := LAST], c + 1, limit) == FreeBetween(fat, start, limit) - {c}
            && (NoneBeyond(fat[c := LAST], limit) <==> NoneBeyond(fat, limit))
  {
    var start := SearchStart(fat, hint);
    var x :| x in FreeBetween(fat, start, limit);
    var c := NextFit(fat, hint);
    assert start <= c <= x;
    BeyondFrame(fat, c, limit);
  }

  lemma BeyondFrame(fat: seq<nat>, c: nat, limit: nat)
    requires c < limit && c < |fat|
    ensures NoneBeyond(fat[c := LAST], limit) <==> NoneBeyond(fat, limit)
  {
    assert forall x :: limit <= x < |fat| ==> fat[c := LAST][x] == fat[x];
  }

  lemma TakeBeyond(fat: seq<nat>, hint: nat, limit: nat)
    requires 2 <= limit <= |fat| && FreeBetween(fat, SearchStart(fat, hint), limit) == {}
    requires SearchStart(fat, hint) <= limit && NextFit(fat, hint) != 0
    ensures var c := NextFit(fat, hint);
            if NoneBeyond(fat, limit) then 2 <= c < SearchStart(fat, hint) && NoneBeyond(fat[c := LAST], limit)
            else c >= limit
  {
    var c, start := NextFit(fat, hint), SearchStart(fat, hint);
    assert forall x :: start <= x < limit ==> (fat[x] == 0 <==> x in FreeBetween(fat, start, limit));
  }

  /** The clusters handed out are below the limit exactly when the free entries are ample. */
  lemma {:induction false} SafeExactly(fat: seq<nat>, hint: nat, limit: nat, n: nat)
    requires 2 <= limit <= |fat| && SearchStart(fat, hint) <= limit
    ensures Safe(fat, hint, limit, n) <==> Ample(fat, hint, limit, n)
    decreases n
  {
    hide NextFit, FreeBetween, NoneBeyond;
    NextFitExhaustive(fat, hint);
    var c, start := NextFit(fat, hint), SearchStart(fat, hint);
    if n > 0 {
      if FreeBetween(fat, start, limit) != {} {
        TakeFromStretch(fat, hint, limit);
        InStretch(fat, start, limit, c);
        SafeExactly(fat[c := LAST], c + 1, limit, n - 1);
      } else if c != 0 {
        TakeBeyond(fat, hint, limit);
        if NoneBeyond(fat, limit) { SafeExactly(fat[c := LAST], c + 1, limit, n - 1); }
      } else {
        NoneLeft(fat, limit);
      }
    }
  }

  lemma InStretch(fat: seq<nat>, lo: nat, hi: nat, c: nat)
    requires c in FreeBetween(fat, lo, hi)
    ensures lo <= c < hi && c < |fat|
    ensures hi == |fat| ==> forall t: seq<nat> :: |t| == |fat| ==> NoneBeyond(t, hi)
  {
  }

  lemma NoneLeft(fat: seq<nat>, limit: nat)
    requires FreeSet(fat) == {} && 2 <= limit
    ensures NoneBeyond(fat, limit)
  {
    forall c | limit <= c < |fat|
      ensures fat[c] != 0
    {
      assert c in FreeSet(fat) <==> fat[c] == 0;
    }
  }

  /** Freeing clusters below the limit leaves at least as many ample. */
  lemma AmpleGrows(fat: seq<nat>, fat': seq<nat>, hint: nat, limit: nat, n: nat)
    requires |fat'| == |fat| && Ample(fat, hint, limit, n)
    requires forall c :: 0 <= c < |fat| && fat'[c] != fat[c] ==> fat'[c] == 0 && c < limit
    ensures Ample(fat', hint, limit, n)
  {
    var a := FreeBetween(fat, SearchStart(fat, hint), limit);
    var b := FreeBetween(fat', SearchStart(fat, hint), limit);
    assert a <= b;
    SubsetSize(a, b);
  }

  lemma {:induction false} SubsetSize(a: set<nat>, b: set<nat>)
    requires a <= b
    ensures |a| <= |b|
    decreases a
  {
    if a != {} {
      var x :| x in a;
      SubsetSize(a - {x}, b - {x});
    }
  }

  // ---------------------------------------------------------------- releasing a chain

  /** Every link that is followed stays inside the table. */
  ghost predicate LinksInside(fat: seq<nat>) {
    forall c :: 2 <= c < |fat| && 2 <= fat[c] < EOC ==> fat[c] < |fat|
  }

  ghost predicate Below(cs: seq<nat>, limit: nat) { forall i :: 0 <= i < |cs| ==> cs[i] < limit }

  ghost predicate StartsInside(fat: seq<nat>, cl: nat) {
    2 <= cl < EOC ==> cl < |fat|
  }

  lemma UsedShrinks(fat: seq<nat>, c: nat)
    requires c < |fat|
    ensures UsedSet(fat[c := 0]) == UsedSet(fat) - {c}
    ensures fat[c] != 0 ==> |UsedSet(fat[c := 0])| < |UsedSet(fat)|
    ensures fat[c] == 0 ==> fat[c := 0] == fat
  {
    assert UsedSet(fat[c := 0]) == UsedSet(fat) - {c};
    if fat[c] != 0 { assert c in UsedSet(fat); }
  }

  /** The clusters the release loop zeroes, in order. It terminates on every table whose links
      stay inside, cyclic ones included: a second visit finds a zero and stops. */
  ghost function Visit(fat: seq<nat>, cl: nat): (r: seq<nat>)
    requires LinksInside(fat) && StartsInside(fat, cl)
    ensures forall i :: 0 <= i < |r| ==> InTable(fat, r[i])
    decreases |UsedSet(fat)|, if 2 <= cl < EOC then 1 else 0
  {
    if 2 <= cl < EOC then
      UsedShrinks(fat, cl);
      ZeroedInside(fat, cl);
      [cl] + Visit(fat[cl := 0], fat[cl])
    else []
  }

  lemma ZeroedInside(fat: seq<nat>, cl: nat)
    requires LinksInside(fat) && 2 <= cl < |fat|
    ensures LinksInside(fat[cl := 0]) && StartsInside(fat[cl := 0], fat[cl])
    ensures fat[cl] == 0 ==> !(2 <= fat[cl] < EOC)
  {
  }

  ghost function ZeroFat(fat: seq<nat>, cs: seq<nat>): (r: seq<nat>)
    ensures |r| == |fat|
    ensures forall c :: 0 <= c < |fat| ==> r[c] == if c in cs then 0 else fat[c]
  {
    seq(|fat|, c requires 0 <= c < |fat| => if c in cs then 0 else fat[c])
  }

  ghost function ZeroData(data: seq<seq<byte>>, cs: seq<nat>): (r: seq<seq<byte>>)
    ensures |r| == |data|
    ensures forall c :: 0 <= c < |data| ==> r[c] == if c in cs then Fill(|data[c]|, 0) else data[c]
  {
    seq(|data|, c requires 0 <= c < |data| => if c in cs then Fill(|data[c]|, 0) else data[c])
  }

  /** The entry reached from `s` after `k` links, standing still once outside the table. */
  function Walk(fat: seq<nat>, s: nat, k: nat): nat
    decreases k
  {
    if k == 0 || !InTable(fat, s) then s else Walk(fat, fat[s], k - 1)
  }

  ghost predicate Reachable(fat: seq<nat>, s: nat, c: nat) {
    InTable(fat, c) && exists k: nat :: Walk(fat, s, k) == c
  }

  lemma {:induction false} WalkAvoids(fat: seq<nat>, x: nat, s: nat, k: nat, c: nat)
    requires x < |fat| && 2 <= c && Walk(fat[x := 0], s, k) == c
    ensures Walk(fat, s, k) == c
    decreases k
  {
    if k != 0 && InTable(fat, s) {
      if s == x {
        assert Walk(fat[x := 0], 0, k - 1) == 0;
      } else {
        WalkAvoids(fat, x, fat[s], k - 1, c);
      }
    }
  }

  lemma {:induction false} WalkSplits(fat: seq<nat>, x: nat, s: nat, n: nat, c: nat)
    requires InTable(fat, x) && c != x && Walk(fat, s, n) == c
    ensures Walk(fat[x := 0], s, n) == c || exists m: nat :: m <= n && Walk(fat, x, m) == c
    decreases n
  {
    if s == x {
      assert n <= n && Walk(fat, x, n) == c;
    } else if n != 0 && InTable(fat, s) {
      WalkSplits(fat, x, fat[s], n - 1, c);
      if Walk(fat[x := 0], fat[s], n - 1) != c {
        var m: nat :| m <= n - 1 && Walk(fat, x, m) == c;
        assert m <= n && Walk(fat, x, m) == c;
      }
    }
  }

  lemma {:induction false} WalkFromZeroed(fat: seq<nat>, x: nat, k: nat, c: nat) returns (j: nat)
    requires InTable(fat, x) && c != x && Walk(fat, x, k) == c
    ensures Walk(fat[x := 0], fat[x], j) == c
  {
    WalkSplits(fat, x, fat[x], k - 1, c);
    if Walk(fat[x := 0], fat[x], k - 1) == c {
      j := k - 1;
    } else {
      var m: nat :| m <= k - 1 && Walk(fat, x, m) == c;
      j := WalkFromZeroed(fat, x, m, c);
    }
  }

  lemma {:induction false} VisitedIsReachable(fat: seq<nat>, cl: nat, c: nat)
    requires LinksInside(fat) && StartsInside(fat, cl) && |fat| <= EOC
    requires c in Visit(fat, cl)
    ensures Reachable(fat, cl, c)
    decreases |UsedSet(fat)|, if 2 <= cl < EOC then 1 else 0
  {
    if c == cl {
      assert Walk(fat, cl, 0) == c;
    } else {
      UsedShrinks(fat, cl);
      VisitedIsReachable(fat[cl := 0], fat[cl], c);
      var k: nat :| Walk(fat[cl := 0], fat[cl], k) == c;
      WalkAvoids(fat, cl, fat[cl], k, c);
      assert Walk(fat, cl, k + 1) == c;
    }
  }

  lemma {:induction false} ReachableIsVisited(fat: seq<nat>, cl: nat, c: nat, k: nat)
    requires LinksInside(fat) && StartsInside(fat, cl) && |fat| <= EOC
    requires InTable(fat, c) && Walk(fat, cl, k) == c
    ensures c in Visit(fat, cl)
    decreases |UsedSet(fat)|, if 2 <= cl < EOC then 1 else 0
  {
    if c != cl {
      UsedShrinks(fat, cl);
      var j := WalkFromZeroed(fat, cl, k, c);
      ReachableIsVisited(fat[cl := 0], fat[cl], c, j);
    }
  }

  /** Release visits exactly the clusters reachable from its start, on every such table. */
  lemma VisitReachable(fat: seq<nat>, cl: nat, c: nat)
    requires LinksInside(fat) && StartsInside(fat, cl) && |fat| <= EOC
    ensures c in Visit(fat, cl) <==> Reachable(fat, cl, c)
  {
    if c in Visit(fat, cl) { VisitedIsReachable(fat, cl, c); }
    if Reachable(fat, cl, c) {
      var k: nat :| Walk(fat, cl, k) == c;
      ReachableIsVisited(fat, cl, c, k);
    }
  }

  /** On a proper chain release visits the chain itself. */
  lemma {:induction false} VisitChain(fat: seq<nat>, cs: seq<nat>)
    requires |fat| <= EOC && LinksInside(fat) && IsChain(fat, cs)
    ensures StartsInside(fat, Head(cs)) && Visit(fat, Head(cs)) == cs
    decreases |cs|
  {
    if cs != [] {
      ChainTail(fat, cs);
      var f := fat[cs[0] := 0];
      assert forall i :: 0 <= i < |cs[1..]| ==> cs[1..][i] == cs[i + 1];
      ChainFrame(fat, f, cs[1..]);
      VisitChain(f, cs[1..]);
      assert cs == [cs[0]] + cs[1..];
      if |cs| == 1 { assert Visit(f, fat[cs[0]]) == []; }
    }
  }

  // ---------------------------------------------------------------- allocate, link and write

  /** What `_alloc_cluster` gives the loop: a cluster marked end-of-chain, the hint moved past it. */
  function Take(v: Store): (r: (Store, nat))
    requires 2 <= |v.fat|
    ensures r.1 == NextFit(v.fat, v.hint)
  {
    var c := NextFit(v.fat, v.hint);
    if c == 0 then (v, 0) else (v.(fat := v.fat[c := LAST], hint := c + 1), c)
  }

  function Min(a: nat, b: nat): nat { if a < b then a else b }

  /** Clusters needed for `n` bytes. */
  function ClustersFor(n: nat, cb: nat): nat
    requires cb > 0
  {
    (n + cb - 1) / cb
  }

  function RoundUp512(n: nat): (r: nat)
    ensures n <= r < n + 512 && r % 512 == 0
  {
    (n + 511) / 512 * 512
  }

  /** One cluster's block after `chunk` was stored in it: whole sectors, then one zero-padded
      sector; later sectors keep what they held. */
  function Patch(block: seq<byte>, chunk: seq<byte>): (r: seq<byte>)
    requires |chunk| <= |block| && |block| % 512 == 0
    ensures |r| == |block| && r[..|chunk|] == chunk
  {
    var end := RoundUp512(|chunk|);
    chunk + Fill(end - |chunk|, 0) + block[end..]
  }

  /** How a fill ended: out of clusters or with everything stored; the store and the clusters taken
      either way. */
  datatype FillResult = Full(v: Store, cs: seq<nat>) | Filled(v: Store, cs: seq<nat>)

  /** The write loop of `fat16_write_file`: take a cluster, link it behind `prev`, store a chunk.
      The sequence of clusters taken is returned with the new store. */
  function Append(v: Store, cb: nat, buf: seq<byte>, prev: nat): (r: FillResult)
    requires cb > 0 && cb % 512 == 0 && 2 <= |v.fat| == |v.data|
    requires forall c :: 0 <= c < |v.data| ==> |v.data[c]| == cb
    requires prev < |v.fat|
    decreases |buf|
  {
    if buf == [] then Filled(v, [])
    else
      var (w, c) := Take(v);
      if c == 0 then Full(v, [])
      else
        var n := Min(|buf|, cb);
        var linked := if prev == 0 then w.fat else w.fat[prev := c];
        var u := w.(fat := linked[c := LAST], data := w.data[c := Patch(w.data[c], buf[..n])]);
        match Append(u, cb, buf[n..], c)
        case Full(v', cs) => Full(v', [c] + cs)
        case Filled(v', cs) => Filled(v', [c] + cs)
  }

  /** One turn of the allocation loop of `fat16_create_file`: the cluster taken is linked behind
      `prev` and, unless it is the first, zeroed when scratch memory (`scratch`) could be had. */
  function ReserveTurn(v: Store, cb: nat, prev: nat, scratch: nat -> bool): (u: Store)
    requires 2 <= |v.fat| == |v.data| && prev < |v.fat|
    requires NextFit(v.fat, v.hint) != 0
    ensures |u.fat| == |u.data| == |v.fat|
  {
    var (w, c) := Take(v);
    var linked := if prev == 0 then w.fat else w.fat[prev := c];
    w.(fat := linked[c := LAST],
       data := if prev != 0 && scratch(c) then w.data[c := Fill(cb, 0)] else w.data)
  }

  /** Up to `n` clusters, stopping early when none is left. */
  function Reserve(v: Store, cb: nat, n: nat, prev: nat, scratch: nat -> bool): (r: (Store, seq<nat>))
    requires 2 <= |v.fat| == |v.data| && prev < |v.fat|
    ensures |r.0.fat| == |r.0.data| == |v.fat|
    decreases n, v
  {
    if n == 0 || NextFit(v.fat, v.hint) == 0 then (v, [])
    else
      var c := NextFit(v.fat, v.hint);
      var (u, cs) := Reserve(ReserveTurn(v, cb, prev, scratch), cb, n - 1, c, scratch);
      (u, [c] + cs)
  }
}
