/** The physical page allocator on a list of used flags: lowest page first, nothing handed out twice,
    the byte count in step with the flags. The bitmap that holds the flags is in PmmBitmap. */
module PmmPages {

  /** The used flag of every page below the highest physical page, and the count of free bytes. */
  datatype Pages = Pages(used: seq<bool>, free: int)

  /** `find_free_page`: the lowest page not in use, or their number. */
  function Lowest(used: seq<bool>, i: nat): (r: nat)
    requires i <= |used|
    ensures i <= r <= |used| && (r < |used| ==> !used[r]) && forall k :: i <= k < r ==> used[k]
    decreases |used| - i
  {
    if i == |used| || !used[i] then i else Lowest(used, i + 1)
  }

  /** How many flags are clear. */
  function Clear(used: seq<bool>): nat {
    if used == [] then 0 else Clear(used[..|used| - 1]) + if used[|used| - 1] then 0 else 1
  }

  /** `pmm_alloc_page` */
  function Alloc(s: Pages): (r: (Pages, nat))
    ensures r.1 <= |s.used|
  {
    var p := Lowest(s.used, 0);
    if p == |s.used| then (s, p) else (Pages(s.used[p := true], s.free - 4096), p)
  }

  /** `pmm_free_page` of page `p`: pages out of range and pages already free are ignored. */
  function Free(s: Pages, p: nat): Pages {
    if p >= |s.used| || !s.used[p] then s else Pages(s.used[p := false], s.free + 4096)
  }

  /** One page of `pmm_reserve_region`. */
  function ReserveOne(s: Pages, p: nat): Pages {
    if p >= |s.used| then s else Pages(s.used[p := true], if s.used[p] then s.free else s.free - 4096)
  }

  /** Pages `a` up to `b`. */
  function Reserve(s: Pages, a: nat, b: nat): (r: Pages)
    ensures |r.used| == |s.used|
    decreases b - a
  {
    if a >= b then s else ReserveOne(Reserve(s, a, b - 1), b - 1)
  }

  // ---------------------------------------------------------------- the byte count

  lemma {:induction false} ClearFlips(used: seq<bool>, p: nat)
    requires p < |used| && !used[p]
    ensures Clear(used[p := true]) == Clear(used) - 1
    decreases |used|
  {
    var n := |used| - 1;
    if p < n {
      ClearFlips(used[..n], p);
      assert used[p := true][..n] == used[..n][p := true];
    } else {
      assert used[p := true][..n] == used[..n];
    }
  }

  /** What the byte count has beyond the pages that are free. */
  function Surplus(s: Pages): int { s.free - 4096 * Clear(s.used) }

  lemma AllocKeepsSurplus(s: Pages)
    ensures Surplus(Alloc(s).0) == Surplus(s)
  {
    hide Clear;
    var p := Lowest(s.used, 0);
    if p < |s.used| { ClearFlips(s.used, p); }
  }

  lemma FreeKeepsSurplus(s: Pages, p: nat)
    ensures Surplus(Free(s, p)) == Surplus(s)
  {
    hide Clear;
    if p < |s.used| && s.used[p] {
      var f := s.used[p := false];
      ClearFlips(f, p);
      assert f[p := true] == s.used;
    }
  }

  lemma {:induction false} ReserveMeans(s: Pages, a: nat, b: nat)
    ensures Surplus(Reserve(s, a, b)) == Surplus(s)
    ensures forall p :: 0 <= p < |s.used| ==> (Reserve(s, a, b).used[p] <==> s.used[p] || a <= p < b)
    decreases b - a
  {
    if a < b {
      ReserveMeans(s, a, b - 1);
      hide Clear;
      var t := Reserve(s, a, b - 1);
      if b - 1 < |t.used| {
        if t.used[b - 1] { assert t.used[b - 1 := true] == t.used; } else { ClearFlips(t.used, b - 1); }
      }
    }
  }

  /** A page in use that is freed, and no other page, becomes free; a page out of range or free already changes
      nothing. */
  lemma FreeMeans(s: Pages, p: nat)
    ensures var r := Free(s, p);
            && |r.used| == |s.used| && (forall q :: 0 <= q < |s.used| ==> (r.used[q] <==> s.used[q] && q != p))
            && (r == s <==> p >= |s.used| || !s.used[p])
  {
  }

  /** Freeing the page just handed out gives back the state before. */
  lemma FreeUndoesAlloc(s: Pages)
    ensures var (t, p) := Alloc(s); p < |s.used| ==> t != s && Free(t, p) == s
  {
    var p := Lowest(s.used, 0);
    if p < |s.used| { assert s.used[p := true][p := false] == s.used; }
  }

  // ---------------------------------------------------------------- runs

  datatype Op = AllocPage | FreePage(p: nat) | ReserveRange(a: nat, b: nat)

  /** The allocator with two ledgers: pages callers hold, pages set aside. */
  datatype World = World(s: Pages, owned: set<nat>, reserved: set<nat>)

  /** Callers free only what they hold, and reserve only what nobody holds. */
  ghost predicate Step(w: World, op: Op, w': World) {
    match op
    case AllocPage =>
      var (s, p) := Alloc(w.s);
      w' == World(s, if p < |w.s.used| then w.owned + {p} else w.owned, w.reserved)
    case FreePage(p) => p in w.owned && w' == World(Free(w.s, p), w.owned - {p}, w.reserved)
    case ReserveRange(a, b) =>
      && (forall p :: p in w.owned ==> !(a <= p < b))
      && w' == World(Reserve(w.s, a, b), w.owned, w.reserved + Range(a, b, |w.s.used|))
  }

  predicate Between(p: nat, a: nat, b: nat) { a <= p < b }

  function Range(a: nat, b: nat, n: nat): set<nat> { set p: nat | p < n && Between(p, a, b) }

  /** Held and reserved pages are marked used and are different pages. */
  ghost predicate Kept(w: World) {
    && w.owned !! w.reserved
    && forall p :: p in w.owned || p in w.reserved ==> p < |w.s.used| && w.s.used[p]
  }

  /** An allocation hands out the lowest free page: one that nobody holds and that is not set aside. */
  lemma AllocIsFresh(w: World)
    requires Kept(w)
    ensures var p := Alloc(w.s).1;
            && (p < |w.s.used| ==>
                  && p !in w.owned && p !in w.reserved && !w.s.used[p]
                  && forall q :: 0 <= q < p ==> w.s.used[q])
            && (p == |w.s.used| ==> forall q :: 0 <= q < |w.s.used| ==> w.s.used[q])
  {
  }

  lemma StepKeeps(w: World, op: Op, w': World)
    requires Kept(w) && Step(w, op, w')
    ensures Kept(w') && Surplus(w'.s) == Surplus(w.s) && |w'.s.used| == |w.s.used| && w.reserved <= w'.reserved
  {
    match op {
      case AllocPage => AllocKeepsSurplus(w.s);
      case FreePage(p) => FreeKeepsSurplus(w.s, p);
      case ReserveRange(a, b) => ReserveMeans(w.s, a, b);
    }
  }

  ghost predicate Run(trace: seq<World>, ops: seq<Op>) {
    |trace| == |ops| + 1 && forall k :: 0 <= k < |ops| ==> Step(trace[k], ops[k], trace[k + 1])
  }

  /** Over every run the pages held are distinct from each other's and from reserved ones, and the byte
      count stays in step with the flags. */
  lemma {:induction false} RunsKeep(trace: seq<World>, ops: seq<Op>, k: nat)
    requires Run(trace, ops) && Kept(trace[0]) && k < |trace|
    ensures Kept(trace[k]) && Surplus(trace[k].s) == Surplus(trace[0].s) && trace[0].reserved <= trace[k].reserved
    decreases k
  {
    hide Kept, Step, Surplus;
    if k > 0 {
      RunsKeep(trace, ops, k - 1);
      assert Step(trace[k - 1], ops[k - 1], trace[k - 1 + 1]);
      StepKeeps(trace[k - 1], ops[k - 1], trace[k]);
    }
  }

  /** The flags are exactly the two ledgers. */
  ghost predicate Exact(w: World) {
    forall p :: 0 <= p < |w.s.used| ==> (w.s.used[p] <==> p in w.owned || p in w.reserved)
  }

  lemma StepExact(w: World, op: Op, w': World)
    requires Kept(w) && Exact(w) && Step(w, op, w')
    ensures Exact(w')
  {
    match op {
      case AllocPage =>
      case FreePage(p) => FreeMeans(w.s, p);
      case ReserveRange(a, b) => ReserveMeans(w.s, a, b);
    }
  }

  /** Over every run no page is lost: a page is in use if and only if somebody holds it or it is set
      aside. */
  lemma {:induction false} RunsExact(trace: seq<World>, ops: seq<Op>, k: nat)
    requires Run(trace, ops) && Kept(trace[0]) && Exact(trace[0]) && k < |trace|
    ensures Exact(trace[k])
    decreases k
  {
    hide Kept, Step, Exact;
    if k > 0 {
      RunsExact(trace, ops, k - 1);
      RunsKeep(trace, ops, k - 1);
      assert Step(trace[k - 1], ops[k - 1], trace[k - 1 + 1]);
      StepExact(trace[k - 1], ops[k - 1], trace[k]);
    }
  }
}
