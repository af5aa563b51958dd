/** kmalloc and kfree as whole operations on the block list, and what every run of them keeps. */
module HeapRuns {
  import opened Arith
  import opened HeapBlocks

  datatype Heap = Heap(bs: seq<Block>, curr: int)

  datatype Grant = Denied | Granted(heap: Heap, block: Block)

  // ---------------------------------------------------------------- requests as callers make them

  function Align4(x: nat): (r: nat)
    ensures x <= r < x + 4 && r % 4 == 0
  {
    (x + 3) / 4 * 4
  }

  predicate PowerOfTwo(n: nat) { n == 1 || (n > 1 && n % 2 == 0 && PowerOfTwo(n / 2)) }

  /** The least doubling of `p` that is at least `align`. */
  function DoubledTo(p: nat, align: nat): (r: nat)
    requires p > 0
    decreases align - p
  {
    if p >= align then p else DoubledTo(2 * p, align)
  }

  /** `normalize_align`: none below 2, else the next power of two, at least 4. */
  function Normalize(align: nat): (r: nat) {
    if align < 2 then 0 else if DoubledTo(1, align) < 4 then 4 else DoubledTo(1, align)
  }

  lemma {:induction false} DoubledMeans(p: nat, align: nat)
    requires PowerOfTwo(p)
    ensures PowerOfTwo(DoubledTo(p, align)) && DoubledTo(p, align) >= align && DoubledTo(p, align) >= p
    ensures p < align ==> DoubledTo(p, align) < 2 * align
    decreases align - p
  {
    if p < align {
      assert 2 * p / 2 == p;
      DoubledMeans(2 * p, align);
    }
  }

  lemma {:induction false} PowersApart(p: nat, q: nat)
    requires PowerOfTwo(p) && PowerOfTwo(q) && p < q
    ensures 2 * p <= q
    decreases p
  {
    if p > 1 { PowersApart(p / 2, q / 2); }
  }

  /** A power of two is its own next power of two. */
  lemma {:induction false} DoubledFixed(p: nat, align: nat)
    requires PowerOfTwo(p) && PowerOfTwo(align) && p <= align
    ensures DoubledTo(p, align) == align
    decreases align - p
  {
    if p < align {
      PowersApart(p, align);
      assert 2 * p / 2 == p;
      DoubledFixed(2 * p, align);
    }
  }

  lemma PowerMultiple(n: nat)
    requires PowerOfTwo(n) && n >= 4
    ensures n % 4 == 0
  {
    var half := n / 2;
    assert PowerOfTwo(half);
    assert half % 2 == 0 && n == 2 * half;
  }

  /** The normalized alignment is a power of two, is a multiple of the word size, and is no smaller
      than what was asked for. */
  lemma NormalizeMeans(align: nat)
    ensures align < 2 ==> Normalize(align) == 0
    ensures align >= 2 ==> PowerOfTwo(Normalize(align)) && Normalize(align) >= align && Normalize(align) % 4 == 0
    ensures align > 4 ==> Normalize(align) < 2 * align
  {
    if align >= 2 {
      assert PowerOfTwo(1) && PowerOfTwo(2) && PowerOfTwo(4);
      DoubledMeans(1, align);
      PowerMultiple(Normalize(align));
    }
  }

  ghost predicate Addressable(h: Heap) { h.curr >= 0 && forall k :: 0 <= k < |h.bs| ==> h.bs[k].addr >= 0 }

  /** `kmalloc_internal`; `commit` tells whether pages for a longer heap could be mapped. */
  ghost function Alloc(h: Heap, limit: int, size: nat, align: nat, commit: bool): (r: Grant)
    requires Addressable(h)
  {
    if size == 0 then Denied
    else
      var want, unit := Align4(size), Normalize(align);
      var i := FirstFit(h.bs, want, unit, 0);
      if i < |h.bs| then
        var at := AlignedHeader(h.bs[i].addr, unit);
        Granted(h.(bs := Carve(h.bs, i, at, want)), Carved(h.bs[i], at, want))
      else
        var at := AlignedHeader(h.curr, unit);
        if at + 16 + want > limit || !commit then Denied
        else Granted(Heap(Extend(h.bs, h.curr, at, want), at + 16 + want), Block(at, want, false))
  }

  /** The list is in order from `base` to `curr`. A heap that was given an end below its start is
      empty for good; any other stays below its limit. */
  ghost predicate Sound(h: Heap, base: int, limit: int) {
    0 <= base && Ordered(h.bs, base, h.curr) && (h.bs == [] || h.curr <= limit)
  }

  lemma SoundBounds(h: Heap, base: int, limit: int)
    requires Sound(h, base, limit)
    ensures 0 <= base <= h.curr && (h.bs == [] || h.curr <= limit) && h.curr % 4 == 0
    ensures forall k :: 0 <= k < |h.bs| ==> Sane(h.bs[k]) && base <= h.bs[k].addr && h.bs[k].End() <= h.curr
  {
    ReachAligned(h.bs, base, h.curr);
    forall k | 0 <= k < |h.bs|
      ensures Sane(h.bs[k]) && base <= h.bs[k].addr && h.bs[k].End() <= h.curr
    {
      SaneAt(h.bs, base, h.curr, k);
    }
  }

  ghost predicate Apart(a: Block, b: Block) { a.End() <= b.addr || b.End() <= a.addr }

  /** What a caller is owed for a request of `size` bytes: a block that is large enough, aligned,
      and apart from every block held before, headers included; the other holders are exactly those
      from before, and the heap stays sound. */
  ghost predicate Served(h: Heap, base: int, limit: int, size: nat, align: nat, h': Heap, b: Block) {
    && Sound(h', base, limit) && h.curr <= h'.curr
    && b !in Used(h.bs) && Used(h'.bs) == Used(h.bs) + {b}
    && b.size >= size && b.Payload() % 4 == 0
    && AlignedTo(b.Payload(), Normalize(align))
    && (forall x :: x in Used(h.bs) ==> Apart(x, b))
  }

  lemma AllocMeans(h: Heap, base: int, limit: int, size: nat, align: nat, commit: bool)
    requires Sound(h, base, limit)
    ensures Addressable(h)
    ensures var r := Alloc(h, limit, size, align, commit);
            r.Granted? ==> Served(h, base, limit, size, align, r.heap, r.block)
  {
    hide Served, Sound, Carve, Extend, AlignedHeader, Normalize, Align4, CanFit;
    SoundBounds(h, base, limit);
    var r := Alloc(h, limit, size, align, commit);
    if r.Granted? {
      var want, unit := Align4(size), Normalize(align);
      var i := FirstFit(h.bs, want, unit, 0);
      if i < |h.bs| {
        ReuseServes(h, base, limit, size, align, i);
      } else {
        GrowthServes(h, base, limit, size, align);
      }
    }
  }

  lemma ReuseServes(h: Heap, base: int, limit: int, size: nat, align: nat, i: nat)
    requires Sound(h, base, limit) && size > 0 && i < |h.bs| && h.bs[i].addr >= 0 && h.bs[i].free
    requires CanFit(h.bs[i], Align4(size), Normalize(align))
    ensures var at := AlignedHeader(h.bs[i].addr, Normalize(align));
            Served(h, base, limit, size, align, h.(bs := Carve(h.bs, i, at, Align4(size))),
                   Carved(h.bs[i], at, Align4(size)))
  {
    hide Ordered, Used, AlignedHeader, AlignedTo, Carve, Normalize, Align4, PowerOfTwo;
    SoundBounds(h, base, limit);
    NormalizeMeans(align);
    var want, unit := Align4(size), Normalize(align);
    var at := AlignedHeader(h.bs[i].addr, unit);
    HeaderWordAligned(h.bs[i].addr, unit);
    CarveKeeps(h.bs, base, h.curr, i, at, want);
    CarvedApart(h.bs, base, h.curr, i, at, want);
  }

  lemma GrowthServes(h: Heap, base: int, limit: int, size: nat, align: nat)
    requires Sound(h, base, limit) && size > 0 && h.curr >= 0
    requires AlignedHeader(h.curr, Normalize(align)) + 16 + Align4(size) <= limit
    ensures var at := AlignedHeader(h.curr, Normalize(align));
            Served(h, base, limit, size, align,
                   Heap(Extend(h.bs, h.curr, at, Align4(size)), at + 16 + Align4(size)),
                   Block(at, Align4(size), false))
  {
    hide Ordered, Used, AlignedHeader, AlignedTo, Extend, Normalize, Align4, PowerOfTwo;
    SoundBounds(h, base, limit);
    NormalizeMeans(align);
    var want, unit := Align4(size), Normalize(align);
    var at := AlignedHeader(h.curr, unit);
    HeaderWordAligned(h.curr, unit);
    ExtendOrdered(h.bs, base, h.curr, at, want);
    ExtendUsed(h.bs, h.curr, at, want);
    UsedBelow(h.bs, base, h.curr);
  }

  lemma UsedBelow(bs: seq<Block>, base: int, curr: int)
    requires Ordered(bs, base, curr)
    ensures forall b :: b in Used(bs) ==> b.End() <= curr && b.size > 0
  {
    forall b | b in Used(bs)
      ensures b.End() <= curr && b.size > 0
    {
      var k :| 0 <= k < |bs| && bs[k] == b;
      SaneAt(bs, base, curr, k);
    }
  }

  lemma CarvedApart(bs: seq<Block>, base: int, curr: int, i: nat, at: int, size: int)
    requires Ordered(bs, base, curr) && i < |bs| && bs[i].free
    requires bs[i].addr <= at && at + 16 + size <= bs[i].End() && size > 0
    ensures forall b :: b in Used(bs) ==> Apart(b, Carved(bs[i], at, size)) && b != Carved(bs[i], at, size)
  {
    forall b | b in Used(bs)
      ensures Apart(b, Carved(bs[i], at, size)) && b != Carved(bs[i], at, size)
    {
      var k :| 0 <= k < |bs| && bs[k] == b;
      SaneAt(bs, base, curr, k);
      if k < i { SegPair(bs, base, curr, k, i); } else { SegPair(bs, base, curr, i, k); }
    }
  }

  // ---------------------------------------------------------------- freeing by pointer

  /** The block whose payload starts at `p`; `kfree` reads its header just in front of it. */
  function IndexOf(bs: seq<Block>, p: int, i: nat): (r: nat)
    requires i <= |bs|
    ensures i <= r <= |bs| && (r < |bs| ==> bs[r].Payload() == p)
    ensures forall k :: i <= k < r ==> bs[k].Payload() != p
    decreases |bs| - i
  {
    if i == |bs| || bs[i].Payload() == p then i else IndexOf(bs, p, i + 1)
  }

  /** Live pointers: payload addresses of held blocks. */
  ghost predicate Live(h: Heap, p: int) {
    var i := IndexOf(h.bs, p, 0);
    i < |h.bs| && !h.bs[i].free
  }

  ghost function Free(h: Heap, p: int): (r: Heap)
    requires Live(h, p)
  {
    h.(bs := Release(h.bs, IndexOf(h.bs, p, 0)))
  }

  lemma FreeMeans(h: Heap, base: int, limit: int, p: int)
    requires Sound(h, base, limit) && Live(h, p)
    ensures Sound(Free(h, p), base, limit)
    ensures Used(Free(h, p).bs) == Used(h.bs) - {h.bs[IndexOf(h.bs, p, 0)]}
  {
    ReleaseKeeps(h.bs, base, h.curr, IndexOf(h.bs, p, 0));
  }

  // ---------------------------------------------------------------- runs

  datatype Op = Kmalloc(size: nat, align: nat, commit: bool) | Kfree(p: int)

  /** The heap together with the callers' own ledger of blocks granted and not yet freed. */
  datatype World = World(h: Heap, held: set<Block>)

  /** One call. A denied request and `kfree(NULL)` change nothing; callers free only what their
      ledger says they hold. */
  ghost predicate Step(w: World, limit: int, op: Op, w': World) {
    match op
    case Kmalloc(size, align, commit) =>
      Addressable(w.h) &&
      (match Alloc(w.h, limit, size, align, commit)
       case Denied => w' == w
       case Granted(g, b) => w' == World(g, w.held + {b}))
    case Kfree(p) =>
      if p == 0 then w' == w
      else exists b :: b in w.held && b.Payload() == p && Live(w.h, p) && w' == World(Free(w.h, p), w.held - {b})
  }

  /** The ledger and the list agree. */
  ghost predicate Owned(w: World, base: int, limit: int) { Sound(w.h, base, limit) && w.held == Used(w.h.bs) }

  /** The header in front of a held payload is the one the list has for it, so a ledger entry can
      always be freed. */
  lemma HeldIsLive(w: World, base: int, limit: int, b: Block)
    requires Owned(w, base, limit) && b in w.held
    ensures Live(w.h, b.Payload()) && w.h.bs[IndexOf(w.h.bs, b.Payload(), 0)] == b
  {
    var bs, i := w.h.bs, IndexOf(w.h.bs, b.Payload(), 0);
    var k :| 0 <= k < |bs| && bs[k] == b;
    if i < k {
      SegPair(bs, base, w.h.curr, i, k);
      SaneAt(bs, base, w.h.curr, i);
    }
  }

  lemma OwnedStep(w: World, base: int, limit: int, op: Op, w': World)
    requires Owned(w, base, limit) && Step(w, limit, op, w')
    ensures Owned(w', base, limit)
  {
    hide Sound, Alloc, Live, Free, Addressable, Used;
    match op {
      case Kmalloc(size, align, commit) => AllocMeans(w.h, base, limit, size, align, commit);
      case Kfree(p) =>
        if p != 0 {
          var b :| b in w.held && b.Payload() == p && Live(w.h, p) && w' == World(Free(w.h, p), w.held - {b});
          HeldIsLive(w, base, limit, b);
          FreeMeans(w.h, base, limit, p);
        }
    }
  }

  ghost predicate Run(trace: seq<World>, limit: int, ops: seq<Op>) {
    |trace| == |ops| + 1 && forall k :: 0 <= k < |ops| ==> Step(trace[k], limit, ops[k], trace[k + 1])
  }

  /** Over every run, the blocks on the callers' ledger are blocks of the list, lie inside the heap
      and never overlap each other, headers included. */
  lemma {:induction false} RunsStayOwned(trace: seq<World>, base: int, limit: int, ops: seq<Op>, k: nat)
    requires Run(trace, limit, ops) && Owned(trace[0], base, limit) && k < |trace|
    ensures Owned(trace[k], base, limit)
    ensures forall a, b :: a in trace[k].held && b in trace[k].held && a != b ==> Apart(a, b)
    ensures forall a :: a in trace[k].held ==> base <= a.addr && a.End() <= trace[k].h.curr <= limit
    decreases k
  {
    hide Step, Owned;
    if k > 0 {
      RunsStayOwned(trace, base, limit, ops, k - 1);
      assert Step(trace[k - 1], limit, ops[k - 1], trace[k - 1 + 1]);
      OwnedStep(trace[k - 1], base, limit, ops[k - 1], trace[k]);
    }
    HeldApart(trace[k], base, limit);
  }

  lemma HeldApart(w: World, base: int, limit: int)
    requires Owned(w, base, limit)
    ensures forall a, b :: a in w.held && b in w.held && a != b ==> Apart(a, b)
    ensures forall a :: a in w.held ==> base <= a.addr && a.End() <= w.h.curr <= limit
  {
    var bs := w.h.bs;
    forall a | a in w.held
      ensures base <= a.addr && a.End() <= w.h.curr
    {
      var k :| 0 <= k < |bs| && bs[k] == a;
      SaneAt(bs, base, w.h.curr, k);
    }
    forall a, b | a in w.held && b in w.held && a != b
      ensures Apart(a, b)
    {
      var i :| 0 <= i < |bs| && bs[i] == a;
      var j :| 0 <= j < |bs| && bs[j] == b;
      if i < j { SegPair(bs, base, w.h.curr, i, j); } else { SegPair(bs, base, w.h.curr, j, i); }
    }
  }
}
