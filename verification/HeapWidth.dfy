/** Where the heap's 32-bit sums part from the arithmetic meant: exactly which requests wrap. */
module HeapWidth {
  import opened Bytes
  import opened HeapBlocks
  import opened HeapRuns

  /** `ALIGN4` in a 32-bit register. */
  function Align4Word(x: nat): (r: nat)
    ensures r < TWO32
  {
    U32(x + 3) / 4 * 4
  }

  /** The last three sizes round to zero; every other size rounds as meant. */
  lemma Align4Exact(x: nat)
    requires x < TWO32
    ensures Align4Word(x) == Align4(x) <==> x <= 0xFFFF_FFFC
    ensures x > 0xFFFF_FFFC ==> Align4Word(x) == 0
  {
  }

  /** `block_can_fit` with the sum of payload address and size in a 32-bit register. */
  predicate FitWord(b: Block, size: nat, align: nat)
    requires b.addr >= 0
  {
    var h := AlignedHeader(b.addr, align);
    U32(h + 16 + size) <= b.End() && (h == b.addr || h - b.addr >= 24)
  }

  /** The test accepts a block that is too small exactly when the sum wraps to an address at or
      below the block's end. */
  lemma FitExact(b: Block, size: nat, align: nat)
    requires b.addr >= 0 && b.End() < TWO32 && size < TWO32 && AlignedHeader(b.addr, align) + 16 < TWO32
    ensures CanFit(b, size, align) ==> FitWord(b, size, align)
    ensures var h := AlignedHeader(b.addr, align);
            FitWord(b, size, align) && !CanFit(b, size, align) <==>
            (h == b.addr || h - b.addr >= 24) && TWO32 <= h + 16 + size <= TWO32 + b.End()
  {
    hide AlignedHeader, U32;
    WrapOnce(AlignedHeader(b.addr, align) + 16 + size);
  }

  lemma WrapOnce(x: nat)
    requires x < 2 * TWO32
    ensures U32(x) == if x < TWO32 then x else x - TWO32
  {
  }

  /** On the first free block of a default heap, an image of 0x3F000000 bytes passes the test. */
  lemma TooLargeFits()
    ensures var b := Block(0xC100_0000, 0x100, true);
            FitWord(b, 0x3F00_0000, 0) && !CanFit(b, 0x3F00_0000, 0)
  {
    FitExact(Block(0xC100_0000, 0x100, true), 0x3F00_0000, 0);
  }

  /** The limit test of `allocate_new_block` with its sum in a 32-bit register. */
  predicate GrowWord(curr: nat, limit: int, want: nat, unit: nat) {
    U32(AlignedHeader(curr, unit) + 16 + want) <= limit
  }

  /** Growth passes the test although the block ends beyond the limit exactly when the sum wraps to
      an address at or below the limit. */
  lemma GrowExact(curr: nat, limit: int, want: nat, unit: nat)
    requires limit < TWO32 && want < TWO32 && AlignedHeader(curr, unit) + 16 < TWO32
    ensures AlignedHeader(curr, unit) + 16 + want <= limit ==> GrowWord(curr, limit, want, unit)
    ensures GrowWord(curr, limit, want, unit) && AlignedHeader(curr, unit) + 16 + want > limit <==>
            TWO32 <= AlignedHeader(curr, unit) + 16 + want <= TWO32 + limit
  {
    hide AlignedHeader, U32;
    WrapOnce(AlignedHeader(curr, unit) + 16 + want);
  }

  // ---------------------------------------------------------------- whole requests

  /** `find_free_block` over the 32-bit test. */
  ghost function FirstFitWord(bs: seq<Block>, size: nat, align: nat, i: nat): (r: nat)
    requires i <= |bs| && forall k :: 0 <= k < |bs| ==> bs[k].addr >= 0
    ensures i <= r <= |bs|
    ensures r < |bs| ==> bs[r].free && FitWord(bs[r], size, align)
    ensures forall k :: i <= k < r ==> !(bs[k].free && FitWord(bs[k], size, align))
    decreases |bs| - i
  {
    if i == |bs| || (bs[i].free && FitWord(bs[i], size, align)) then i else FirstFitWord(bs, size, align, i + 1)
  }

  /** The size `allocate_from_block` computes for a header at `at` in block `b`; it wraps when the header
      lies behind the block's end. */
  function WholeWord(b: Block, at: int): nat { U32(b.End() - at - 16) }

  /** `allocate_from_block` and `split_block` with 32-bit sizes and addresses. */
  function CarveWord(bs: seq<Block>, i: nat, at: int, want: nat): (r: seq<Block>)
    requires i < |bs|
  {
    var b, whole := bs[i], WholeWord(bs[i], at);
    var lead := if at == b.addr then [] else [Block(b.addr, at - b.addr - 16, true)];
    var mine := if whole - want >= 24
                then [Block(at, want, false), Block(U32(at + 16 + want), whole - want - 16, true)]
                else [Block(at, whole, false)];
    bs[..i] + lead + mine + bs[i + 1..]
  }

  function CarvedWord(b: Block, at: int, want: nat): (r: Block) {
    Block(at, if WholeWord(b, at) - want >= 24 then want else WholeWord(b, at), false)
  }

  /** In a block with room nothing of that wraps. */
  lemma CarveSame(bs: seq<Block>, i: nat, want: nat, unit: nat)
    requires i < |bs| && bs[i].free && bs[i].addr >= 0 && bs[i].End() < TWO32 && CanFit(bs[i], want, unit)
    ensures var at := AlignedHeader(bs[i].addr, unit);
            && CarveWord(bs, i, at, want) == Carve(bs, i, at, want)
            && CarvedWord(bs[i], at, want) == Carved(bs[i], at, want)
  {
    hide AlignedHeader, U32;
    var b, at := bs[i], AlignedHeader(bs[i].addr, unit);
    Small(b.End() - at - 16);
    Small(at + 16 + want);
    assert bs[..i] + [] == bs[..i];
    if at != b.addr {
      var cut := SplitAt(bs, i, at - b.addr - 16);
      assert cut[..i + 1] == bs[..i] + [Block(b.addr, at - b.addr - 16, true)] && cut[i + 2..] == bs[i + 1..];
    }
  }

  lemma Small(x: int)
    requires 0 <= x < TWO32
    ensures U32(x) == x
  {
  }

  /** `kmalloc_internal` as compiled: every sum and difference in a 32-bit register. */
  ghost function AllocWord(h: Heap, limit: int, size: nat, align: nat, commit: bool): (r: Grant)
    requires Addressable(h)
  {
    if size == 0 then Denied
    else
      var want, unit := Align4Word(size), Normalize(align);
      var i := FirstFitWord(h.bs, want, unit, 0);
      if i < |h.bs| then
        var at := AlignedHeader(h.bs[i].addr, unit);
        Granted(h.(bs := CarveWord(h.bs, i, at, want)), CarvedWord(h.bs[i], at, want))
      else
        var at := AlignedHeader(h.curr, unit);
        if !GrowWord(h.curr, limit, want, unit) || !commit then Denied
        else Granted(Heap(Extend(h.bs, h.curr, at, want), U32(at + 16 + want)), Block(at, want, false))
  }

  /** The sum for a header at `at` leaves the register and lands at or below `top`. */
  predicate Wraps(at: int, want: nat, top: int) { TWO32 <= at + 16 + want <= TWO32 + top }

  /** No sum of the request wraps past a test: not at a free block passed over before the first one
      with room, and not at the limit if there is none with room. */
  ghost predicate NoWrap(h: Heap, limit: int, size: nat, align: nat)
    requires Addressable(h)
  {
    && NoFitWraps(h, size, align)
    && (FirstFit(h.bs, Align4(size), Normalize(align), 0) == |h.bs| ==>
          !Wraps(AlignedHeader(h.curr, Normalize(align)), Align4(size), limit))
  }

  ghost predicate NoFitWraps(h: Heap, size: nat, align: nat)
    requires Addressable(h)
  {
    var want, unit := Align4(size), Normalize(align);
    forall k :: 0 <= k < FirstFit(h.bs, want, unit, 0) && h.bs[k].free ==> !WrapsFit(h.bs[k], want, unit)
  }

  predicate WrapsFit(b: Block, want: nat, unit: nat)
    requires b.addr >= 0
  {
    var at := AlignedHeader(b.addr, unit);
    (at == b.addr || at - b.addr >= 24) && Wraps(at, want, b.End())
  }

  /** The addresses of the heap, and of every header a request could place, are 32-bit. */
  ghost predicate InRange(h: Heap, limit: int, align: nat) {
    && Addressable(h) && limit < TWO32
    && AlignedHeader(h.curr, Normalize(align)) + 16 < TWO32
    && (forall k :: 0 <= k < |h.bs| ==> h.bs[k].End() < TWO32 && HeaderInRange(h.bs[k], Normalize(align)))
  }

  predicate HeaderInRange(b: Block, unit: nat)
    requires b.addr >= 0
  {
    AlignedHeader(b.addr, unit) + 16 < TWO32
  }

  lemma {:induction false} FirstFitSame(bs: seq<Block>, want: nat, unit: nat, i: nat)
    requires i <= |bs| && forall k :: 0 <= k < |bs| ==> bs[k].addr >= 0
    requires forall k :: i <= k < FirstFit(bs, want, unit, i) && bs[k].free ==> !FitWord(bs[k], want, unit)
    requires forall k :: i <= k < |bs| && CanFit(bs[k], want, unit) ==> FitWord(bs[k], want, unit)
    ensures FirstFitWord(bs, want, unit, i) == FirstFit(bs, want, unit, i)
    decreases |bs| - i
  {
    hide FitWord, CanFit;
    if i < |bs| && !(bs[i].free && CanFit(bs[i], want, unit)) {
      FirstFitSame(bs, want, unit, i + 1);
    }
  }

  lemma FitAt(h: Heap, limit: int, size: nat, align: nat, k: nat)
    requires InRange(h, limit, align) && size <= 0xFFFF_FFFC && k < |h.bs|
    ensures var want, unit := Align4(size), Normalize(align);
            && (CanFit(h.bs[k], want, unit) ==> FitWord(h.bs[k], want, unit))
            && (FitWord(h.bs[k], want, unit) && !CanFit(h.bs[k], want, unit) <==> WrapsFit(h.bs[k], want, unit))
  {
    hide AlignedHeader, Normalize, CanFit, FitWord;
    assert HeaderInRange(h.bs[k], Normalize(align));
    FitExact(h.bs[k], Align4(size), Normalize(align));
  }

  lemma SameSearch(h: Heap, limit: int, size: nat, align: nat)
    requires InRange(h, limit, align) && size <= 0xFFFF_FFFC && NoFitWraps(h, size, align)
    ensures var want, unit := Align4(size), Normalize(align);
            FirstFitWord(h.bs, want, unit, 0) == FirstFit(h.bs, want, unit, 0)
  {
    hide AlignedHeader, Normalize, CanFit, FitWord, WrapsFit, Align4;
    var want, unit := Align4(size), Normalize(align);
    forall k | 0 <= k < |h.bs|
      ensures CanFit(h.bs[k], want, unit) ==> FitWord(h.bs[k], want, unit)
      ensures FitWord(h.bs[k], want, unit) && !CanFit(h.bs[k], want, unit) <==> WrapsFit(h.bs[k], want, unit)
    {
      FitAt(h, limit, size, align, k);
    }
    FirstFitSame(h.bs, want, unit, 0);
  }

  /** Where no sum wraps, the 32-bit request is the request meant. */
  lemma WordIsMeant(h: Heap, limit: int, size: nat, align: nat, commit: bool)
    requires InRange(h, limit, align) && size <= 0xFFFF_FFFC && NoWrap(h, limit, size, align)
    ensures AllocWord(h, limit, size, align, commit) == Alloc(h, limit, size, align, commit)
  {
    hide AlignedHeader, Normalize, CanFit, FitWord, WrapsFit, Carve, Carved, Extend, U32, CarveWord, CarvedWord;
    Align4Exact(size);
    SameSearch(h, limit, size, align);
    var want, unit := Align4(size), Normalize(align);
    var i := FirstFit(h.bs, want, unit, 0);
    if i < |h.bs| { CarveSame(h.bs, i, want, unit); }
    GrowExact(h.curr, limit, want, unit);
    WrapOnce(AlignedHeader(h.curr, unit) + 16 + want);
  }

  /** The bytes of the heap behind the pointer a request returns; none for a null pointer. */
  function Behind(limit: int, r: Grant): int {
    match r
    case Denied => 0
    case Granted(_, b) => if b.End() <= limit then b.size else limit - b.Payload()
  }

  /** A wrapped test hands out less than was asked for, or a block that ends behind the last address,
      which no block the request meant does. */
  lemma WrappedFitShort(h: Heap, limit: int, size: nat, align: nat, k: nat)
    requires InRange(h, limit, align) && 0 < size <= 0xFFFF_FFFC
    requires k < FirstFit(h.bs, Align4(size), Normalize(align), 0) && h.bs[k].free
    requires WrapsFit(h.bs[k], Align4(size), Normalize(align))
    ensures AllocWord(h, limit, size, align, true).Granted?
    ensures var b := AllocWord(h, limit, size, align, true).block; b.size < Align4(size) || b.End() >= TWO32
    ensures Behind(limit, AllocWord(h, limit, size, align, true)) < Align4(size)
  {
    hide AlignedHeader, Normalize, FitWord, WrapsFit, CarveWord, CarvedWord, Extend, U32, GrowWord, CanFit;
    Align4Exact(size);
    var want, unit := Align4(size), Normalize(align);
    FitAt(h, limit, size, align, k);
    var j := FirstFitWord(h.bs, want, unit, 0);
    FitAt(h, limit, size, align, j);
    CutShort(h.bs[j], want, unit);
  }

  lemma CutShort(b: Block, want: nat, unit: nat)
    requires b.addr >= 0 && WrapsFit(b, want, unit) && b.End() < TWO32 && AlignedHeader(b.addr, unit) + 16 < TWO32
    ensures var at := AlignedHeader(b.addr, unit);
            var c := CarvedWord(b, at, want);
            c.addr == at && at + 16 + want >= TWO32 && (c.size < want || c.End() >= TWO32)
  {
    hide AlignedHeader, U32;
    var at := AlignedHeader(b.addr, unit);
    if at + 16 <= b.End() {
      Small(b.End() - at - 16);
    } else {
      WrapBack(b.End() - at - 16);
    }
  }

  lemma WrapBack(x: int)
    requires -TWO32 <= x < 0
    ensures U32(x) == x + TWO32
  {
  }

  lemma MeantIsEnough(h: Heap, limit: int, size: nat, align: nat)
    requires InRange(h, limit, align)
    ensures var r := Alloc(h, limit, size, align, true);
            r.Granted? ==> r.block.size >= Align4(size) && r.block.End() < TWO32
  {
    hide AlignedHeader, Normalize, Carve, Extend, Align4;
  }

  /** The 32-bit request is the request meant exactly when no sum wraps past a test. */
  lemma AllocWordExact(h: Heap, limit: int, size: nat, align: nat)
    requires InRange(h, limit, align) && 0 < size <= 0xFFFF_FFFC
    ensures AllocWord(h, limit, size, align, true) == Alloc(h, limit, size, align, true) <==>
            NoWrap(h, limit, size, align)
  {
    hide AlignedHeader, Normalize, FitWord, WrapsFit, Carve, Carved, CarveWord, CarvedWord, Extend, U32, GrowWord,
         CanFit, Align4, Wraps;
    var want, unit := Align4(size), Normalize(align);
    var first := FirstFit(h.bs, want, unit, 0);
    if NoWrap(h, limit, size, align) {
      WordIsMeant(h, limit, size, align, true);
    } else if k :| 0 <= k < first && h.bs[k].free && WrapsFit(h.bs[k], want, unit) {
      WrappedFitShort(h, limit, size, align, k);
      MeantIsEnough(h, limit, size, align);
    } else {
      WrappedGrowth(h, limit, size, align);
    }
  }

  lemma WrappedGrowth(h: Heap, limit: int, size: nat, align: nat)
    requires InRange(h, limit, align) && 0 < size <= 0xFFFF_FFFC && NoFitWraps(h, size, align)
    requires FirstFit(h.bs, Align4(size), Normalize(align), 0) == |h.bs|
    requires Wraps(AlignedHeader(h.curr, Normalize(align)), Align4(size), limit)
    ensures Alloc(h, limit, size, align, true).Denied?
    ensures AllocWord(h, limit, size, align, true).Granted?
    ensures Behind(limit, AllocWord(h, limit, size, align, true)) < Align4(size)
  {
    hide AlignedHeader, Normalize, FitWord, CarveWord, CarvedWord, Extend, U32, GrowWord, CanFit, NoFitWraps;
    Align4Exact(size);
    SameSearch(h, limit, size, align);
    GrowExact(h.curr, limit, Align4(size), Normalize(align));
  }

  /** A caller whose request wraps past a test gets a pointer with fewer bytes behind it than it
      asked for. */
  lemma WrapIsShort(h: Heap, limit: int, size: nat, align: nat)
    requires InRange(h, limit, align) && 0 < size <= 0xFFFF_FFFC && !NoWrap(h, limit, size, align)
    ensures AllocWord(h, limit, size, align, true).Granted?
    ensures Behind(limit, AllocWord(h, limit, size, align, true)) < Align4(size)
  {
    hide AlignedHeader, Normalize, WrapsFit, Align4, Wraps, AllocWord, FirstFit;
    var want, unit := Align4(size), Normalize(align);
    var first := FirstFit(h.bs, want, unit, 0);
    if k :| 0 <= k < first && h.bs[k].free && WrapsFit(h.bs[k], want, unit) {
      WrappedFitShort(h, limit, size, align, k);
    } else {
      WrappedGrowth(h, limit, size, align);
    }
  }

  /** On a fresh default heap, 0x3F000000 bytes are granted at once and the heap then grows from
      address 0x10, although the heap ends long before that many bytes. */
  lemma WideRequestGranted()
    ensures var h := Heap([], 0xC100_0000);
            && Alloc(h, 0xC500_0000, 0x3F00_0000, 0, true) == Denied
            && AllocWord(h, 0xC500_0000, 0x3F00_0000, 0, true)
               == Granted(Heap([Block(0xC100_0000, 0x3F00_0000, false)], 0x10), Block(0xC100_0000, 0x3F00_0000, false))
  {
    FreshGrowth(0xC100_0000, 0xC500_0000, 0x3F00_0000);
  }

  /** An empty heap serves an unaligned request of whole words by growing. */
  lemma FreshGrowth(base: nat, limit: nat, size: nat)
    requires 0 < size <= 0xFFFF_FFFC && size % 4 == 0 && base + 16 < TWO32 && limit < TWO32
    ensures var h, b := Heap([], base), Block(base, size, false);
            && (base + 16 + size > limit ==> Alloc(h, limit, size, 0, true) == Denied)
            && (TWO32 <= base + 16 + size <= TWO32 + limit ==>
                AllocWord(h, limit, size, 0, true) == Granted(Heap([b], base + 16 + size - TWO32), b))
  {
    hide U32, AlignedHeader, CanFit, FitWord;
    Align4Exact(size);
    assert Align4(size) == size && Normalize(0) == 0 && AlignedHeader(base, 0) == base;
    WrapOnce(base + 16 + size);
  }

  // ---------------------------------------------------------------- the scope of the exact sums

  /** Requests up to the default heap size, aligned to at most a page. */
  predicate Modest(size: nat, align: nat) { size <= 0x400_0000 && align <= 4096 }

  /** The heap and its limit lie below 0xF0000000. */
  predicate Low(h: Heap, limit: int) { h.curr <= 0xF000_0000 && limit <= 0xF000_0000 }

  lemma UnitModest(align: nat)
    requires align <= 4096
    ensures Normalize(align) <= 8192
  {
    hide DoubledTo;
    NormalizeMeans(align);
    assert PowerOfTwo(1);
    DoubledMeans(1, align);
  }

  lemma ModestFits(h: Heap, base: int, limit: int, size: nat, align: nat)
    requires Sound(h, base, limit) && Low(h, limit) && Modest(size, align)
    ensures InRange(h, limit, align) && NoWrap(h, limit, size, align)
  {
    hide AlignedHeader, Normalize, Sound, CanFit;
    SoundBounds(h, base, limit);
    UnitModest(align);
  }

  /** Every modest request of a sound heap below 0xF0000000 is served as meant. */
  lemma ModestIsMeant(h: Heap, base: int, limit: int, size: nat, align: nat, commit: bool)
    requires Sound(h, base, limit) && Low(h, limit) && Modest(size, align)
    ensures Addressable(h) && AllocWord(h, limit, size, align, commit) == Alloc(h, limit, size, align, commit)
  {
    hide Alloc, AllocWord, NoWrap, InRange, Sound;
    ModestFits(h, base, limit, size, align);
    RangeAddressable(h, limit, align);
    WordIsMeant(h, limit, size, align, commit);
  }

  /** A modest request gets a null pointer or all the bytes it asked for. */
  lemma ModestBehind(h: Heap, base: int, limit: int, size: nat, align: nat, commit: bool)
    requires Sound(h, base, limit) && Low(h, limit) && Modest(size, align) && size > 0
    ensures Addressable(h)
    ensures var r := AllocWord(h, limit, size, align, commit);
            r.Denied? || Behind(limit, r) >= size
  {
    hide Alloc, AllocWord, Sound, Used, AlignedTo, Normalize, Ordered, Low, Modest;
    ModestIsMeant(h, base, limit, size, align, commit);
    AllocMeans(h, base, limit, size, align, commit);
    var r := Alloc(h, limit, size, align, commit);
    if r.Granted? { UsedBelowLimit(r.heap, base, limit, r.block); }
  }

  lemma UsedBelowLimit(h: Heap, base: int, limit: int, b: Block)
    requires Sound(h, base, limit) && b in Used(h.bs)
    ensures b.End() <= limit
  {
    SoundBounds(h, base, limit);
  }

  lemma RangeAddressable(h: Heap, limit: int, align: nat)
    requires InRange(h, limit, align)
    ensures Addressable(h)
  {
  }

  /** One call with 32-bit sums. */
  ghost predicate StepWord(w: World, limit: int, op: Op, w': World) {
    match op
    case Kmalloc(size, align, commit) =>
      Addressable(w.h) &&
      (match AllocWord(w.h, limit, size, align, commit)
       case Denied => w' == w
       case Granted(g, b) => w' == World(g, w.held + {b}))
    case Kfree(_) => Step(w, limit, op, w')
  }

  ghost predicate RunWord(trace: seq<World>, limit: int, ops: seq<Op>) {
    |trace| == |ops| + 1 && forall k :: 0 <= k < |ops| ==> StepWord(trace[k], limit, ops[k], trace[k + 1])
  }

  ghost predicate ModestOps(ops: seq<Op>) {
    forall k :: 0 <= k < |ops| && ops[k].Kmalloc? ==> Modest(ops[k].size, ops[k].align)
  }

  lemma ModestStep(w: World, base: int, limit: int, op: Op, w': World)
    requires Owned(w, base, limit) && Low(w.h, limit) && StepWord(w, limit, op, w')
    requires op.Kmalloc? ==> Modest(op.size, op.align)
    ensures Step(w, limit, op, w') && Owned(w', base, limit) && Low(w'.h, limit)
  {
    hide Sound, Alloc, AllocWord, Live, Used, Addressable, Modest;
    match op {
      case Kmalloc(size, align, commit) =>
        ModestIsMeant(w.h, base, limit, size, align, commit);
        AllocCurr(w.h, limit, size, align, commit);
      case Kfree(p) =>
    }
    OwnedStep(w, base, limit, op, w');
  }

  lemma AllocCurr(h: Heap, limit: int, size: nat, align: nat, commit: bool)
    requires Addressable(h)
    ensures var r := Alloc(h, limit, size, align, commit);
            r.Granted? ==> r.heap.curr == h.curr || r.heap.curr <= limit
  {
    hide AlignedHeader, Normalize, Carve, Extend, FirstFit, Align4;
  }

  /** The run theorem holds of the code as compiled for runs of modest requests. */
  lemma {:induction false} WordRunsStayOwned(trace: seq<World>, base: int, limit: int, ops: seq<Op>, k: nat)
    requires RunWord(trace, limit, ops) && Owned(trace[0], base, limit) && Low(trace[0].h, limit) && ModestOps(ops)
    requires k < |trace|
    ensures Owned(trace[k], base, limit) && Low(trace[k].h, limit)
    ensures forall a, b :: a in trace[k].held && b in trace[k].held && a != b ==> Apart(a, b)
    ensures forall a :: a in trace[k].held ==> base <= a.addr && a.End() <= trace[k].h.curr <= limit
    decreases k
  {
    hide StepWord, Owned, Low, Modest;
    if k > 0 {
      WordRunsStayOwned(trace, base, limit, ops, k - 1);
      assert StepWord(trace[k - 1], limit, ops[k - 1], trace[k - 1 + 1]);
      ModestStep(trace[k - 1], base, limit, ops[k - 1], trace[k]);
    }
    HeldApart(trace[k], base, limit);
  }

  // ---------------------------------------------------------------- the alignment loop

  /** The register of `normalize_align` after `n` doublings of 1. */
  function Doubling(n: nat): nat { if n == 0 then 1 else U32(2 * Doubling(n - 1)) }

  lemma DoublingEight(n: nat)
    requires Doubling(n) < 0x100_0000
    ensures Doubling(n + 8) == 256 * Doubling(n)
  {
    hide Doubling;
    DoublingOne(n);
    DoublingOne(n + 1);
    DoublingOne(n + 2);
    DoublingOne(n + 3);
    DoublingOne(n + 4);
    DoublingOne(n + 5);
    DoublingOne(n + 6);
    DoublingOne(n + 7);
  }

  lemma DoublingOne(n: nat)
    requires Doubling(n) < 0x8000_0000
    ensures Doubling(n + 1) == 2 * Doubling(n)
  {
  }

  lemma DoublingTop()
    ensures Doubling(31) == 0x8000_0000
  {
    hide Doubling;
    DoublingStart();
    DoublingEight(0);
    DoublingEight(8);
    DoublingEight(16);
    DoublingOne(24);
    DoublingOne(25);
    DoublingOne(26);
    DoublingOne(27);
    DoublingOne(28);
    DoublingOne(29);
    DoublingOne(30);
  }

  lemma DoublingStart()
    ensures Doubling(0) == 1
  {
  }

  /** The register holds a power of two until it overflows to zero. */
  lemma {:induction false} DoublingRange(n: nat)
    ensures Doubling(n) == 0 || (PowerOfTwo(Doubling(n)) && Doubling(n) <= 0x8000_0000)
  {
    if n == 0 {
      DoublingStart();
    } else {
      hide Doubling, PowerOfTwo;
      DoublingRange(n - 1);
      var p := Doubling(n - 1);
      if p < 0x8000_0000 {
        DoublingOne(n - 1);
        if p > 0 {
          PowerTop(p);
          PowerDoubles(p);
        }
      } else {
        DoublingOut(n - 1);
      }
    }
  }

  lemma DoublingOut(n: nat)
    requires Doubling(n) == 0x8000_0000
    ensures Doubling(n + 1) == 0
  {
  }

  lemma PowerDoubles(p: nat)
    requires PowerOfTwo(p)
    ensures PowerOfTwo(2 * p)
  {
    assert 2 * p / 2 == p;
  }

  /** Among powers of two below 2^32, doubling stays in range. */
  lemma PowerTop(p: nat)
    requires PowerOfTwo(p) && p <= 0x8000_0000
    ensures p < 0x8000_0000 ==> 2 * p <= 0x8000_0000
  {
    if p < 0x8000_0000 {
      PowerTopIs();
      PowersApart(p, 0x8000_0000);
    }
  }

  lemma PowerEight(p: nat)
    requires PowerOfTwo(p)
    ensures PowerOfTwo(256 * p)
  {
    assert PowerOfTwo(4 * p) by { assert 4 * p / 2 == 2 * p && 2 * p / 2 == p && PowerOfTwo(2 * p); }
    assert PowerOfTwo(16 * p) by { assert 16 * p / 2 == 8 * p && 8 * p / 2 == 4 * p && PowerOfTwo(8 * p); }
    assert PowerOfTwo(64 * p) by { assert 64 * p / 2 == 32 * p && 32 * p / 2 == 16 * p && PowerOfTwo(32 * p); }
    assert 256 * p / 2 == 128 * p && 128 * p / 2 == 64 * p && PowerOfTwo(128 * p);
  }

  lemma PowerTopIs()
    ensures PowerOfTwo(0x8000_0000)
  {
    assert PowerOfTwo(1) && PowerOfTwo(2) && PowerOfTwo(8) && PowerOfTwo(32) && PowerOfTwo(128);
    PowerEight(128);
    PowerEight(0x8000);
    PowerEight(0x80_0000);
  }

  /** The loop of `normalize_align` ends exactly for alignments up to 2^31. */
  lemma NormalizeReturns(align: nat)
    ensures (exists n :: Doubling(n) >= align) <==> align <= 0x8000_0000
  {
    DoublingTop();
    forall n: nat
      ensures Doubling(n) <= 0x8000_0000
    {
      DoublingRange(n);
    }
  }
}
