/** Runs of `kmalloc` without alignment: the blocks tile the heap and free neighbours are always
    joined. An aligned request that grows the heap can break the tiling; `AllocTiled` says when.
    On a tiled heap, freeing undoes every allocation from a free block. */
module HeapTiles {
  import opened Arith
  import opened HeapBlocks
  import opened HeapRuns

  /** Neighbours touch and are not both free. */
  ghost predicate Joins(a: Block, b: Block) { a.End() == b.addr && !(a.free && b.free) }

  ghost predicate Packed(bs: seq<Block>) { forall k :: 0 < k < |bs| ==> Joins(bs[k - 1], bs[k]) }

  /** The list tiles `[base, curr)` with no two free neighbours. */
  ghost predicate Tiled(h: Heap, base: int, limit: int) {
    Sound(h, base, limit) && Packed(h.bs) && (h.bs != [] ==> h.bs[0].addr == base)
  }

  lemma PackedConcat(a: seq<Block>, b: seq<Block>)
    ensures Packed(a + b) <==>
            Packed(a) && Packed(b) && (a != [] && b != [] ==> Joins(a[|a| - 1], b[0]))
  {
    var ab := a + b;
    if Packed(ab) {
      forall k | 0 < k < |a|
        ensures Joins(a[k - 1], a[k])
      {
        assert Joins(ab[k - 1], ab[k]);
      }
      forall k | 0 < k < |b|
        ensures Joins(b[k - 1], b[k])
      {
        var n := |a| + k;
        assert Joins(ab[n - 1], ab[n]) && ab[n - 1] == b[k - 1];
      }
      if a != [] && b != [] { assert Joins(ab[|a| - 1], ab[|a|]); }
    }
    if Packed(a) && Packed(b) && (a != [] && b != [] ==> Joins(a[|a| - 1], b[0])) {
      forall k | 0 < k < |ab|
        ensures Joins(ab[k - 1], ab[k])
      {
        if k > |a| { assert ab[k - 1] == b[k - 1 - |a|] && ab[k] == b[k - |a|]; }
      }
    }
  }

  lemma PackedAround(a: seq<Block>, mid: seq<Block>, c: seq<Block>)
    requires mid != []
    ensures Packed(a + mid + c) <==>
            && Packed(a) && Packed(mid) && Packed(c)
            && (a != [] ==> Joins(a[|a| - 1], mid[0]))
            && (c != [] ==> Joins(mid[|mid| - 1], c[0]))
  {
    hide Packed, Joins;
    PackedConcat(a + mid, c);
    PackedConcat(a, mid);
  }

  // ---------------------------------------------------------------- allocation keeps the tiling

  /** What a free block becomes when `size` bytes are taken from its start. */
  function Taken(b: Block, size: int): (r: seq<Block>)
    ensures r != [] && r[0].addr == b.addr && !r[0].free
  {
    if b.size - size >= 24
    then [Block(b.addr, size, false), Block(b.addr + 16 + size, b.size - size - 16, true)]
    else [b.(free := false)]
  }

  /** What it becomes when they are taken at an aligned header `at`. */
  function Pieces(b: Block, at: int, size: int): (r: seq<Block>)
    ensures r != [] && r[0].addr == b.addr
  {
    if at == b.addr then Taken(b, size)
    else [Block(b.addr, at - b.addr - 16, true)] + Taken(Block(at, b.End() - at - 16, true), size)
  }

  lemma CarveInPlace(bs: seq<Block>, i: nat, size: int)
    requires i < |bs|
    ensures SetFree(Trim(bs, i, size), i, false) == bs[..i] + Taken(bs[i], size) + bs[i + 1..]
  {
  }

  lemma CarvePieces(bs: seq<Block>, i: nat, at: int, size: int)
    requires i < |bs| && bs[i].free
    ensures Carve(bs, i, at, size) == bs[..i] + Pieces(bs[i], at, size) + bs[i + 1..]
  {
    hide SetFree, Trim, Taken;
    if at == bs[i].addr {
      CarveInPlace(bs, i, size);
    } else {
      var cut := SplitAt(bs, i, at - bs[i].addr - 16);
      CarveInPlace(cut, i + 1, size);
      assert cut[..i + 1] == bs[..i] + [cut[i]] && cut[i + 2..] == bs[i + 1..];
      assert cut[i + 1] == Block(at, bs[i].End() - at - 16, true);
      Regroup(bs[..i], cut[i], Taken(cut[i + 1], size), bs[i + 1..]);
    }
  }

  lemma Regroup(a: seq<Block>, x: Block, mid: seq<Block>, c: seq<Block>)
    ensures a + [x] + mid + c == a + ([x] + mid) + c
  {
  }

  lemma PiecesPacked(b: Block, at: int, size: int)
    requires b.free
    ensures Packed(Pieces(b, at, size))
    ensures var p := Pieces(b, at, size); p[|p| - 1].End() == b.End()
  {
    var rest := Block(at, b.End() - at - 16, true);
    PackedConcat([Block(b.addr, at - b.addr - 16, true)], Taken(rest, size));
    assert Packed(Taken(rest, size)) && Packed(Taken(b, size));
  }

  lemma CarvePacked(bs: seq<Block>, i: nat, at: int, size: int)
    requires Packed(bs) && i < |bs| && bs[i].free
    ensures Packed(Carve(bs, i, at, size)) && Carve(bs, i, at, size) != []
    ensures Carve(bs, i, at, size)[0].addr == bs[0].addr
  {
    hide Carve, Packed, Pieces;
    CarvePieces(bs, i, at, size);
    var mid := Pieces(bs[i], at, size);
    assert bs == bs[..i] + [bs[i]] + bs[i + 1..];
    PackedAround(bs[..i], [bs[i]], bs[i + 1..]);
    PackedAround(bs[..i], mid, bs[i + 1..]);
    PiecesPacked(bs[i], at, size);
  }

  /** Where the list would go on with no hole and no unjoined pair: no gap, a gap large enough for a
      block of its own behind a held block, or a small one that a free tail absorbs. */
  ghost predicate GapFits(h: Heap, at: int) {
    var gap, tailFree := at - h.curr, h.bs != [] && h.bs[|h.bs| - 1].free;
    gap == 0 || (if gap >= 24 then !tailFree else tailFree)
  }

  lemma ExtendPacked(h: Heap, base: int, at: int, size: int)
    requires Packed(h.bs) && h.curr == Reach(h.bs, base) && h.curr <= at && (h.bs != [] ==> h.bs[0].addr == base)
    ensures var r := Extend(h.bs, h.curr, at, size);
            Packed(r) && r[0].addr == base <==> GapFits(h, at)
  {
    hide Packed;
    var bs, gap, newest := h.bs, at - h.curr, Block(at, size, false);
    var filler := Block(h.curr, gap - 16, true);
    SinglePacked(newest);
    SinglePacked(filler);
    PackedConcat(bs, [newest]);
    PackedConcat(bs, [filler]);
    PackedConcat(bs + [filler], [newest]);
    if 0 < gap < 24 && bs != [] && bs[|bs| - 1].free {
      GrownPacked(bs, gap);
      PackedConcat(GrowLast(bs, gap), [newest]);
    }
  }

  lemma GrownPacked(bs: seq<Block>, gap: int)
    requires Packed(bs) && bs != []
    ensures Packed(GrowLast(bs, gap))
    ensures GrowLast(bs, gap)[0].addr == bs[0].addr
  {
    var n := |bs| - 1;
    var g := GrowLast(bs, gap);
    forall k | 0 < k < |g|
      ensures Joins(g[k - 1], g[k])
    {
      assert Joins(bs[k - 1], bs[k]);
    }
  }

  lemma SinglePacked(b: Block)
    ensures Packed([b])
  {
  }

  lemma SoundEnd(h: Heap, base: int, limit: int)
    requires Sound(h, base, limit)
    ensures h.curr == Reach(h.bs, base)
  {
  }

  /** A granted request leaves the heap tiled exactly when it was carved from a free block or the
      gap in front of the new block fits. */
  lemma AllocTiled(h: Heap, base: int, limit: int, size: nat, align: nat, commit: bool)
    requires Tiled(h, base, limit)
    ensures Addressable(h)
    ensures var r := Alloc(h, limit, size, align, commit);
            var i := FirstFit(h.bs, Align4(size), Normalize(align), 0);
            r.Granted? ==>
              (Tiled(r.heap, base, limit) <==> i < |h.bs| || GapFits(h, AlignedHeader(h.curr, Normalize(align))))
  {
    hide Sound, Packed, Joins, Carve, Extend, Reach, GapFits, Normalize, AlignedHeader, Align4, CanFit, Used, Apart;
    SoundBounds(h, base, limit);
    AllocMeans(h, base, limit, size, align, commit);
    var r := Alloc(h, limit, size, align, commit);
    if r.Granted? {
      var i := FirstFit(h.bs, Align4(size), Normalize(align), 0);
      if i < |h.bs| {
        CarvePacked(h.bs, i, AlignedHeader(h.bs[i].addr, Normalize(align)), Align4(size));
      } else {
        SoundEnd(h, base, limit);
        var at := AlignedHeader(h.curr, Normalize(align));
        ExtendPacked(h, base, at, Align4(size));
        ExtendGrows(h.bs, h.curr, at, Align4(size));
      }
    }
  }

  lemma ExtendGrows(bs: seq<Block>, curr: int, at: int, size: int)
    ensures Extend(bs, curr, at, size) != []
  {
  }

  /** Without alignment the gap is empty, so the tiling is always kept. */
  lemma AllocUnaligned(h: Heap, base: int, limit: int, size: nat, align: nat, commit: bool)
    requires Tiled(h, base, limit) && align < 2
    ensures Addressable(h)
    ensures var r := Alloc(h, limit, size, align, commit); r.Granted? ==> Tiled(r.heap, base, limit)
  {
    AllocTiled(h, base, limit, size, align, commit);
    assert Normalize(align) == 0;
  }

  /** An aligned request can lose the bytes of a gap: after `kmalloc(4)` on a fresh heap, a request
      aligned to 16 leaves 12 bytes that belong to no block. */
  lemma AlignmentLosesBytes()
    ensures var h := Heap([Block(0x1000, 4, false)], 0x1014);
            && Tiled(h, 0x1000, 0x2000)
            && Addressable(h)
            && var r := Alloc(h, 0x2000, 8, 16, true);
               r.Granted? && r.heap.bs == [Block(0x1000, 4, false), Block(0x1020, 8, false)] && !Packed(r.heap.bs)
  {
    var h := Heap([Block(0x1000, 4, false)], 0x1014);
    assert h.bs[1..] == [];
    assert DoubledTo(1, 16) == 16;
    assert FirstFit(h.bs, 8, 16, 0) == 1;
    assert AlignedHeader(0x1014, 16) == 0x1020;
    var r := Alloc(h, 0x2000, 8, 16, true);
    assert !Joins(r.heap.bs[1 - 1], r.heap.bs[1]);
  }

  // ---------------------------------------------------------------- freeing

  /** The stretch of blocks that freeing block `i` joins into one. */
  ghost function Low(bs: seq<Block>, i: nat): (r: nat)
    requires i < |bs|
    ensures r <= i
  {
    if i > 0 && bs[i - 1].free then i - 1 else i
  }

  ghost function High(bs: seq<Block>, i: nat): (r: nat)
    requires i < |bs|
    ensures i < r <= |bs|
  {
    if i + 1 < |bs| && bs[i + 1].free then i + 2 else i + 1
  }

  ghost function Merged(bs: seq<Block>, i: nat): (r: Block)
    requires i < |bs|
  {
    var l, h := bs[Low(bs, i)], bs[High(bs, i) - 1];
    Block(l.addr, h.End() - l.addr - 16, true)
  }

  lemma PackedPair(bs: seq<Block>, k: nat)
    requires Packed(bs) && 0 < k < |bs|
    ensures Joins(bs[k - 1], bs[k])
  {
  }

  lemma MergesBack(bs: seq<Block>, i: nat)
    requires i < |bs| && (i + 1 < |bs| ==> bs[i].End() == bs[i + 1].addr)
    ensures JoinBack(SetFree(bs, i, true), i)
         == bs[..i] + [Block(bs[i].addr, bs[High(bs, i) - 1].End() - bs[i].addr - 16, true)] + bs[High(bs, i)..]
  {
    var m := SetFree(bs, i, true);
    if i + 1 < |bs| && bs[i + 1].free {
      assert m[..i] == bs[..i] && m[i + 2..] == bs[i + 2..];
    } else {
      assert m == bs[..i] + [m[i]] + bs[i + 1..];
    }
  }

  lemma MergesFront(a: seq<Block>, x: Block, back: Block, c: seq<Block>)
    requires x.End() == back.addr && back.free
    ensures JoinFront(a + [x] + [back] + c, |a| + 1)
         == if x.free then a + [Block(x.addr, back.End() - x.addr - 16, true)] + c else a + [x] + [back] + c
  {
    var m := a + [x] + [back] + c;
    assert m[|a|] == x && m[|a| + 1] == back;
    assert m[..|a|] == a && m[|a| + 2..] == c;
  }

  /** In a tiling, freeing replaces the block and its free neighbours by one block over the same
      stretch. */
  lemma ReleaseMerges(bs: seq<Block>, i: nat)
    requires Packed(bs) && i < |bs|
    ensures Release(bs, i) == bs[..Low(bs, i)] + [Merged(bs, i)] + bs[High(bs, i)..]
  {
    hide Packed, JoinBack, JoinFront, SetFree, High;
    if i + 1 < |bs| { PackedPair(bs, i + 1); }
    MergesBack(bs, i);
    var back := Block(bs[i].addr, bs[High(bs, i) - 1].End() - bs[i].addr - 16, true);
    if i > 0 {
      PackedPair(bs, i);
      MergesFront(bs[..i - 1], bs[i - 1], back, bs[High(bs, i)..]);
      assert bs[..i - 1] + [bs[i - 1]] == bs[..i];
    } else {
      NoFront(bs[..i] + [back] + bs[High(bs, i)..]);
    }
  }

  lemma NoFront(bs: seq<Block>)
    requires bs != []
    ensures JoinFront(bs, 0) == bs
  {
  }

  lemma ReleasePacked(bs: seq<Block>, i: nat)
    requires Packed(bs) && i < |bs| && !bs[i].free
    ensures Packed(Release(bs, i))
    ensures Release(bs, i) != [] && Release(bs, i)[0].addr == bs[0].addr
  {
    hide Release, Packed;
    ReleaseMerges(bs, i);
    var l, h := Low(bs, i), High(bs, i);
    var a, mid, c := bs[..l], bs[l..h], bs[h..];
    assert bs == a + mid + c;
    PackedAround(a, mid, c);
    PackedAround(a, [Merged(bs, i)], c);
    SinglePacked(Merged(bs, i));
    if 0 < l { PackedPair(bs, l); assert a[|a| - 1] == bs[l - 1]; }
    if h < |bs| { PackedPair(bs, h); assert mid[|mid| - 1] == bs[h - 1]; }
  }

  lemma FreeTiled(h: Heap, base: int, limit: int, p: int)
    requires Tiled(h, base, limit) && Live(h, p)
    ensures Tiled(Free(h, p), base, limit)
  {
    hide Sound, Packed, Release;
    FreeMeans(h, base, limit, p);
    ReleasePacked(h.bs, IndexOf(h.bs, p, 0));
  }

  // ---------------------------------------------------------------- runs

  ghost predicate Unaligned(op: Op) { op.Kmalloc? ==> op.align < 2 }

  lemma TiledStep(w: World, base: int, limit: int, op: Op, w': World)
    requires Tiled(w.h, base, limit) && Step(w, limit, op, w') && Unaligned(op)
    ensures Tiled(w'.h, base, limit)
  {
    hide Tiled, Alloc, Live, Free;
    match op {
      case Kmalloc(size, align, commit) => AllocUnaligned(w.h, base, limit, size, align, commit);
      case Kfree(p) => if p != 0 { FreeTiled(w.h, base, limit, p); }
    }
  }

  /** Over every run of requests without alignment, the list tiles the heap. */
  lemma {:induction false} RunsStayTiled(trace: seq<World>, base: int, limit: int, ops: seq<Op>, k: nat)
    requires Run(trace, limit, ops) && Tiled(trace[0].h, base, limit) && k < |trace|
    requires forall op :: op in ops ==> Unaligned(op)
    ensures Tiled(trace[k].h, base, limit)
    decreases k
  {
    hide Step, Tiled, Unaligned;
    if k > 0 {
      RunsStayTiled(trace, base, limit, ops, k - 1);
      assert Step(trace[k - 1], limit, ops[k - 1], trace[k - 1 + 1]);
      assert ops[k - 1] in ops;
      TiledStep(trace[k - 1], base, limit, ops[k - 1], trace[k]);
    }
  }

  /** Once everything is freed the heap is one free block, or never grew. */
  lemma {:induction false} NothingHeld(h: Heap, base: int, limit: int)
    requires Tiled(h, base, limit) && Used(h.bs) == {}
    ensures h.bs == (if h.curr == base then [] else [Block(base, h.curr - base - 16, true)])
  {
    SoundBounds(h, base, limit);
    SoundEnd(h, base, limit);
    forall k | 0 <= k < |h.bs|
      ensures h.bs[k].free
    {
      assert !h.bs[k].free <==> h.bs[k] in Used(h.bs);
    }
    if |h.bs| > 1 { PackedPair(h.bs, 1); }
  }

  /** Where the block handed out by a carve at `at` stands in the list. */
  function Place(b: Block, at: int, i: nat): nat { if at == b.addr then i else i + 1 }

  /** Freeing what was just carved from a free block restores the list, aligned or not. */
  lemma CarveThenRelease(bs: seq<Block>, i: nat, at: int, size: int)
    requires Packed(bs) && i < |bs| && bs[i].free
    ensures Place(bs[i], at, i) < |Carve(bs, i, at, size)|
    ensures Release(Carve(bs, i, at, size), Place(bs[i], at, i)) == bs
  {
    hide Carve, Release, Packed, Pieces, Low, High, Merged;
    var c, j := Carve(bs, i, at, size), Place(bs[i], at, i);
    CarvePieces(bs, i, at, size);
    CarvePacked(bs, i, at, size);
    if i > 0 { PackedPair(bs, i); }
    if i + 1 < |bs| { PackedPair(bs, i + 1); }
    PiecesAround(bs[..i], bs[i], bs[i + 1..], at, size);
    ReleaseMerges(c, j);
    assert bs == bs[..i] + [bs[i]] + bs[i + 1..];
  }

  /** Between neighbours that are held, freeing the piece handed out joins all pieces. */
  lemma PiecesAround(a: seq<Block>, b: Block, z: seq<Block>, at: int, size: int)
    requires b.free && (a != [] ==> !a[|a| - 1].free) && (z != [] ==> !z[0].free)
    ensures var c, j := a + Pieces(b, at, size) + z, Place(b, at, |a|);
            && j < |c| && Low(c, j) == |a| && Merged(c, j) == b
            && c[..Low(c, j)] == a && c[High(c, j)..] == z
  {
    hide Pieces;
    PiecesShape(b, at, size);
    RunAround(a, Pieces(b, at, size), z, Place(b, at, 0));
  }

  /** A held piece at `j`, with a free one in front and behind at most. */
  ghost predicate OneHeld(mid: seq<Block>, j: nat) {
    && j <= 1 && j < |mid| <= j + 2 && !mid[j].free
    && (j == 1 ==> mid[0].free) && (j + 1 < |mid| ==> mid[j + 1].free)
  }

  lemma PiecesShape(b: Block, at: int, size: int)
    ensures var mid := Pieces(b, at, size);
            OneHeld(mid, Place(b, at, 0)) && mid[0].addr == b.addr && mid[|mid| - 1].End() == b.End()
  {
  }

  lemma RunAround(a: seq<Block>, mid: seq<Block>, z: seq<Block>, j: nat)
    requires OneHeld(mid, j) && (a != [] ==> !a[|a| - 1].free) && (z != [] ==> !z[0].free)
    ensures var c, k := a + mid + z, |a| + j;
            && k < |c| && Low(c, k) == |a| && High(c, k) == |a| + |mid| && c[..|a|] == a && c[|a| + |mid|..] == z
            && Merged(c, k) == Block(mid[0].addr, mid[|mid| - 1].End() - mid[0].addr - 16, true)
  {
    var c, k := a + mid + z, |a| + j;
    assert c[k] == mid[j];
    assert c[|a|] == mid[0] && c[|a| + |mid| - 1] == mid[|mid| - 1];
    if a != [] { assert c[|a| - 1] == a[|a| - 1]; }
    if z != [] { assert c[|a| + |mid|] == z[0]; }
  }

  /** `kfree` of what `kmalloc` served from a free block leaves the heap as it was, whatever the
      alignment asked for. */
  lemma FreeUndoesAlloc(h: Heap, base: int, limit: int, size: nat, align: nat, commit: bool)
    requires Tiled(h, base, limit)
    ensures Addressable(h)
    ensures var r := Alloc(h, limit, size, align, commit);
            r.Granted? && FirstFit(h.bs, Align4(size), Normalize(align), 0) < |h.bs| ==>
              Live(r.heap, r.block.Payload()) && Free(r.heap, r.block.Payload()) == h
  {
    hide Sound, Packed, Carve, Release, Used, Apart, Ordered, AlignedHeader, Normalize, Align4, Place;
    SoundBounds(h, base, limit);
    var r := Alloc(h, limit, size, align, commit);
    var want, unit := Align4(size), Normalize(align);
    var i := FirstFit(h.bs, want, unit, 0);
    if r.Granted? && i < |h.bs| {
      var at := AlignedHeader(h.bs[i].addr, unit);
      CarveThenRelease(h.bs, i, at, want);
      CarvedIsFound(h, base, limit, i, at, want);
    }
  }

  lemma CarvedIsFound(h: Heap, base: int, limit: int, i: nat, at: int, want: int)
    requires Sound(h, base, limit) && i < |h.bs| && h.bs[i].free && h.bs[i].addr <= at
    ensures var c := Carve(h.bs, i, at, want);
            var k := IndexOf(c, at + 16, 0);
            k == Place(h.bs[i], at, i) && k < |c| && !c[k].free
  {
    hide Carve, Taken;
    CarvePieces(h.bs, i, at, want);
    var c, j := Carve(h.bs, i, at, want), Place(h.bs[i], at, i);
    var mid := Pieces(h.bs[i], at, want);
    assert c[i] == mid[0] && (j > i ==> c[j] == mid[1]);
    SoundBounds(h, base, limit);
    forall k | 0 <= k < j
      ensures c[k].Payload() < at + 16
    {
      if k < i {
        assert c[k] == h.bs[k];
        SegPair(h.bs, base, h.curr, k, i);
      }
    }
  }
}
