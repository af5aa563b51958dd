/** The kernel heap in memory: block headers linked in place, pages committed on demand. Each
    routine is proved to do to the words of memory what HeapRuns says of the block list, and to
    leave every held payload alone. */
module HeapMemory {
  import opened Bytes
  import opened HeapBlocks
  import opened HeapRuns
  import opened HeapWidth
  import opened HeapWords

  /** The globals of the heap: list ends, first unused address, end of committed pages. */
  datatype Globals = Globals(base: int, limit: int, commitEnd: int, head: int, tail: int)

  predicate OnPage(x: int) { x % 4096 == 0 }

  lemma NextPage(x: int, y: int)
    requires OnPage(x) && OnPage(y) && x < y
    ensures OnPage(x + 4096) && x + 4096 <= y
  {
  }

  /** Memory and globals hold the heap `h`. */
  ghost predicate Image(m: Memory, g: Globals, h: Heap) {
    && 0 < g.base && OnPage(g.base) && OnPage(g.commitEnd) && h.curr <= g.commitEnd
    && Sound(h, g.base, g.limit)
    && Linked(m, h.bs) && Mapped(m, g.base, g.commitEnd)
    && g.head == At(h.bs, 0) && g.tail == At(h.bs, |h.bs| - 1)
  }

  // ---------------------------------------------------------------- reading an image

  lemma ImageNode(m: Memory, g: Globals, h: Heap, i: nat)
    requires Image(m, g, h) && i < |h.bs|
    ensures var b := h.bs[i];
            && b.addr > 0 && b.addr % 4 == 0 && b.size > 0 && b.size % 4 == 0 && b.End() <= h.curr
            && b.addr in m && b.addr + 4 in m && b.addr + 8 in m && b.addr + 12 in m
            && m[b.addr] == b.size && m[b.addr + 4] == At(h.bs, i + 1) && m[b.addr + 8] == At(h.bs, i - 1)
            && m[b.addr + 12] == Flag(b.free)
            && (g.tail == b.addr <==> i == |h.bs| - 1)
  {
    hide Linked, Mapped, Ordered;
    NodeOf(m, h.bs, i);
    Lower(h.bs, g.base, h.curr, i);
    SaneAt(h.bs, g.base, h.curr, i);
    if i < |h.bs| - 1 { Gap(h.bs, g.base, h.curr, i, |h.bs| - 1); }
  }

  lemma ImageRoom(m: Memory, g: Globals, h: Heap, x: int)
    requires Image(m, g, h) && g.base <= x && x + 16 <= g.commitEnd && x % 4 == 0
    ensures x in m && x + 4 in m && x + 8 in m && x + 12 in m
  {
    hide Linked, Sound;
  }

  lemma MappedMore(m: Memory, m': Memory, lo: int, hi: int)
    requires Mapped(m, lo, hi) && m.Keys <= m'.Keys
    ensures Mapped(m', lo, hi)
  {
  }

  // ---------------------------------------------------------------- what each update keeps

  lemma SplitEnds(bs: seq<Block>, i: nat, s: int)
    requires i < |bs|
    ensures At(SplitAt(bs, i, s), 0) == At(bs, 0)
    ensures var r := SplitAt(bs, i, s);
            At(r, |r| - 1) == if i == |bs| - 1 then bs[i].addr + 16 + s else At(bs, |bs| - 1)
  {
  }

  lemma SplitImage(m: Memory, g: Globals, h: Heap, i: nat, s: int)
    requires Image(m, g, h) && i < |h.bs| && h.bs[i].free && 0 < s && s % 4 == 0 && s + 16 < h.bs[i].size
    ensures var a, x := h.bs[i].addr, h.bs[i].addr + 16 + s;
            var m' := SplitWords(m, a, x, s, h.bs[i].size - s - 16, At(h.bs, i + 1));
            && Image(m', g.(tail := if g.tail == a then x else g.tail), h.(bs := SplitAt(h.bs, i, s)))
            && Spared(m, m', Used(h.bs)) && Used(SplitAt(h.bs, i, s)) == Used(h.bs)
  {
    hide Linked, Mapped, Ordered, Spared, Used, SplitAt;
    ImageNode(m, g, h, i);
    SplitEnds(h.bs, i, s);
    SplitLinks(m, h.bs, g.base, h.curr, i, s);
    SplitSpares(m, h.bs, g.base, h.curr, i, s);
    SplitOrdered(h.bs, g.base, h.curr, i, s);
    SplitUsed(h.bs, i, s);
    var b := h.bs[i];
    MappedMore(m, SplitWords(m, b.addr, b.addr + 16 + s, s, b.size - s - 16, At(h.bs, i + 1)), g.base, g.commitEnd);
  }

  lemma JoinEnds(bs: seq<Block>, i: nat)
    requires i + 1 < |bs|
    ensures At(JoinAt(bs, i), 0) == At(bs, 0)
    ensures var r := JoinAt(bs, i);
            At(r, |r| - 1) == if i + 1 == |bs| - 1 then bs[i].addr else At(bs, |bs| - 1)
  {
  }

  lemma JoinImage(m: Memory, g: Globals, h: Heap, i: nat)
    requires Image(m, g, h) && i + 1 < |h.bs| && h.bs[i].free && h.bs[i + 1].free && h.bs[i].End() == h.bs[i + 1].addr
    ensures var a, y := h.bs[i].addr, h.bs[i + 1].addr;
            var m' := JoinWords(m, a, h.bs[i].size + 16 + h.bs[i + 1].size, At(h.bs, i + 2));
            && Image(m', g.(tail := if g.tail == y then a else g.tail), h.(bs := JoinAt(h.bs, i)))
            && Spared(m, m', Used(h.bs)) && Used(JoinAt(h.bs, i)) == Used(h.bs)
  {
    hide Linked, Mapped, Ordered, Spared, Used, JoinAt;
    ImageNode(m, g, h, i + 1);
    JoinEnds(h.bs, i);
    var total := h.bs[i].size + 16 + h.bs[i + 1].size;
    JoinLinks(m, h.bs, g.base, h.curr, i);
    JoinSpares(m, h.bs, g.base, h.curr, i, total);
    JoinOrdered(h.bs, g.base, h.curr, i);
    JoinUsed(h.bs, i);
    MappedMore(m, JoinWords(m, h.bs[i].addr, total, At(h.bs, i + 2)), g.base, g.commitEnd);
  }

  lemma FlagImage(m: Memory, g: Globals, h: Heap, i: nat, f: bool)
    requires Image(m, g, h) && i < |h.bs|
    ensures var m' := m[h.bs[i].addr + 12 := Flag(f)];
            Image(m', g, h.(bs := SetFree(h.bs, i, f))) && Spared(m, m', Used(h.bs))
  {
    hide Linked, Mapped, Ordered, Spared, Used;
    FlagLinks(m, h.bs, g.base, h.curr, i, f);
    SetFreeOrdered(h.bs, g.base, h.curr, i, f);
    MappedMore(m, m[h.bs[i].addr + 12 := Flag(f)], g.base, g.commitEnd);
  }

  lemma AppendImage(m: Memory, g: Globals, h: Heap, b: Block)
    requires Image(m, g, h) && Sane(b) && h.curr <= b.addr && b.End() <= g.commitEnd && b.End() <= g.limit
    ensures var m' := AppendWords(m, b.addr, b.size, Flag(b.free), g.tail);
            && Image(m', g.(head := if g.tail == 0 then b.addr else g.head, tail := b.addr), Heap(h.bs + [b], b.End()))
            && Spared(m, m', Used(h.bs)) && (g.tail == 0 <==> h.bs == [])
  {
    hide Linked, Mapped, Ordered, Spared, Used, AppendWords;
    AppendLinks(m, h.bs, g.base, h.curr, b);
    AppendOrdered(h.bs, g.base, h.curr, b);
    if h.bs != [] { Lower(h.bs, g.base, h.curr, |h.bs| - 1); }
    AppendEnds(h.bs, b);
    AppendKeys(m, b.addr, b.size, Flag(b.free), g.tail);
    MappedMore(m, AppendWords(m, b.addr, b.size, Flag(b.free), g.tail), g.base, g.commitEnd);
  }

  lemma AppendKeys(m: Memory, a: int, size: int, f: int, t: int)
    ensures m.Keys <= AppendWords(m, a, size, f, t).Keys
  {
  }

  lemma AppendEnds(bs: seq<Block>, b: Block)
    ensures At(bs + [b], 0) == (if bs == [] then b.addr else At(bs, 0)) && At(bs + [b], |bs + [b]| - 1) == b.addr
  {
  }

  lemma GrowImage(m: Memory, g: Globals, h: Heap, gap: int)
    requires Image(m, g, h) && h.bs != [] && gap > 0 && gap % 4 == 0
    requires h.curr + gap <= g.commitEnd && h.curr + gap <= g.limit
    ensures var t := h.bs[|h.bs| - 1];
            var m' := m[t.addr := t.size + gap];
            Image(m', g, Heap(GrowLast(h.bs, gap), h.curr + gap)) && Spared(m, m', Used(h.bs))
  {
    hide Linked, Mapped, Ordered, Spared, Used;
    GrowLinks(m, h.bs, g.base, h.curr, gap);
    GrownTail(h.bs, g.base, h.curr, gap);
    MappedMore(m, m[h.bs[|h.bs| - 1].addr := h.bs[|h.bs| - 1].size + gap], g.base, g.commitEnd);
  }

  // ---------------------------------------------------------------- committing pages

  /** Memory below `top` is as before. */
  ghost predicate SameBelow(m: Memory, m': Memory, top: int) {
    forall a :: a in m && a < top ==> a in m' && m'[a] == m[a]
  }

  lemma CommitImage(m: Memory, m': Memory, g: Globals, h: Heap, end: int)
    requires Image(m, g, h) && SameBelow(m, m', g.commitEnd) && g.commitEnd <= end && OnPage(end)
    requires Mapped(m', g.base, end)
    ensures Image(m', g.(commitEnd := end), h) && Spared(m, m', Used(h.bs))
  {
    hide Mapped, Ordered, Used, Linked;
    forall k | 0 <= k < |h.bs|
      ensures Node(m', h.bs, k)
    {
      NodeOf(m, h.bs, k);
      Lower(h.bs, g.base, h.curr, k);
    }
    AllLinked(m', h.bs);
    SparedBelow(m, m', g, h);
  }

  lemma SparedBelow(m: Memory, m': Memory, g: Globals, h: Heap)
    requires Image(m, g, h) && SameBelow(m, m', g.commitEnd)
    ensures Spared(m, m', Used(h.bs))
  {
    hide Mapped, Ordered, Used, Linked, Clear;
    forall w | w in m && !Clear(Used(h.bs), w)
      ensures w in m' && m'[w] == m[w]
    {
      if w >= g.commitEnd { BeyondClear(h.bs, g.base, h.curr, w); }
    }
  }

  /** `PAGE_ALIGN_UP` */
  function PageUp(x: int): (r: int)
    ensures x <= r < x + 4096 && OnPage(r)
  {
    (x + 4095) / 4096 * 4096
  }

  /** Where the heap begins: the default address, or the given one rounded up to a page. */
  function Start(start: nat): (r: int)
    ensures OnPage(r) && r > 0
  {
    if start == 0 then 0xC100_0000 else PageUp(start)
  }

  lemma EmptyImage(m: Memory, g: Globals, h: Heap)
    requires h == Heap([], g.base) && 0 < g.base && OnPage(g.base) && g.base == g.commitEnd
    requires g.head == 0 && g.tail == 0
    ensures Image(m, g, h)
  {
  }

  class KernelHeap {
    const base: int
    const limit: int
    var mem: Memory
    var head: int
    var tail: int
    var curr: int
    var commitEnd: int
    ghost var blocks: seq<Block>

    ghost function View(): Heap
      reads this
    {
      Heap(blocks, curr)
    }

    ghost function Roots(): Globals
      reads this
    {
      Globals(base, limit, commitEnd, head, tail)
    }

    ghost predicate Valid()
      reads this
    {
      Image(mem, Roots(), View())
    }

    /** `kmalloc_init`: an empty heap, zero arguments standing for the defaults. The first page may
        fail to map; later requests then map it. */
    constructor (start: nat, end: nat)
      ensures Valid() && View() == Heap([], base) && Addressable(View())
      ensures base == Start(start)
      ensures limit == if end == 0 then U32(base + 0x400_0000) else end
    {
      hide Image, Start, OnPage;
      var first := Start(start);
      base, limit := first, if end == 0 then U32(first + 0x400_0000) else end;
      mem, head, tail, curr, commitEnd, blocks := map[], 0, 0, first, first, [];
      new;
      EmptyImage(mem, Roots(), View());
      var ok := CommitTo(base + 1);
    }

    /** A word written to mapped memory. */
    method Store(a: int, v: int)
      requires a in mem
      modifies `mem
      ensures mem == old(mem)[a := v]
    {
      mem := mem[a := v];
    }

    method StoreSplit(block: int, x: int, s: int, rest: int, n: int)
      requires x in mem && x + 4 in mem && x + 8 in mem && x + 12 in mem && block in mem && block + 4 in mem
      requires n != 0 ==> n + 8 in mem
      modifies `mem
      ensures mem == SplitWords(old(mem), block, x, s, rest, n)
    {
      Store(x, rest);
      Store(x + 12, 1);
      Store(x + 8, block);
      Store(x + 4, n);
      if n != 0 { Store(n + 8, x); }
      Store(block + 4, x);
      Store(block, s);
    }

    /** The pointer work of a split: a header at `x` for what lies behind the first `s` bytes. */
    method Splice(block: int, x: int, s: int, ghost i: nat)
      requires Valid() && i < |blocks| && blocks[i].free && block == blocks[i].addr
      requires 0 < s && s % 4 == 0 && s + 16 < blocks[i].size && x == block + 16 + s
      modifies `mem, `tail, `blocks
      ensures Valid() && blocks == SplitAt(old(blocks), i, s)
      ensures Used(blocks) == Used(old(blocks)) && Spared(old(mem), mem, Used(old(blocks)))
    {
      hide Image, Spared, Used, SplitAt, SplitWords;
      ghost var m, g, h := mem, Roots(), View();
      ImageNode(m, g, h, i);
      ImageBounds(m, g, h);
      ImageRoom(m, g, h, x);
      if i + 1 < |h.bs| { ImageNode(m, g, h, i + 1); }
      var rest, n := mem[block] - s - 16, mem[block + 4];
      StoreSplit(block, x, s, rest, n);
      if tail == block { tail := x; }
      blocks := SplitAt(h.bs, i, s);
      SplitImage(m, g, h, i, s);
    }

    /** `split_block` */
    method SplitBlock(block: int, size: int, ghost i: nat)
      requires Valid() && i < |blocks| && blocks[i].free && block == blocks[i].addr && 0 < size && size % 4 == 0
      modifies `mem, `tail, `blocks
      ensures Valid() && blocks == Trim(old(blocks), i, size)
      ensures Used(blocks) == Used(old(blocks)) && Spared(old(mem), mem, Used(old(blocks)))
    {
      hide Image, Spared, Used, SplitAt;
      SparedSelf(mem, Used(blocks));
      ImageNode(mem, Roots(), View(), i);
      if mem[block] <= size { return; }
      var remaining := mem[block] - size;
      if remaining < 24 { return; }
      Splice(block, block + 16 + size, size, i);
    }

    method SetFlag(block: int, f: bool, ghost i: nat)
      requires Valid() && i < |blocks| && block == blocks[i].addr
      modifies `mem, `blocks
      ensures Valid() && blocks == SetFree(old(blocks), i, f)
      ensures Spared(old(mem), mem, Used(old(blocks)))
    {
      hide Image, Spared, Used, SetFree;
      ImageNode(mem, Roots(), View(), i);
      FlagImage(mem, Roots(), View(), i, f);
      Store(block + 12, if f then 1 else 0);
      blocks := SetFree(blocks, i, f);
    }

    /** `allocate_from_block` */
    method AllocateFromBlock(block: int, header: int, size: int, ghost i: nat) returns (p: int)
      requires Valid() && i < |blocks| && blocks[i].free && block == blocks[i].addr
      requires header % 4 == 0 && (header == block || header - block >= 24) && 0 < size && size % 4 == 0
      requires header + 16 + size <= blocks[i].End()
      modifies `mem, `tail, `blocks
      ensures Valid() && blocks == Carve(old(blocks), i, header, size) && p == header + 16
      ensures Spared(old(mem), mem, Used(old(blocks)))
    {
      hide Image, Spared, Used, SplitAt, SetFree, Trim;
      ghost var m, bs, k := mem, blocks, i;
      ImageNode(mem, Roots(), View(), i);
      SparedSelf(mem, Used(blocks));
      var node := block;
      if header != block {
        Splice(block, header, header - block - 16, i);
        CutSecond(bs, i, header - block - 16);
        node, k := header, i + 1;
      }
      ghost var m1 := mem;
      TrimNode(blocks, k, size);
      SplitBlock(node, size, k);
      SparedThen(m, m1, mem, Used(bs), Used(bs));
      ghost var m2 := mem;
      SetFlag(node, false, k);
      SparedThen(m, m2, mem, Used(bs), Used(bs));
      return node + 16;
    }

    /** A page from `vmm_map_page_alloc`, which may have none; what the page holds is unknown. */
    method MapPage(at: int) returns (ok: bool)
      modifies `mem
      ensures SameBelow(old(mem), mem, at) && old(mem).Keys <= mem.Keys
      ensures ok ==> Mapped(mem, at, at + 4096)
    {
      if * { return false; }
      var content: int -> int := *;
      mem := mem + map a | at <= a < at + 4096 && a % 4 == 0 :: content(a);
      return true;
    }

    /** `heap_commit_to` */
    method CommitTo(need: int) returns (ok: bool)
      requires Valid()
      modifies `mem, `commitEnd
      ensures Valid() && Spared(old(mem), mem, Used(blocks))
      ensures ok ==> need <= commitEnd
    {
      hide Image, Spared, Used, SameBelow, Mapped, PageUp, OnPage;
      var top := PageUp(need);
      ghost var m, g := mem, Roots();
      SparedSelf(mem, Used(blocks));
      if top <= commitEnd { return true; }
      var at := commitEnd;
      CommitStart(m, g, View());
      while at < top
        invariant Roots() == g && View() == old(View()) && OnPage(at) && commitEnd <= at <= top
        invariant SameBelow(m, mem, commitEnd) && Mapped(mem, base, at)
      {
        ghost var was := mem;
        ok := MapPage(at);
        CommitStep(m, was, mem, g, at, ok);
        if !ok {
          MappedLess(mem, base, commitEnd, at);
          CommitImage(m, mem, g, View(), commitEnd);
          return false;
        }
        NextPage(at, top);
        at := at + 4096;
      }
      CommitImage(m, mem, g, View(), top);
      commitEnd := top;
      return true;
    }

    method StoreNode(a: int, size: int, f: int, t: int)
      requires a in mem && a + 4 in mem && a + 8 in mem && a + 12 in mem && (t != 0 ==> t + 4 in mem)
      modifies `mem
      ensures mem == AppendWords(old(mem), a, size, f, t)
    {
      Store(a, size);
      Store(a + 12, f);
      Store(a + 8, t);
      Store(a + 4, 0);
      if t != 0 { Store(t + 4, a); }
    }

    /** A block put behind the tail; `h` is the heap the words hold so far. */
    method AppendNode(a: int, size: int, f: bool, ghost h: Heap)
      requires Image(mem, Roots(), h) && h.curr <= a && a % 4 == 0 && size > 0 && size % 4 == 0
      requires a + 16 + size <= commitEnd && a + 16 + size <= limit
      modifies `mem, `head, `tail
      ensures Image(mem, Roots(), Heap(h.bs + [Block(a, size, f)], a + 16 + size)) && tail == a
      ensures Spared(old(mem), mem, Used(h.bs))
    {
      hide Image, Spared, Used, AppendWords;
      ghost var m, g, b := mem, Roots(), Block(a, size, f);
      ImageStart(m, g, h);
      ImageRoom(m, g, h, a);
      if h.bs != [] { ImageNode(m, g, h, |h.bs| - 1); }
      ImageTail(m, g, h);
      StoreNode(a, size, if f then 1 else 0, tail);
      if tail == 0 { head := a; }
      tail := a;
      AppendImage(m, g, h, b);
    }

    /** `allocate_new_block` */
    method AllocateNewBlock(size: int, align: nat) returns (p: int, ghost committed: bool)
      requires Valid() && size > 0 && size % 4 == 0 && (align > 0 ==> align % 4 == 0) && curr >= 0
      modifies this
      ensures Valid() && Spared(old(mem), mem, Used(old(blocks)))
      ensures var at := AlignedHeader(old(curr), align);
              if at + 16 + size > limit || !committed then p == 0 && View() == old(View())
              else p == at + 16 && View() == Heap(Extend(old(blocks), old(curr), at, size), at + 16 + size)
    {
      hide Image, Spared, Used, AlignedHeader, GrowLast;
      ghost var m, h := mem, View();
      SparedSelf(m, Used(h.bs));
      committed := false;
      var header := AlignedHeader(curr, align);
      var end := header + 16 + size;
      if end > limit { return 0, false; }
      var ok := CommitTo(end);
      if !ok { return 0, false; }
      ImageStart(mem, Roots(), h);
      HeaderWordAligned(curr, align);
      ghost var m1 := mem;
      ghost var g := FillGap(header, h);
      SparedThen(m, m1, mem, Used(h.bs), Used(h.bs));
      ghost var m2 := mem;
      AppendNode(header, size, false, g);
      SparedThen(m, m2, mem, Used(g.bs), Used(h.bs));
      blocks := g.bs + [Block(header, size, false)];
      curr := end;
      return header + 16, true;
    }

    /** The gap in front of a new block: a block of its own, part of a free tail, or lost. */
    method FillGap(header: int, ghost h: Heap) returns (ghost g: Heap)
      requires Image(mem, Roots(), h) && curr == h.curr <= header && header % 4 == 0
      requires header + 16 <= commitEnd && header + 16 <= limit
      modifies `mem, `head, `tail
      ensures Image(mem, Roots(), g) && g.curr <= header && Used(g.bs) == Used(h.bs)
      ensures forall size :: g.bs + [Block(header, size, false)] == Extend(h.bs, h.curr, header, size)
      ensures Spared(old(mem), mem, Used(h.bs))
    {
      hide Image, Spared, Used;
      g := h;
      SparedSelf(mem, Used(h.bs));
      ImageStart(mem, Roots(), h);
      ImageTail(mem, Roots(), h);
      if header > curr {
        var gap := header - curr;
        if h.bs != [] { ImageNode(mem, Roots(), h, |h.bs| - 1); }
        if gap >= 24 {
          AppendNode(curr, gap - 16, true, h);
          g := Heap(h.bs + [Block(h.curr, gap - 16, true)], header);
          FreeAppended(h.bs, Block(h.curr, gap - 16, true));
        } else if tail != 0 && mem[tail + 12] == 1 && tail + 16 + mem[tail] == curr {
          GrowImage(mem, Roots(), h, gap);
          GrowLastUsed(h.bs, gap);
          Store(tail, mem[tail] + gap);
          g := Heap(GrowLast(h.bs, gap), header);
        }
      }
    }

    /** `find_free_block` with `block_can_fit`: the first free block with room, and where its header
        goes. */
    method FindFreeBlock(size: int, align: nat) returns (block: int, header: int, ghost i: nat)
      requires Valid() && Addressable(View())
      ensures i == FirstFit(blocks, size, align, 0) && block == At(blocks, i)
      ensures block != 0 <==> i < |blocks|
      ensures i < |blocks| ==> header == AlignedHeader(blocks[i].addr, align)
    {
      hide Image, AlignedHeader;
      ImageEnds(mem, Roots(), View());
      block, i, header := head, 0, 0;
      while block != 0
        invariant i <= |blocks| && block == At(blocks, i) && (block != 0 <==> i < |blocks|)
        invariant FirstFit(blocks, size, align, 0) == FirstFit(blocks, size, align, i)
        decreases |blocks| - i
      {
        ImageNode(mem, Roots(), View(), i);
        if mem[block + 12] != 0 {
          header := AlignedHeader(block, align);
          var end := block + 16 + mem[block];
          if header + 16 + size <= end && (header == block || header - block >= 24) { return; }
        }
        block, i := mem[block + 4], i + 1;
        ImagePointer(mem, Roots(), View(), i);
      }
    }

    /** `kmalloc_internal`, and `kmalloc_aligned` with it: a null pointer exactly when the request is
        denied, in which case nothing changed. Sums are exact here; for modest requests of a heap
        below 0xF0000000 the 32-bit request is this one. */
    method KmallocAligned(size: nat, align: nat) returns (p: int, ghost committed: bool)
      requires Valid() && Addressable(View())
      modifies this
      ensures Valid() && Spared(old(mem), mem, Used(old(blocks)))
      ensures match Alloc(old(View()), limit, size, align, committed)
              case Denied => p == 0 && View() == old(View())
              case Granted(h, b) => p == b.Payload() && View() == h
      ensures Low(old(View()), limit) && Modest(size, align) ==>
              AllocWord(old(View()), limit, size, align, committed) == Alloc(old(View()), limit, size, align, committed)
    {
      hide Image, Spared, Used, AlignedHeader, Normalize, FirstFit, CanFit, Carve, Extend, Align4,
           AllocWord, Low, Modest;
      ImageModest(mem, Roots(), View(), size, align);
      SparedSelf(mem, Used(blocks));
      committed := true;
      if size == 0 { return 0, true; }
      var want := Align4(size);
      var unit := NormalizeAlign(align);
      NormalizeMeans(align);
      var block, header;
      ghost var i;
      block, header, i := FindFreeBlock(want, unit);
      if block != 0 {
        ghost var bs := blocks;
        ImageNode(mem, Roots(), View(), i);
        HeaderWordAligned(bs[i].addr, unit);
        FitMeans(bs[i], want, unit);
        p := AllocateFromBlock(block, header, want, i);
        return p, true;
      }
      p, committed := AllocateNewBlock(want, unit);
    }

    /** `kmalloc`: page-aligned or not aligned. The physical address it can report is left out. */
    method Kmalloc(size: nat, pageAligned: bool) returns (p: int, ghost committed: bool)
      requires Valid() && Addressable(View())
      modifies this
      ensures Valid() && Spared(old(mem), mem, Used(old(blocks)))
      ensures match Alloc(old(View()), limit, size, if pageAligned then 4096 else 0, committed)
              case Denied => p == 0 && View() == old(View())
              case Granted(h, b) => p == b.Payload() && View() == h
      ensures var align := if pageAligned then 4096 else 0;
              Low(old(View()), limit) && size <= 0x400_0000 ==>
              AllocWord(old(View()), limit, size, align, committed) == Alloc(old(View()), limit, size, align, committed)
    {
      hide Image, Spared, Used, Alloc, AllocWord;
      p, committed := KmallocAligned(size, if pageAligned then 4096 else 0);
    }

    method StoreJoin(a: int, total: int, n: int)
      requires a in mem && a + 4 in mem && (n != 0 ==> n + 8 in mem)
      modifies `mem
      ensures mem == JoinWords(old(mem), a, total, n)
    {
      Store(a, total);
      Store(a + 4, n);
      if n != 0 { Store(n + 8, a); }
    }

    /** Block `a` takes in the free block `y` right behind it. */
    method Absorb(a: int, y: int, ghost i: nat)
      requires Valid() && i + 1 < |blocks| && a == blocks[i].addr && y == blocks[i + 1].addr
      requires blocks[i].free && blocks[i + 1].free && blocks[i].End() == y
      modifies `mem, `tail, `blocks
      ensures Valid() && blocks == JoinAt(old(blocks), i)
      ensures Used(blocks) == Used(old(blocks)) && Spared(old(mem), mem, Used(old(blocks)))
    {
      hide Image, Spared, Used, JoinAt, JoinWords;
      ghost var m, g, h := mem, Roots(), View();
      ImageNode(m, g, h, i);
      ImageNode(m, g, h, i + 1);
      if i + 2 < |h.bs| { ImageNode(m, g, h, i + 2); }
      StoreJoin(a, mem[a] + 16 + mem[y], mem[y + 4]);
      if tail == y { tail := a; }
      blocks := JoinAt(h.bs, i);
      JoinImage(m, g, h, i);
    }

    /** `kfree`: the block is marked free and joined with free neighbours it touches. */
    method Kfree(p: int)
      requires Valid() && (p != 0 ==> Live(View(), p))
      modifies this
      ensures Valid()
      ensures View() == if p == 0 then old(View()) else Free(old(View()), p)
      ensures Spared(old(mem), mem, Used(blocks))
    {
      hide Image, Spared, Used, SetFree, JoinAt;
      SparedSelf(mem, Used(blocks));
      if p == 0 { return; }
      ghost var m, bs, i := mem, blocks, IndexOf(blocks, p, 0);
      ImageGive(mem, Roots(), View(), i);
      FlagSet(bs, i, true);
      var block := p - 16;
      SetFlag(block, true, i);
      ghost var m1 := mem;
      JoinBehind(block, i);
      SparedThen(m, m1, mem, Used(bs), Used(blocks));
      ghost var m2 := mem;
      JoinAhead(block, i);
      SparedThen(m, m2, mem, Used(blocks), Used(blocks));
    }

    method JoinBehind(block: int, ghost i: nat)
      requires Valid() && i < |blocks| && block == blocks[i].addr && blocks[i].free
      modifies `mem, `tail, `blocks
      ensures Valid() && blocks == JoinBack(old(blocks), i) && blocks[i].free && blocks[i].addr == block
      ensures Used(blocks) == Used(old(blocks)) && Spared(old(mem), mem, Used(old(blocks)))
    {
      hide Image, Spared, Used;
      SparedSelf(mem, Used(blocks));
      ImageNode(mem, Roots(), View(), i);
      ImagePointer(mem, Roots(), View(), i + 1);
      var next := mem[block + 4];
      if next != 0 {
        ImageNode(mem, Roots(), View(), i + 1);
        if mem[next + 12] != 0 && block + 16 + mem[block] == next { Absorb(block, next, i); }
      }
    }

    method JoinAhead(block: int, ghost i: nat)
      requires Valid() && i < |blocks| && block == blocks[i].addr && blocks[i].free
      modifies `mem, `tail, `blocks
      ensures Valid() && blocks == JoinFront(old(blocks), i)
      ensures Used(blocks) == Used(old(blocks)) && Spared(old(mem), mem, Used(old(blocks)))
    {
      hide Image, Spared, Used;
      SparedSelf(mem, Used(blocks));
      ImageNode(mem, Roots(), View(), i);
      var prev := mem[block + 8];
      if prev != 0 {
        ImageNode(mem, Roots(), View(), i - 1);
        if mem[prev + 12] != 0 && prev + 16 + mem[prev] == block { Absorb(prev, block, i - 1); }
      } else if i > 0 {
        ImageNode(mem, Roots(), View(), i - 1);
      }
    }
  }

  /** `normalize_align`, its test for a power of two taken as a whole. */
  method NormalizeAlign(align: nat) returns (r: nat)
    ensures r == Normalize(align)
  {
    if align < 2 { return 0; }
    r := align;
    if !PowerOfTwo(align) {
      var p := 1;
      while p < align
        invariant p > 0 && DoubledTo(1, align) == DoubledTo(p, align)
      {
        p := 2 * p;
      }
      r := p;
    } else {
      DoubledFixed(1, align);
    }
    if r < 4 { r := 4; }
  }

  lemma FitMeans(b: Block, size: int, align: nat)
    requires b.addr >= 0 && CanFit(b, size, align)
    ensures var h := AlignedHeader(b.addr, align);
            h + 16 + size <= b.End() && (h == b.addr || h - b.addr >= 24)
  {
  }

  lemma ImageGive(m: Memory, g: Globals, h: Heap, i: nat)
    requires Image(m, g, h) && i < |h.bs| && !h.bs[i].free
    ensures Used(SetFree(h.bs, i, true)) == Used(h.bs) - {h.bs[i]}
  {
    hide Linked, Mapped, Ordered, Used, SetFree;
    GiveUsed(h.bs, g.base, h.curr, i);
  }

  lemma FlagSet(bs: seq<Block>, i: nat, f: bool)
    requires i < |bs|
    ensures |SetFree(bs, i, f)| == |bs| && SetFree(bs, i, f)[i] == bs[i].(free := f)
  {
  }

  lemma ImageModest(m: Memory, g: Globals, h: Heap, size: nat, align: nat)
    requires Image(m, g, h) && Addressable(h)
    ensures Low(h, g.limit) && Modest(size, align) ==>
            forall commit :: AllocWord(h, g.limit, size, align, commit) == Alloc(h, g.limit, size, align, commit)
  {
    hide Linked, Mapped, Sound, Alloc, AllocWord, Low, Modest;
    if Low(h, g.limit) && Modest(size, align) {
      forall commit {
        ModestIsMeant(h, g.base, g.limit, size, align, commit);
      }
    }
  }

  lemma ImageStart(m: Memory, g: Globals, h: Heap)
    requires Image(m, g, h)
    ensures g.base <= h.curr && h.curr % 4 == 0 && h.curr <= g.commitEnd && 0 < g.base
  {
    hide Linked, Mapped;
    SoundBounds(h, g.base, g.limit);
  }

  lemma ImageTail(m: Memory, g: Globals, h: Heap)
    requires Image(m, g, h)
    ensures g.tail == At(h.bs, |h.bs| - 1) && (g.tail == 0 <==> h.bs == [])
  {
    hide Linked, Mapped, Ordered;
    if h.bs != [] { Lower(h.bs, g.base, h.curr, |h.bs| - 1); }
  }

  lemma ImageEnds(m: Memory, g: Globals, h: Heap)
    requires Image(m, g, h)
    ensures g.head == At(h.bs, 0) && (g.head != 0 <==> h.bs != [])
  {
    hide Linked, Mapped, Ordered;
    if h.bs != [] { Lower(h.bs, g.base, h.curr, 0); }
  }

  lemma ImagePointer(m: Memory, g: Globals, h: Heap, i: nat)
    requires Image(m, g, h)
    ensures At(h.bs, i) != 0 <==> i < |h.bs|
  {
    hide Linked, Mapped, Ordered;
    if i < |h.bs| { Lower(h.bs, g.base, h.curr, i); }
  }

  lemma FreeAppended(bs: seq<Block>, b: Block)
    requires b.free
    ensures Used(bs + [b]) == Used(bs)
  {
  }

  lemma SparedSelf(m: Memory, held: set<Block>)
    ensures Spared(m, m, held)
  {
  }

  lemma CutSecond(bs: seq<Block>, i: nat, s: int)
    requires i < |bs|
    ensures var r := SplitAt(bs, i, s);
            i + 1 < |r| && r[i + 1] == Block(bs[i].addr + 16 + s, bs[i].size - s - 16, true)
  {
  }

  lemma TrimNode(bs: seq<Block>, i: nat, size: int)
    requires i < |bs|
    ensures i < |Trim(bs, i, size)| && Trim(bs, i, size)[i].addr == bs[i].addr
  {
  }

  lemma CommitStart(m: Memory, g: Globals, h: Heap)
    requires Image(m, g, h)
    ensures SameBelow(m, m, g.commitEnd) && Mapped(m, g.base, g.commitEnd) && OnPage(g.commitEnd)
  {
    hide Linked, Sound;
  }

  lemma CommitStep(m: Memory, was: Memory, m': Memory, g: Globals, at: int, ok: bool)
    requires SameBelow(m, was, g.commitEnd) && g.commitEnd <= at && Mapped(was, g.base, at)
    requires SameBelow(was, m', at) && was.Keys <= m'.Keys && (ok ==> Mapped(m', at, at + 4096))
    ensures SameBelow(m, m', g.commitEnd) && Mapped(m', g.base, at)
    ensures ok ==> Mapped(m', g.base, at + 4096)
  {
  }

  lemma MappedLess(m: Memory, lo: int, mid: int, hi: int)
    requires Mapped(m, lo, hi) && mid <= hi
    ensures Mapped(m, lo, mid)
  {
  }

  lemma ImageBounds(m: Memory, g: Globals, h: Heap)
    requires Image(m, g, h)
    ensures 0 < g.base && h.curr <= g.commitEnd && forall i :: 0 <= i < |h.bs| ==> g.base <= h.bs[i].addr
  {
    hide Linked, Mapped;
    SoundBounds(h, g.base, g.limit);
  }
}
