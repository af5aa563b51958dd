/** The kernel heap as an address-ordered list of blocks: carving, growing, freeing, and what every
    run of them keeps. The memory that holds the list is in HeapMemory. */
module HeapBlocks {
  import opened Arith

  /** A block header's view of its block: header address, payload size, free flag. A header takes
      16 bytes; a split must leave room for a header and 8 bytes. */
  datatype Block = Block(addr: int, size: int, free: bool) {
    function End(): int { addr + 16 + size }
    function Payload(): int { addr + 16 }
  }

  /** The blocks ascend without overlap inside `[lo, hi)`. */
  ghost predicate Seg(bs: seq<Block>, lo: int, hi: int) {
    if bs == [] then lo <= hi
    else lo <= bs[0].addr && Sane(bs[0]) && Seg(bs[1..], bs[0].End(), hi)
  }

  /** Where the last block ends. */
  function Reach(bs: seq<Block>, lo: int): int { if bs == [] then lo else bs[|bs| - 1].End() }

  /** The whole list: in order, word-aligned, and ending where fresh memory begins. */
  ghost predicate Ordered(bs: seq<Block>, base: int, curr: int) {
    base % 4 == 0 && Seg(bs, base, curr) && Reach(bs, base) == curr
  }

  predicate Sane(b: Block) { b.size > 0 && b.addr % 4 == 0 && b.size % 4 == 0 }

  /** The blocks callers hold. */
  ghost function Used(bs: seq<Block>): set<Block> { set b | b in bs && !b.free }

  // ---------------------------------------------------------------- requests

  /** `ALIGN_UP` for a power of two, 0 meaning none. */
  function AlignUp(x: nat, align: nat): (r: nat)
    ensures x <= r && (align == 0 ==> r == x)
    ensures align > 0 ==> r < x + align && r % align == 0
  {
    if align == 0 then x
    else
      QuotRem(x + align - 1, align);
      var r := (x + align - 1) / align * align;
      MultipleOf((x + align - 1) / align, align);
      r
  }

  lemma MultipleOf(q: nat, d: nat)
    requires d > 0
    ensures q * d % d == 0
  {
    DivUnique(q * d, d, q);
  }

  predicate AlignedTo(p: int, align: nat) { align > 0 ==> p % align == 0 }

  /** Where the header of an aligned payload inside a block starting at `addr` goes. */
  function AlignedHeader(addr: nat, align: nat): (h: int)
    ensures addr <= h && (align == 0 ==> h == addr) && (align > 0 ==> h < addr + align)
    ensures AlignedTo(h + 16, align)
  {
    AlignUp(addr + 16, align) - 16
  }

  /** `block_can_fit` */
  predicate CanFit(b: Block, size: int, align: nat)
    requires b.addr >= 0
  {
    var h := AlignedHeader(b.addr, align);
    h + 16 + size <= b.End() && (h == b.addr || h - b.addr >= 24)
  }

  /** `find_free_block`: index of the first free block that fits, or the length. */
  function FirstFit(bs: seq<Block>, size: int, align: nat, i: nat): (r: nat)
    requires i <= |bs| && forall k :: 0 <= k < |bs| ==> bs[k].addr >= 0
    ensures i <= r <= |bs|
    ensures r < |bs| ==> bs[r].free && CanFit(bs[r], size, align)
    ensures forall k :: i <= k < r ==> !(bs[k].free && CanFit(bs[k], size, align))
    decreases |bs| - i
  {
    if i == |bs| || (bs[i].free && CanFit(bs[i], size, align)) then i else FirstFit(bs, size, align, i + 1)
  }

  // ---------------------------------------------------------------- list surgery

  /** Block `i` cut after `s` payload bytes; the rest becomes a free block behind it. */
  function SplitAt(bs: seq<Block>, i: nat, s: int): (r: seq<Block>)
    requires i < |bs|
  {
    var b := bs[i];
    bs[..i] + [b.(size := s), Block(b.addr + 16 + s, b.size - s - 16, true)] + bs[i + 1..]
  }

  /** Block `i` joined with the block behind it. */
  function JoinAt(bs: seq<Block>, i: nat): (r: seq<Block>)
    requires i + 1 < |bs|
  {
    bs[..i] + [bs[i].(size := bs[i].size + 16 + bs[i + 1].size)] + bs[i + 2..]
  }

  function SetFree(bs: seq<Block>, i: nat, f: bool): (r: seq<Block>)
    requires i < |bs|
  {
    bs[i := bs[i].(free := f)]
  }

  /** `split_block`: cut only where a header and 8 bytes remain. */
  function Trim(bs: seq<Block>, i: nat, size: int): (r: seq<Block>)
    requires i < |bs|
  {
    if bs[i].size - size >= 24 then SplitAt(bs, i, size) else bs
  }

  /** `allocate_from_block`: cut off the front up to an aligned header, cut off the back, mark used. */
  function Carve(bs: seq<Block>, i: nat, h: int, size: int): (r: seq<Block>)
    requires i < |bs|
  {
    if h == bs[i].addr then SetFree(Trim(bs, i, size), i, false)
    else
      var cut := SplitAt(bs, i, h - bs[i].addr - 16);
      SetFree(Trim(cut, i + 1, size), i + 1, false)
  }

  /** `allocate_new_block`, committing aside, with its header at `h`: a gap before it becomes a
      free block, or goes to a free tail, or is lost. */
  function Extend(bs: seq<Block>, curr: int, h: int, size: int): (r: seq<Block>) {
    var gap := h - curr;
    var newest := Block(h, size, false);
    if gap >= 24 then bs + [Block(curr, gap - 16, true)] + [newest]
    else if gap > 0 && bs != [] && bs[|bs| - 1].free && bs[|bs| - 1].End() == curr
    then GrowLast(bs, gap) + [newest]
    else bs + [newest]
  }

  function GrowLast(bs: seq<Block>, gap: int): (r: seq<Block>)
    requires bs != []
    ensures |r| == |bs|
  {
    bs[|bs| - 1 := bs[|bs| - 1].(size := bs[|bs| - 1].size + gap)]
  }

  /** `kfree` of block `i`: mark free, join with a free neighbour behind, then with one in front. */
  function Release(bs: seq<Block>, i: nat): (r: seq<Block>)
    requires i < |bs|
  {
    JoinFront(JoinBack(SetFree(bs, i, true), i), i)
  }

  function JoinBack(bs: seq<Block>, i: nat): (r: seq<Block>)
    requires i < |bs|
    ensures i < |r|
  {
    if i + 1 < |bs| && bs[i + 1].free && bs[i].End() == bs[i + 1].addr then JoinAt(bs, i) else bs
  }

  function JoinFront(bs: seq<Block>, i: nat): (r: seq<Block>)
    requires i < |bs|
  {
    if i > 0 && bs[i - 1].free && bs[i - 1].End() == bs[i].addr then JoinAt(bs, i - 1) else bs
  }

  // ---------------------------------------------------------------- segments

  lemma {:induction false} SegConcat(a: seq<Block>, b: seq<Block>, lo: int, hi: int)
    ensures Seg(a + b, lo, hi) <==> Seg(a, lo, Reach(a, lo)) && Seg(b, Reach(a, lo), hi)
    decreases |a|
  {
    if a == [] {
      assert a + b == b;
    } else {
      assert (a + b)[1..] == a[1..] + b;
      SegConcat(a[1..], b, a[0].End(), hi);
      assert Reach(a[1..], a[0].End()) == Reach(a, lo);
    }
  }

  lemma {:induction false} SegAt(bs: seq<Block>, lo: int, hi: int, i: nat)
    requires Seg(bs, lo, hi) && i < |bs|
    ensures Sane(bs[i]) && lo <= bs[i].addr && bs[i].End() <= hi
    decreases |bs|
  {
    SegSpan(bs[1..], bs[0].End(), hi);
    if i > 0 { SegAt(bs[1..], bs[0].End(), hi, i - 1); }
  }

  lemma {:induction false} SegSpan(bs: seq<Block>, lo: int, hi: int)
    requires Seg(bs, lo, hi)
    ensures lo <= Reach(bs, lo) <= hi
    decreases |bs|
  {
    if bs != [] {
      SegSpan(bs[1..], bs[0].End(), hi);
      assert Reach(bs[1..], bs[0].End()) == Reach(bs, lo);
    }
  }

  /** Two blocks of a list never overlap. */
  lemma {:induction false} SegPair(bs: seq<Block>, lo: int, hi: int, i: nat, j: nat)
    requires Seg(bs, lo, hi) && i < j < |bs|
    ensures bs[i].End() <= bs[j].addr
    decreases |bs|
  {
    if i == 0 { SegAt(bs[1..], bs[0].End(), hi, j - 1); } else { SegPair(bs[1..], bs[0].End(), hi, i - 1, j - 1); }
  }

  /** Replacing the middle of a list by blocks spanning the same stretch. */
  lemma Replaced(a: seq<Block>, old_: seq<Block>, new_: seq<Block>, c: seq<Block>, lo: int, hi: int)
    requires Seg(a + old_ + c, lo, hi) && old_ != [] && new_ != []
    requires forall at :: Seg(old_, at, Reach(old_, at)) ==> Seg(new_, at, Reach(new_, at))
    requires Reach(new_, 0) == Reach(old_, 0)
    ensures Seg(a + new_ + c, lo, hi)
    ensures Reach(a + new_ + c, lo) == Reach(a + old_ + c, lo)
  {
    SegConcat(a + old_, c, lo, hi);
    SegConcat(a, old_, lo, Reach(a + old_, lo));
    SegConcat(a, new_, lo, Reach(a + new_, lo));
    SegConcat(a + new_, c, lo, hi);
    assert Reach(a + old_, lo) == Reach(old_, 0) == Reach(a + new_, lo);
    assert Reach(old_, Reach(a, lo)) == Reach(old_, 0) && Reach(new_, Reach(a, lo)) == Reach(new_, 0);
  }

  // ---------------------------------------------------------------- what each cut keeps

  lemma SplitOrdered(bs: seq<Block>, base: int, curr: int, i: nat, s: int)
    requires Ordered(bs, base, curr) && i < |bs| && 0 < s && s % 4 == 0 && s + 16 < bs[i].size
    ensures Ordered(SplitAt(bs, i, s), base, curr)
  {
    var b := bs[i];
    SegAt(bs, base, curr, i);
    var pieces := [b.(size := s), Block(b.addr + 16 + s, b.size - s - 16, true)];
    assert bs == bs[..i] + [b] + bs[i + 1..];
    hide Seg;
    forall at | Seg([b], at, Reach([b], at))
      ensures Seg(pieces, at, Reach(pieces, at))
    {
      CutSeg(b, s, at);
    }
    Replaced(bs[..i], [b], pieces, bs[i + 1..], base, curr);
  }

  lemma JoinedSeg(x: Block, y: Block, at: int)
    requires Seg([x, y], at, Reach([x, y], at)) && x.End() == y.addr
    ensures var joined := [x.(size := x.size + 16 + y.size)]; Seg(joined, at, Reach(joined, at))
  {
    assert [x, y][1..] == [y];
  }

  lemma CutSeg(b: Block, s: int, at: int)
    requires Seg([b], at, Reach([b], at)) && 0 < s && s % 4 == 0 && s + 16 < b.size
    ensures var pieces := [b.(size := s), Block(b.addr + 16 + s, b.size - s - 16, true)];
            Seg(pieces, at, Reach(pieces, at))
  {
    var pieces := [b.(size := s), Block(b.addr + 16 + s, b.size - s - 16, true)];
    assert pieces[1..] == [pieces[1]];
  }

  lemma JoinOrdered(bs: seq<Block>, base: int, curr: int, i: nat)
    requires Ordered(bs, base, curr) && i + 1 < |bs| && bs[i].End() == bs[i + 1].addr
    ensures Ordered(JoinAt(bs, i), base, curr)
  {
    var x, y := bs[i], bs[i + 1];
    SegAt(bs, base, curr, i);
    SegAt(bs, base, curr, i + 1);
    var joined := [x.(size := x.size + 16 + y.size)];
    assert bs == bs[..i] + [x, y] + bs[i + 2..];
    hide Seg;
    forall at | Seg([x, y], at, Reach([x, y], at))
      ensures Seg(joined, at, Reach(joined, at))
    {
      JoinedSeg(x, y, at);
    }
    Replaced(bs[..i], [x, y], joined, bs[i + 2..], base, curr);
  }

  lemma SetFreeOrdered(bs: seq<Block>, base: int, curr: int, i: nat, f: bool)
    requires Ordered(bs, base, curr) && i < |bs|
    ensures Ordered(SetFree(bs, i, f), base, curr)
  {
    var b := bs[i];
    assert bs == bs[..i] + [b] + bs[i + 1..];
    assert SetFree(bs, i, f) == bs[..i] + [b.(free := f)] + bs[i + 1..];
    forall at | Seg([b], at, Reach([b], at))
      ensures Seg([b.(free := f)], at, Reach([b.(free := f)], at))
    {
    }
    Replaced(bs[..i], [b], [b.(free := f)], bs[i + 1..], base, curr);
  }

  lemma MultipleOfMultiple(p: nat, align: nat)
    requires align > 0 && p % align == 0 && align % 4 == 0
    ensures p % 4 == 0
  {
    var q, k := p / align, align / 4;
    QuotRem(p, align);
    MulAssoc(q, k);
    assert p == q * k * 4;
  }

  lemma MulAssoc(q: int, k: int)
    ensures q * (k * 4) == q * k * 4
  {
  }

  lemma HeaderWordAligned(addr: nat, align: nat)
    requires addr % 4 == 0 && (align > 0 ==> align % 4 == 0)
    ensures AlignedHeader(addr, align) % 4 == 0
  {
    hide AlignedHeader;
    if align > 0 { MultipleOfMultiple(AlignedHeader(addr, align) + 16, align); }
  }

  lemma ReachAligned(bs: seq<Block>, base: int, curr: int)
    requires Ordered(bs, base, curr)
    ensures curr % 4 == 0 && base <= curr
  {
    SegSpan(bs, base, curr);
    if bs != [] { SegAt(bs, base, curr, |bs| - 1); }
  }

  lemma AppendOrdered(bs: seq<Block>, base: int, curr: int, b: Block)
    requires Ordered(bs, base, curr) && Sane(b) && curr <= b.addr
    ensures Ordered(bs + [b], base, b.End())
  {
    SegSpan(bs, base, curr);
    SegConcat(bs, [b], base, b.End());
  }

  lemma ExtendOrdered(bs: seq<Block>, base: int, curr: int, h: int, size: int)
    requires Ordered(bs, base, curr) && size > 0 && size % 4 == 0 && curr <= h && h % 4 == 0
    ensures Ordered(Extend(bs, curr, h, size), base, h + 16 + size)
  {
    hide Ordered;
    ReachAligned(bs, base, curr);
    var gap, newest := h - curr, Block(h, size, false);
    if gap >= 24 {
      var filler := Block(curr, gap - 16, true);
      AppendOrdered(bs, base, curr, filler);
      AppendOrdered(bs + [filler], base, h, newest);
    } else if gap > 0 && bs != [] && bs[|bs| - 1].free && bs[|bs| - 1].End() == curr {
      GrownTail(bs, base, curr, gap);
      AppendOrdered(GrowLast(bs, gap), base, h, newest);
    } else {
      AppendOrdered(bs, base, curr, newest);
    }
  }

  lemma GrownTail(bs: seq<Block>, base: int, curr: int, gap: int)
    requires Ordered(bs, base, curr) && bs != [] && gap > 0 && gap % 4 == 0
    ensures Ordered(GrowLast(bs, gap), base, curr + gap)
  {
    var n := |bs| - 1;
    var big := bs[n].(size := bs[n].size + gap);
    assert bs == bs[..n] + [bs[n]] && bs[n := big] == bs[..n] + [big];
    SegConcat(bs[..n], [bs[n]], base, curr);
    SegConcat(bs[..n], [big], base, curr + gap);
  }

  // ---------------------------------------------------------------- who holds what

  lemma UsedConcat(a: seq<Block>, b: seq<Block>)
    ensures Used(a + b) == Used(a) + Used(b)
  {
  }

  lemma UsedAround(bs: seq<Block>, i: nat, n: nat)
    requires i + n <= |bs|
    ensures Used(bs) == Used(bs[..i]) + Used(bs[i..i + n]) + Used(bs[i + n..])
  {
    assert bs == bs[..i] + bs[i..i + n] + bs[i + n..];
    UsedConcat(bs[..i] + bs[i..i + n], bs[i + n..]);
    UsedConcat(bs[..i], bs[i..i + n]);
  }

  /** Swapping a stretch of the list changes the blocks held by that stretch alone. */
  lemma UsedReplaced(a: seq<Block>, mid: seq<Block>, c: seq<Block>)
    ensures Used(a + mid + c) == Used(a) + Used(mid) + Used(c)
  {
    UsedConcat(a + mid, c);
    UsedConcat(a, mid);
  }

  lemma SplitUsed(bs: seq<Block>, i: nat, s: int)
    requires i < |bs| && bs[i].free
    ensures Used(SplitAt(bs, i, s)) == Used(bs)
  {
    UsedAround(bs, i, 1);
    var b := bs[i];
    UsedReplaced(bs[..i], [b.(size := s), Block(b.addr + 16 + s, b.size - s - 16, true)], bs[i + 1..]);
  }

  lemma JoinUsed(bs: seq<Block>, i: nat)
    requires i + 1 < |bs| && bs[i].free && bs[i + 1].free
    ensures Used(JoinAt(bs, i)) == Used(bs)
  {
    UsedAround(bs, i, 2);
    UsedReplaced(bs[..i], [bs[i].(size := bs[i].size + 16 + bs[i + 1].size)], bs[i + 2..]);
  }

  lemma TakeUsed(bs: seq<Block>, i: nat)
    requires i < |bs| && bs[i].free
    ensures Used(SetFree(bs, i, false)) == Used(bs) + {bs[i].(free := false)}
  {
    UsedAround(bs, i, 1);
    assert SetFree(bs, i, false) == bs[..i] + [bs[i].(free := false)] + bs[i + 1..];
    UsedReplaced(bs[..i], [bs[i].(free := false)], bs[i + 1..]);
  }

  lemma GiveUsed(bs: seq<Block>, base: int, curr: int, i: nat)
    requires Ordered(bs, base, curr) && i < |bs| && !bs[i].free
    ensures Used(SetFree(bs, i, true)) == Used(bs) - {bs[i]}
  {
    forall j | 0 <= j < |bs| && j != i
      ensures bs[j] != bs[i]
    {
      if j < i { SegPair(bs, base, curr, j, i); } else { SegPair(bs, base, curr, i, j); }
      SegAt(bs, base, curr, i);
      SegAt(bs, base, curr, j);
    }
    UsedAround(bs, i, 1);
    assert bs[i] !in bs[..i] && bs[i] !in bs[i + 1..];
    assert SetFree(bs, i, true) == bs[..i] + [bs[i].(free := true)] + bs[i + 1..];
    UsedReplaced(bs[..i], [bs[i].(free := true)], bs[i + 1..]);
    assert Used([bs[i]]) == {bs[i]} && bs[i..i + 1] == [bs[i]];
  }

  // ---------------------------------------------------------------- whole operations

  /** The block `allocate_from_block` hands out. */
  function Carved(b: Block, h: int, size: int): (r: Block) {
    var whole := b.End() - h - 16;
    Block(h, if whole - size >= 24 then size else whole, false)
  }

  lemma CarveKeeps(bs: seq<Block>, base: int, curr: int, i: nat, h: int, size: int)
    requires Ordered(bs, base, curr) && i < |bs| && bs[i].free && size > 0 && size % 4 == 0 && h % 4 == 0
    requires bs[i].addr <= h && h + 16 + size <= bs[i].End() && (h == bs[i].addr || h - bs[i].addr >= 24)
    ensures Ordered(Carve(bs, i, h, size), base, curr)
    ensures Used(Carve(bs, i, h, size)) == Used(bs) + {Carved(bs[i], h, size)}
  {
    hide Ordered, Used;
    SaneAt(bs, base, curr, i);
    if h == bs[i].addr {
      TrimKeeps(bs, base, curr, i, size);
    } else {
      var s := h - bs[i].addr - 16;
      SplitOrdered(bs, base, curr, i, s);
      SplitUsed(bs, i, s);
      var cut := SplitAt(bs, i, s);
      assert cut[i + 1] == Block(h, bs[i].size - s - 16, true);
      TrimKeeps(cut, base, curr, i + 1, size);
    }
  }

  lemma SaneAt(bs: seq<Block>, base: int, curr: int, i: nat)
    requires Ordered(bs, base, curr) && i < |bs|
    ensures Sane(bs[i]) && base <= bs[i].addr && bs[i].End() <= curr
  {
    SegAt(bs, base, curr, i);
  }

  lemma TrimKeeps(bs: seq<Block>, base: int, curr: int, i: nat, size: int)
    requires Ordered(bs, base, curr) && i < |bs| && bs[i].free && 0 < size <= bs[i].size && size % 4 == 0
    ensures Ordered(SetFree(Trim(bs, i, size), i, false), base, curr)
    ensures Used(SetFree(Trim(bs, i, size), i, false)) == Used(bs) + {Carved(bs[i], bs[i].addr, size)}
  {
    hide Ordered, Used;
    if bs[i].size - size >= 24 {
      SplitOrdered(bs, base, curr, i, size);
      SplitUsed(bs, i, size);
    }
    var t := Trim(bs, i, size);
    SetFreeOrdered(t, base, curr, i, false);
    TakeUsed(t, i);
  }

  lemma ExtendUsed(bs: seq<Block>, curr: int, h: int, size: int)
    ensures Used(Extend(bs, curr, h, size)) == Used(bs) + {Block(h, size, false)}
  {
    var newest := Block(h, size, false);
    UsedConcat(bs, [newest]);
    UsedConcat(bs, [Block(curr, h - curr - 16, true)]);
    UsedConcat(bs + [Block(curr, h - curr - 16, true)], [newest]);
    if bs != [] && bs[|bs| - 1].free {
      GrowLastUsed(bs, h - curr);
      UsedConcat(GrowLast(bs, h - curr), [newest]);
    }
  }

  lemma GrowLastUsed(bs: seq<Block>, gap: int)
    requires bs != [] && bs[|bs| - 1].free
    ensures Used(GrowLast(bs, gap)) == Used(bs)
  {
    var n := |bs| - 1;
    assert bs == bs[..n] + [bs[n]] && GrowLast(bs, gap) == bs[..n] + [GrowLast(bs, gap)[n]];
    UsedConcat(bs[..n], [bs[n]]);
    UsedConcat(bs[..n], [GrowLast(bs, gap)[n]]);
  }

  /** Freeing a held block takes exactly it out of the blocks held. */
  lemma ReleaseKeeps(bs: seq<Block>, base: int, curr: int, i: nat)
    requires Ordered(bs, base, curr) && i < |bs| && !bs[i].free
    ensures Ordered(Release(bs, i), base, curr)
    ensures Used(Release(bs, i)) == Used(bs) - {bs[i]}
  {
    hide Ordered, Used;
    SetFreeOrdered(bs, base, curr, i, true);
    GiveUsed(bs, base, curr, i);
    var m := SetFree(bs, i, true);
    if i + 1 < |m| && m[i + 1].free && m[i].End() == m[i + 1].addr {
      JoinOrdered(m, base, curr, i);
      JoinUsed(m, i);
    }
    var n := JoinBack(m, i);
    if i > 0 && n[i - 1].free && n[i - 1].End() == n[i].addr {
      JoinOrdered(n, base, curr, i - 1);
      JoinUsed(n, i - 1);
    }
  }
}
