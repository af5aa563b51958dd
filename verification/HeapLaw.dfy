/** Which block a request gets, told in addresses: the first free block whose least aligned payload leaves
    room, else the end of the heap, and never 24 bytes more than asked for. */
module HeapLaw {
  import opened Arith
  import opened HeapBlocks
  import opened HeapRuns

  /** `p` is the least multiple of the unit that is not below `x`. */
  ghost predicate LeastAligned(x: int, unit: nat, p: int) {
    if unit == 0 then p == x else p % unit == 0 && x <= p < x + unit
  }

  /** A payload of `want` bytes at `p`, the least aligned one of the block, ends inside the block; in front of
      its header there is nothing, or room for a block of 8 bytes. */
  ghost predicate RoomAt(b: Block, want: int, unit: nat, p: int) {
    LeastAligned(b.addr + 16, unit, p) && p + want <= b.addr + 16 + b.size && (p == b.addr + 16 || p - b.addr >= 40)
  }

  lemma LeastUnique(x: int, unit: nat, p: int, q: int)
    requires LeastAligned(x, unit, p) && LeastAligned(x, unit, q)
    ensures p == q
  {
    if unit > 0 && p != q {
      var lo, hi := if p < q then p else q, if p < q then q else p;
      assert (hi - lo) % unit == 0 by { SubMultiple(hi, lo, unit); }
      assert 0 < hi - lo < unit;
      SmallRem(hi - lo, unit);
    }
  }

  lemma SubMultiple(a: int, b: int, d: nat)
    requires d > 0 && a % d == 0 && b % d == 0
    ensures (a - b) % d == 0
  {
    var x, y := a / d, b / d;
    assert a == x * d && b == y * d;
    assert a - b == (x - y) * d;
    DivUnique(a - b, d, x - y);
  }

  lemma SmallRem(x: nat, d: nat)
    requires x < d
    ensures x % d == x
  {
  }

  lemma HeaderLeast(addr: nat, unit: nat)
    ensures LeastAligned(addr + 16, unit, AlignedHeader(addr, unit) + 16)
  {
  }

  lemma FitIsRoom(b: Block, want: int, unit: nat)
    requires b.addr >= 0
    ensures CanFit(b, want, unit) <==> exists p :: RoomAt(b, want, unit, p)
    ensures forall p :: RoomAt(b, want, unit, p) ==> p == AlignedHeader(b.addr, unit) + 16
  {
    hide AlignedHeader, LeastAligned;
    HeaderLeast(b.addr, unit);
    var q := AlignedHeader(b.addr, unit) + 16;
    forall p | RoomAt(b, want, unit, p)
      ensures p == q
    {
      LeastUnique(b.addr + 16, unit, p, q);
    }
    if CanFit(b, want, unit) { assert RoomAt(b, want, unit, q); }
  }

  /** Some free block among the first `n` has room. */
  ghost predicate Room(h: Heap, n: nat, want: int, unit: nat) {
    exists k, p :: 0 <= k < n && k < |h.bs| && h.bs[k].free && RoomAt(h.bs[k], want, unit, p)
  }

  /** A request of any size but zero is denied if and only if no free block has room and the heap cannot be
      made that long. */
  lemma DeniedExactly(h: Heap, limit: int, size: nat, align: nat, commit: bool)
    requires Addressable(h) && size > 0
    ensures Alloc(h, limit, size, align, commit).Denied? <==>
            && !Room(h, |h.bs|, Align4(size), Normalize(align))
            && (!commit || Beyond(h.curr + 16, Normalize(align), Align4(size), limit))
  {
    hide AlignedHeader, LeastAligned, Normalize, Align4, Carve, Carved, Extend, CanFit, RoomAt, Beyond, Room,
         FirstFit;
    var want, unit := Align4(size), Normalize(align);
    FirstIsRoom(h, want, unit);
    BeyondIs(h.curr, unit, want, limit);
  }

  /** A payload of `want` bytes, at the least aligned address from `x` on, ends behind the limit. */
  ghost predicate Beyond(x: int, unit: nat, want: int, limit: int) {
    exists p :: LeastAligned(x, unit, p) && p + want > limit
  }

  lemma BeyondIs(curr: nat, unit: nat, want: int, limit: int)
    ensures Beyond(curr + 16, unit, want, limit) <==> AlignedHeader(curr, unit) + 16 + want > limit
  {
    hide AlignedHeader, LeastAligned;
    HeaderLeast(curr, unit);
    var x, q := curr + 16, AlignedHeader(curr, unit) + 16;
    forall p | LeastAligned(x, unit, p)
      ensures p == q
    {
      LeastUnique(x, unit, p, q);
    }
  }

  lemma FirstIsRoom(h: Heap, want: int, unit: nat)
    requires Addressable(h)
    ensures var i := FirstFit(h.bs, want, unit, 0);
            && !Room(h, i, want, unit) && (i < |h.bs| <==> Room(h, |h.bs|, want, unit))
            && (i < |h.bs| ==> RoomAt(h.bs[i], want, unit, AlignedHeader(h.bs[i].addr, unit) + 16))
  {
    hide AlignedHeader, RoomAt, CanFit;
    forall k | 0 <= k < |h.bs|
      ensures CanFit(h.bs[k], want, unit) <==> exists p :: RoomAt(h.bs[k], want, unit, p)
      ensures forall p :: RoomAt(h.bs[k], want, unit, p) ==> p == AlignedHeader(h.bs[k].addr, unit) + 16
    {
      FitIsRoom(h.bs[k], want, unit);
    }
  }

  /** What is granted: the least aligned payload of the first free block with room, or of the heap's end when
      there is none. The block is as long as asked for, rounded up to a word, or takes along a rest of less
      than 24 bytes; a longer rest stays free. */
  lemma GrantedMeans(h: Heap, limit: int, size: nat, align: nat, commit: bool)
    requires Addressable(h) && Alloc(h, limit, size, align, commit).Granted?
    ensures var want, unit, r := Align4(size), Normalize(align), Alloc(h, limit, size, align, commit);
            && want <= r.block.size < want + 24 && size <= want < size + 4 && !r.block.free
            && (Room(h, |h.bs|, want, unit) ==>
                  exists k :: 0 <= k < |h.bs| && h.bs[k].free && !Room(h, k, want, unit)
                              && RoomAt(h.bs[k], want, unit, r.block.Payload()) && r.heap.curr == h.curr
                              && (r.block.End() == h.bs[k].End()
                                  || (r.block.size == want && r.block.End() + 24 <= h.bs[k].End())))
            && (!Room(h, |h.bs|, want, unit) ==>
                  && LeastAligned(h.curr + 16, unit, r.block.Payload()) && r.block.size == want
                  && r.block.End() == r.heap.curr <= limit)
  {
    hide AlignedHeader, LeastAligned, Normalize, Align4, Carve, Extend, CanFit, Room, FirstFit;
    var want, unit := Align4(size), Normalize(align);
    FirstIsRoom(h, want, unit);
    HeaderLeast(h.curr, unit);
    var i := FirstFit(h.bs, want, unit, 0);
    if i < |h.bs| { RoomEnds(h.bs[i], want, unit); }
  }

  lemma RoomEnds(b: Block, want: int, unit: nat)
    requires b.addr >= 0 && RoomAt(b, want, unit, AlignedHeader(b.addr, unit) + 16)
    ensures var c := Carved(b, AlignedHeader(b.addr, unit), want);
            && c.Payload() == AlignedHeader(b.addr, unit) + 16 && want <= c.size < want + 24
            && (c.End() == b.End() || (c.size == want && c.End() + 24 <= b.End()))
  {
    hide AlignedHeader, LeastAligned;
  }
}
