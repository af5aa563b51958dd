/** The physical page allocator over its bitmap, a bit per page, eight pages a byte. */
module PmmBitmap {
  import opened Bytes
  import opened PmmPages

  function Mask(k: nat): bv8
    requires k < 8
  {
    if k == 0 then 1 else if k == 1 then 2 else if k == 2 then 4 else if k == 3 then 8
    else if k == 4 then 16 else if k == 5 then 32 else if k == 6 then 64 else 128
  }

  predicate Has(b: bv8, m: bv8) { b & m != 0 }

  function With(b: bv8, m: bv8): bv8 { b | m }

  function Without(b: bv8, m: bv8): bv8 { b & !m }

  predicate Test(b: bv8, k: nat)
    requires k < 8
  {
    Has(b, Mask(k))
  }

  function SetBit(b: bv8, k: nat): bv8
    requires k < 8
  {
    With(b, Mask(k))
  }

  function ClearBit(b: bv8, k: nat): bv8
    requires k < 8
  {
    Without(b, Mask(k))
  }

  lemma SetBitMeans(b: bv8, k: nat, j: nat)
    requires k < 8 && j < 8
    ensures Test(SetBit(b, k), j) <==> j == k || Test(b, j)
  {
    hide Mask, Has, With, Without;
    MasksApart(k, j);
    SetTest(b, Mask(k), Mask(j), j == k);
  }

  lemma ClearBitMeans(b: bv8, k: nat, j: nat)
    requires k < 8 && j < 8
    ensures Test(ClearBit(b, k), j) <==> j != k && Test(b, j)
  {
    hide Mask, Has, With, Without;
    MasksApart(k, j);
    ClearTest(b, Mask(k), Mask(j), j == k);
  }

  lemma MasksApart(k: nat, j: nat)
    requires k < 8 && j < 8
    ensures Has(Mask(k), Mask(j)) <==> k == j
  {
  }

  lemma SetTest(b: bv8, m: bv8, n: bv8, same: bool)
    requires (Has(m, n) <==> same) && (same ==> m == n)
    ensures Has(With(b, m), n) <==> same || Has(b, n)
  {
  }

  lemma ClearTest(b: bv8, m: bv8, n: bv8, same: bool)
    requires (Has(m, n) <==> same) && (same ==> m == n)
    ensures Has(Without(b, m), n) <==> !same && Has(b, n)
  {
  }

  /** The flags a bitmap holds for the first `n` pages. */
  ghost function Flags(bitmap: seq<bv8>, n: nat): (r: seq<bool>)
    requires n <= 8 * |bitmap|
    ensures |r| == n && forall p :: 0 <= p < n ==> r[p] == Test(bitmap[p / 8], p % 8)
  {
    seq(n, p requires 0 <= p < n => Test(bitmap[p / 8], p % 8))
  }

  lemma FlagsSet(bitmap: seq<bv8>, n: nat, p: nat)
    requires p < n <= 8 * |bitmap|
    ensures Flags(bitmap[p / 8 := SetBit(bitmap[p / 8], p % 8)], n) == Flags(bitmap, n)[p := true]
  {
    hide Test, SetBit;
    var b' := bitmap[p / 8 := SetBit(bitmap[p / 8], p % 8)];
    forall q | 0 <= q < n
      ensures Flags(b', n)[q] == Flags(bitmap, n)[p := true][q]
    {
      SetBitMeans(bitmap[p / 8], p % 8, q % 8);
      Digits(p, q);
    }
  }

  lemma FlagsClear(bitmap: seq<bv8>, n: nat, p: nat)
    requires p < n <= 8 * |bitmap|
    ensures Flags(bitmap[p / 8 := ClearBit(bitmap[p / 8], p % 8)], n) == Flags(bitmap, n)[p := false]
  {
    hide Test, ClearBit;
    var b' := bitmap[p / 8 := ClearBit(bitmap[p / 8], p % 8)];
    forall q | 0 <= q < n
      ensures Flags(b', n)[q] == Flags(bitmap, n)[p := false][q]
    {
      ClearBitMeans(bitmap[p / 8], p % 8, q % 8);
      Digits(p, q);
    }
  }

  lemma Digits(p: nat, q: nat)
    ensures p == q <==> p / 8 == q / 8 && p % 8 == q % 8
  {
  }

  class Allocator {
    const bitmap: array<bv8>
    const maxPage: nat
    var freeMemory: int

    ghost predicate Valid()
      reads this
    {
      bitmap.Length == 0x2_0000 && maxPage <= 0x10_0000
    }

    ghost function View(): Pages
      requires Valid()
      reads this, bitmap
    {
      Pages(Flags(bitmap[..], maxPage), freeMemory)
    }

    /** The state the boot-time memory map leaves behind. */
    constructor (bits: seq<bv8>, maxPage: nat, freeMemory: int)
      requires |bits| == 0x2_0000 && maxPage <= 0x10_0000
      ensures Valid() && fresh(bitmap) && View() == Pages(Flags(bits, maxPage), freeMemory)
    {
      bitmap := new bv8[0x2_0000](i requires 0 <= i < |bits| => bits[i]);
      this.maxPage, this.freeMemory := maxPage, freeMemory;
      new;
      assert bitmap[..] == bits;
    }

    /** `mark_used` and `mark_free`: pages beyond the highest one are left alone. */
    method MarkUsed(p: nat)
      requires Valid()
      modifies bitmap
      ensures View() == if p < maxPage then old(View()).(used := old(View()).used[p := true]) else old(View())
    {
      if p < maxPage {
        FlagsSet(bitmap[..], maxPage, p);
        ghost var was := bitmap[..];
        bitmap[p / 8] := SetBit(bitmap[p / 8], p % 8);
        assert bitmap[..] == was[p / 8 := SetBit(was[p / 8], p % 8)];
      }
    }

    method MarkFree(p: nat)
      requires Valid()
      modifies bitmap
      ensures View() == if p < maxPage then old(View()).(used := old(View()).used[p := false]) else old(View())
    {
      if p < maxPage {
        FlagsClear(bitmap[..], maxPage, p);
        ghost var was := bitmap[..];
        bitmap[p / 8] := ClearBit(bitmap[p / 8], p % 8);
        assert bitmap[..] == was[p / 8 := ClearBit(was[p / 8], p % 8)];
      }
    }

    method FindFreePage() returns (p: int)
      requires Valid()
      ensures var low := Lowest(View().used, 0); p == if low == maxPage then -1 else low
    {
      ghost var used := View().used;
      for i := 0 to maxPage
        invariant Lowest(used, 0) == Lowest(used, i)
      {
        if !Test(bitmap[i / 8], i % 8) { return i; }
      }
      return -1;
    }

    /** `pmm_alloc_page`: the address of the lowest free page, or null. While page 0 is in use, as
        start-up leaves it, null never names a page. */
    method AllocPage() returns (addr: int)
      requires Valid()
      modifies `freeMemory, bitmap
      ensures View() == Alloc(old(View())).0
      ensures var p := Alloc(old(View())).1; addr == if p == maxPage then 0 else p * 4096
      ensures maxPage > 0 && old(View()).used[0] ==>
                (addr == 0 <==> forall p :: 0 <= p < maxPage ==> old(View()).used[p])
    {
      var p := FindFreePage();
      if p < 0 { return 0; }
      MarkUsed(p);
      freeMemory := freeMemory - 4096;
      return p * 4096;
    }

    /** `pmm_free_page` */
    method FreePage(addr: nat)
      requires Valid()
      modifies `freeMemory, bitmap
      ensures View() == Free(old(View()), addr / 4096)
    {
      var p := addr / 4096;
      if p >= maxPage { return; }
      if Test(bitmap[p / 8], p % 8) {
        MarkFree(p);
        freeMemory := freeMemory + 4096;
      }
    }

    /** `pmm_reserve_region`: the first page is rounded down, the end up, in 32 bits. */
    method ReserveRegion(start: nat, end: nat)
      requires Valid() && start < TWO32 && end < TWO32
      modifies `freeMemory, bitmap
      ensures View() == Reserve(old(View()), start / 4096, U32(end + 4095) / 4096)
    {
      hide ReserveOne, Flags;
      var s, e := start / 4096, U32(end + 4095) / 4096;
      ghost var was := View();
      var i := s;
      while i < e
        invariant s <= i && (i <= e || i == s)
        invariant View() == Reserve(was, s, i)
      {
        ReservePage(i);
        i := i + 1;
        assert Reserve(was, s, i) == ReserveOne(Reserve(was, s, i - 1), i - 1);
      }
    }

    method ReservePage(p: nat)
      requires Valid()
      modifies `freeMemory, bitmap
      ensures View() == ReserveOne(old(View()), p)
    {
      if p < maxPage {
        if !Test(bitmap[p / 8], p % 8) { freeMemory := freeMemory - 4096; }
        MarkUsed(p);
      }
    }
  }

  /** A region is covered whole, unless it ends in the last page of the address space: then the rounded
      end wraps and nothing is reserved. */
  lemma RegionExact(start: nat, end: nat)
    requires start < end < TWO32
    ensures (forall a :: start <= a < end ==> start / 4096 <= a / 4096 < U32(end + 4095) / 4096) <==>
            end <= 0xFFFF_F000
  {
    if end > 0xFFFF_F000 {
      assert U32(end + 4095) / 4096 == 0;
      assert !(start / 4096 <= start / 4096 < U32(end + 4095) / 4096);
    } else {
      assert U32(end + 4095) == end + 4095;
    }
  }

  /** Reserving one byte of the last page reserves nothing. */
  lemma LastPageNotReserved(s: Pages)
    ensures Reserve(s, 0xFFFF_F000 / 4096, U32(0xFFFF_F001 + 4095) / 4096) == s
  {
    RegionExact(0xFFFF_F000, 0xFFFF_F001);
    assert U32(0xFFFF_F001 + 4095) == 0;
  }
}
