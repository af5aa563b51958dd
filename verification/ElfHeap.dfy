/** The loader on the kernel heap: which images overrun the buffer the heap gives them. */
module ElfHeap {
  import opened Bytes
  import opened Arith
  import opened HeapBlocks
  import opened HeapRuns
  import opened HeapWidth
  import opened ElfReloc
  import opened ElfLoad

  const PAGE := 4096

  /** What the loader's request for `size` bytes gets from the heap as compiled. */
  ghost function GrantFor(h: Heap, limit: int, size: nat, commit: bool): (r: Option<nat>)
    requires Addressable(h)
  {
    var g := AllocWord(h, limit, size, PAGE, commit);
    if g.Denied? then None else Some(if Behind(limit, g) < 0 then 0 else Behind(limit, g))
  }

  /** A whole number of pages gets too few bytes exactly when the request wraps past a test of the heap. */
  lemma ShortExactly(h: Heap, base: int, limit: int, size: nat)
    requires HeapRuns.Sound(h, base, limit) && InRange(h, limit, PAGE) && OnPage(size) && 0 < size < TWO32
    ensures Short(GrantFor(h, limit, size, true), size) <==> !HeapWidth.NoWrap(h, limit, size, PAGE)
  {
    hide Alloc, AllocWord, HeapRuns.Sound, InRange, HeapWidth.NoWrap, Align4;
    WholePages(size);
    RangeAddressable(h, limit, PAGE);
    if HeapWidth.NoWrap(h, limit, size, PAGE) {
      WordIsMeant(h, limit, size, PAGE, true);
      MeantBehind(h, base, limit, size);
    } else {
      WrapIsShort(h, limit, size, PAGE);
    }
  }

  lemma WholePages(size: nat)
    requires OnPage(size) && size < TWO32
    ensures size <= 0xFFFF_FFFC && Align4(size) == size
  {
  }

  lemma MeantBehind(h: Heap, base: int, limit: int, size: nat)
    requires HeapRuns.Sound(h, base, limit) && Addressable(h)
    ensures var r := Alloc(h, limit, size, PAGE, true); r.Granted? ==> Behind(limit, r) >= size
  {
    hide Alloc, HeapRuns.Sound, Used, AlignedTo, Normalize, Ordered;
    AllocMeans(h, base, limit, size, PAGE, true);
    var r := Alloc(h, limit, size, PAGE, true);
    if r.Granted? { UsedBelowLimit(r.heap, base, limit, r.block); }
  }

  /** A load from the heap overruns its buffer exactly when the headers pass the checks and the request for
      the image wraps. */
  lemma LoadOverruns(h: Heap, base: int, limit: int, phs: seq<Phdr>, fileSize: nat, entry: nat, pie: bool, next: nat)
    requires HeapRuns.Sound(h, base, limit) && InRange(h, limit, PAGE)
    ensures Addressable(h)
    ensures Planned(phs, fileSize, entry, pie, next) && Short(GrantFor(h, limit, ImageSize(phs), true), ImageSize(phs))
       <==> Planned(phs, fileSize, entry, pie, next) && !HeapWidth.NoWrap(h, limit, ImageSize(phs), PAGE)
  {
    hide HeapRuns.Sound, InRange, HeapWidth.NoWrap, GrantFor, Short, OnPage, LowOf, HighOf;
    RangeAddressable(h, limit, PAGE);
    SizeOnPage(phs);
    if Planned(phs, fileSize, entry, pie, next) { ShortExactly(h, base, limit, ImageSize(phs)); }
  }

  lemma SizeOnPage(phs: seq<Phdr>)
    ensures OnPage(ImageSize(phs)) && ImageSize(phs) < TWO32
  {
    hide LowOf, HighOf, PageUp, PageDown;
  }

  /** A file of a few bytes whose one segment is to be 0x3F000000 bytes long passes every check, and on a
      fresh default heap its image overruns the buffer. */
  lemma HugeSegmentOverruns(fileSize: nat, next: nat)
    ensures var phs, h := [Phdr(1, 0, 0x0800_0000, 0, 0x3F00_0000)], Heap([], 0xC100_0000);
            && Planned(phs, fileSize, 0x0800_0000, false, next) && ImageSize(phs) == 0x3F00_0000
            && Addressable(h) && Short(GrantFor(h, 0xC500_0000, ImageSize(phs), true), ImageSize(phs))
  {
    hide GrantFor, Short, HeapWidth.NoWrap, InRange, HeapRuns.Sound;
    HugePlanned(fileSize, next);
    HugeWraps();
    var phs, h := [Phdr(1, 0, 0x0800_0000, 0, 0x3F00_0000)], Heap([], 0xC100_0000);
    LoadOverruns(h, 0xC100_0000, 0xC500_0000, phs, fileSize, 0x0800_0000, false, next);
  }

  lemma HugePlanned(fileSize: nat, next: nat)
    ensures var phs := [Phdr(1, 0, 0x0800_0000, 0, 0x3F00_0000)];
            Planned(phs, fileSize, 0x0800_0000, false, next) && ImageSize(phs) == 0x3F00_0000
  {
    var phs := [Phdr(1, 0, 0x0800_0000, 0, 0x3F00_0000)];
    assert LowOf(phs, 0) == 0xFFFF_FFFF && HighOf(phs, 0) == 0;
    assert LowOf(phs, 1) == 0x0800_0000 && HighOf(phs, 1) == 0x4700_0000;
  }

  lemma HugeWraps()
    ensures var h := Heap([], 0xC100_0000);
            && HeapRuns.Sound(h, 0xC100_0000, 0xC500_0000) && InRange(h, 0xC500_0000, PAGE)
            && !HeapWidth.NoWrap(h, 0xC500_0000, 0x3F00_0000, PAGE)
  {
    hide AlignedHeader;
    PageIsPower();
    HeaderAt(0xC100_0000);
  }

  lemma PageIsPower()
    ensures Normalize(PAGE) == PAGE
  {
  }

  lemma HeaderAt(addr: nat)
    requires OnPage(addr)
    ensures AlignedHeader(addr, PAGE) == addr + 4080
  {
  }
}
