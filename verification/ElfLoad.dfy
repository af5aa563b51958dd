/** Laying out and loading an ELF image: segment bounds, the base allocator for position-independent
    images, and the bytes that end up in memory. */
module ElfLoad {
  import opened Bytes
  import opened ElfReloc
  import opened ElfImage

  /** The fields of a program header the loader uses, each a 32-bit word. */
  datatype Phdr = Phdr(kind: nat, offset: nat, vaddr: nat, filesz: nat, memsz: nat) {
    predicate Word() { kind < TWO32 && offset < TWO32 && vaddr < TWO32 && filesz < TWO32 && memsz < TWO32 }

    predicate Loadable() { kind == 1 && memsz != 0 }

    /** The checks on one segment, in 32-bit arithmetic. */
    predicate Checked(size: nat) {
      filesz <= memsz && offset <= size && U32(offset + filesz) <= size && U32(vaddr + memsz) >= vaddr
    }
  }

  /** The checks of one segment let pass, besides segments whose bytes lie in the file, those whose end in the
      file wraps to an offset inside it. */
  lemma CheckedExactly(ph: Phdr, size: nat)
    requires ph.Word() && size < TWO32
    ensures ph.Checked(size) <==>
            && ph.filesz <= ph.memsz && ph.vaddr + ph.memsz < TWO32
            && (ph.offset + ph.filesz <= size
                || (ph.offset <= size && TWO32 <= ph.offset + ph.filesz <= TWO32 + size))
  {
  }

  // ---------------------------------------------------------------- pages

  predicate OnPage(x: int) { x % 4096 == 0 }

  /** `align_down` and `align_up` to a page in 32-bit arithmetic. */
  function PageDown(x: nat): (r: nat)
    ensures r <= x < r + 4096 && OnPage(r)
  {
    x / 4096 * 4096
  }

  function PageUp(x: nat): (r: nat)
    requires x < TWO32
    ensures OnPage(r) && r < TWO32
    ensures if x <= 0xFFFF_F000 then x <= r < x + 4096 else r == 0
  {
    U32(x + 4095) / 4096 * 4096
  }

  // ---------------------------------------------------------------- segment bounds

  ghost predicate AllChecked(phs: seq<Phdr>, size: nat) {
    forall i :: 0 <= i < |phs| && phs[i].Loadable() ==> phs[i].Checked(size)
  }

  /** `lo` and `hi` bound the loadable segments tightly. */
  ghost predicate Bounds(phs: seq<Phdr>, n: nat, lo: nat, hi: nat)
    requires n <= |phs|
  {
    && (forall i :: 0 <= i < n && phs[i].Loadable() ==> lo <= phs[i].vaddr && phs[i].vaddr + phs[i].memsz <= hi < TWO32)
    && ((lo == 0xFFFF_FFFF && hi == 0) ||
        (exists i, j :: 0 <= i < n && 0 <= j < n && phs[i].Loadable() && phs[j].Loadable()
                        && phs[i].vaddr == lo && phs[j].vaddr + phs[j].memsz == hi))
  }

  /** The lowest address and the highest end among the first `n` headers' loadable segments. */
  ghost function LowOf(phs: seq<Phdr>, n: nat): nat
    requires n <= |phs|
  {
    if n == 0 then 0xFFFF_FFFF
    else if phs[n - 1].Loadable() && phs[n - 1].vaddr < LowOf(phs, n - 1) then phs[n - 1].vaddr
    else LowOf(phs, n - 1)
  }

  ghost function HighOf(phs: seq<Phdr>, n: nat): nat
    requires n <= |phs|
  {
    if n == 0 then 0
    else if phs[n - 1].Loadable() && U32(phs[n - 1].vaddr + phs[n - 1].memsz) > HighOf(phs, n - 1)
    then U32(phs[n - 1].vaddr + phs[n - 1].memsz)
    else HighOf(phs, n - 1)
  }

  /** The bounds after `k` headers, with the segments `a` and `b` that set them, if any. */
  ghost predicate Tight(phs: seq<Phdr>, k: nat, lo: nat, hi: nat, a: int, b: int) {
    && k <= |phs| && -1 <= a < k && -1 <= b < k && (a < 0 <==> b < 0)
    && (forall i :: 0 <= i < k && phs[i].Loadable() ==>
          lo <= phs[i].vaddr && phs[i].vaddr + phs[i].memsz <= hi < TWO32)
    && (if a < 0 then lo == 0xFFFF_FFFF && hi == 0
        else phs[a].Loadable() && phs[b].Loadable() && phs[a].vaddr == lo && phs[b].vaddr + phs[b].memsz == hi)
  }

  lemma TightStep(phs: seq<Phdr>, k: nat, lo: nat, hi: nat, a: int, b: int)
    requires Tight(phs, k, lo, hi, a, b) && k < |phs| && phs[k].Word()
    requires phs[k].Loadable() ==> U32(phs[k].vaddr + phs[k].memsz) >= phs[k].vaddr
    ensures if phs[k].Loadable() then
              var end := U32(phs[k].vaddr + phs[k].memsz);
              Tight(phs, k + 1, if phs[k].vaddr < lo then phs[k].vaddr else lo, if end > hi then end else hi,
                    if phs[k].vaddr < lo then k else a, if end > hi then k else b)
            else Tight(phs, k + 1, lo, hi, a, b)
  {
    if phs[k].Loadable() { NoWrap(phs[k]); }
  }

  lemma TightEnd(phs: seq<Phdr>, lo: nat, hi: nat, a: int, b: int)
    requires Tight(phs, |phs|, lo, hi, a, b)
    ensures Bounds(phs, |phs|, lo, hi)
  {
  }

  /** The first loop over the program headers. */
  method FindBounds(phs: seq<Phdr>, size: nat) returns (ok: bool, lo: nat, hi: nat)
    requires forall i :: 0 <= i < |phs| ==> phs[i].Word()
    ensures ok <==> AllChecked(phs, size)
    ensures ok ==> Bounds(phs, |phs|, lo, hi) && lo == LowOf(phs, |phs|) && hi == HighOf(phs, |phs|)
  {
    hide Tight, Bounds, U32;
    lo, hi := 0xFFFF_FFFF, 0;
    ghost var a, b := -1, -1;
    assert Tight(phs, 0, lo, hi, a, b) by { TightStart(phs); }
    for k := 0 to |phs|
      invariant forall i :: 0 <= i < k && phs[i].Loadable() ==> phs[i].Checked(size)
      invariant lo == LowOf(phs, k) && hi == HighOf(phs, k) && Tight(phs, k, lo, hi, a, b)
    {
      var ph := phs[k];
      if ph.Loadable() && !ph.Checked(size) { return false, 0, 0; }
      TightStep(phs, k, lo, hi, a, b);
      if ph.Loadable() {
        if ph.vaddr < lo { lo := ph.vaddr; a := k; }
        if U32(ph.vaddr + ph.memsz) > hi { hi := U32(ph.vaddr + ph.memsz); b := k; }
      }
    }
    TightEnd(phs, lo, hi, a, b);
    return true, lo, hi;
  }

  lemma TightStart(phs: seq<Phdr>)
    ensures Tight(phs, 0, 0xFFFF_FFFF, 0, -1, -1)
  {
  }

  lemma NoWrap(ph: Phdr)
    requires ph.Word() && ph.Loadable() && U32(ph.vaddr + ph.memsz) >= ph.vaddr
    ensures U32(ph.vaddr + ph.memsz) == ph.vaddr + ph.memsz && ph.vaddr < 0xFFFF_FFFF
  {
  }

  // ---------------------------------------------------------------- the base allocator

  /** `choose_pie_base` on the next free address: a base and the new next address, or none. */
  function ChooseBase(next: nat, size: nat, least: nat): (r: Option<(nat, nat)>)
    requires next < TWO32 && least < TWO32
    ensures r.Some? ==> r.value.1 < TWO32
  {
    var base := PageUp(if next < least then least else next);
    if base + size > 0xC000_0000 then None
    else Some((base, PageUp(U32(U32(base + size) + 4096))))
  }

  /** A range of addresses given to an image. */
  datatype Range = Range(base: nat, size: nat)

  /** The allocator's state after giving out `rs`: ascending ranges in the user window, a page free
      between neighbours and before the next address. */
  ghost predicate Apart(rs: seq<Range>, next: nat) {
    && OnPage(next) && 0x0800_0000 <= next <= 0xC000_1000
    && (forall i :: 0 <= i < |rs| ==> InWindow(rs[i]) && rs[i].base + rs[i].size + 4096 <= next)
    && (forall i, j :: 0 <= i < j < |rs| ==> rs[i].base + rs[i].size + 4096 <= rs[j].base)
  }

  ghost predicate InWindow(r: Range) {
    OnPage(r.base) && OnPage(r.size) && 0x0800_0000 <= r.base && r.base + r.size <= 0xC000_0000
  }

  lemma ChooseKeeps(rs: seq<Range>, next: nat, size: nat, least: nat)
    requires Apart(rs, next) && OnPage(size) && OnPage(least) && 0x0800_0000 <= least < TWO32
    ensures var r := ChooseBase(next, size, least);
            r.Some? ==> Apart(rs + [Range(r.value.0, size)], r.value.1) && r.value.0 >= least
  {
    hide OnPage, PageUp;
    var r := ChooseBase(next, size, least);
    LastPage(least);
    if r.Some? {
      var base := r.value.0;
      PageAligned(if next < least then least else next);
      PageSum(base, size);
      PageSum(base + size, 4096);
      PagePage();
      PageAligned(base + size + 4096);
      U32Small(base + size);
      U32Small(base + size + 4096);
    }
  }

  /** Which base an image gets: the next free address or the least one allowed, whichever is higher; it is
      refused if and only if it would end above the window. The next image starts a page behind it. */
  lemma ChooseExactly(next: nat, size: nat, least: nat)
    requires OnPage(next) && OnPage(size) && OnPage(least) && next < TWO32 && least < TWO32
    ensures var base, r := if next < least then least else next, ChooseBase(next, size, least);
            && (r.None? <==> base + size > 0xC000_0000)
            && (r.Some? ==> r.value == (base, base + size + 4096))
  {
    hide OnPage, PageUp;
    var base := if next < least then least else next;
    PageAligned(base);
    if base + size <= 0xC000_0000 {
      PagePage();
      PageSum(base, size);
      PageSum(base + size, 4096);
      U32Small(base + size);
      U32Small(base + size + 4096);
      PageAligned(base + size + 4096);
    }
  }

  lemma LastPage(x: nat)
    requires OnPage(x) && x < TWO32
    ensures x <= 0xFFFF_F000
  {
  }

  lemma PagePage()
    ensures OnPage(4096)
  {
  }

  lemma PageAligned(x: nat)
    requires OnPage(x) && x < TWO32
    ensures PageUp(x) == x
  {
  }

  lemma PageSum(x: int, y: int)
    requires OnPage(x) && OnPage(y)
    ensures OnPage(x + y)
  {
  }

  lemma U32Small(x: int)
    requires 0 <= x < TWO32
    ensures U32(x) == x
  {
  }

  /** A request for a base: image size and least address, both whole pages. */
  datatype Request = Request(size: nat, least: nat)

  ghost predicate Wellformed(q: Request) { OnPage(q.size) && OnPage(q.least) && 0x0800_0000 <= q.least < TWO32 }

  /** The ranges given out by a run of loads; refused loads get none. */
  ghost function Assigned(qs: seq<Request>, next: nat): (r: (seq<Range>, nat))
    requires next < TWO32 && forall i :: 0 <= i < |qs| ==> Wellformed(qs[i])
    ensures r.1 < TWO32
    decreases |qs|
  {
    if qs == [] then ([], next)
    else
      var n := |qs| - 1;
      assert Wellformed(qs[n]);
      var (rs, at) := Assigned(qs[..n], next);
      match ChooseBase(at, qs[n].size, qs[n].least)
      case None => (rs, at)
      case Some((base, after)) => (rs + [Range(base, qs[n].size)], after)
  }

  /** Over every run of loads the ranges given out are page-aligned, in the user window, and pairwise
      apart by at least a page. */
  lemma {:induction false} RunsApart(qs: seq<Request>)
    requires forall i :: 0 <= i < |qs| ==> Wellformed(qs[i])
    ensures var (rs, next) := Assigned(qs, 0x0800_0000); Apart(rs, next)
    decreases |qs|
  {
    if qs != [] {
      hide ChooseBase, Apart;
      var n := |qs| - 1;
      RunsApart(qs[..n]);
      var (rs, at) := Assigned(qs[..n], 0x0800_0000);
      ChooseKeeps(rs, at, qs[n].size, qs[n].least);
    }
  }

  // ---------------------------------------------------------------- the bytes

  /** Segment `ph` lies in an image of `size` bytes linked at `base`, its bytes in the file. */
  ghost predicate Placed(ph: Phdr, fileSize: nat, base: nat, size: nat) {
    ph.Loadable() ==>
      && base <= ph.vaddr && ph.vaddr - base + ph.memsz <= size
      && ph.filesz <= ph.memsz && ph.offset + ph.filesz <= fileSize
  }

  ghost predicate AllPlaced(phs: seq<Phdr>, fileSize: nat, base: nat, size: nat) {
    forall i :: 0 <= i < |phs| ==> Placed(phs[i], fileSize, base, size)
  }

  /** The image after the first `n` headers were copied over zeros. */
  ghost function Composed(file: seq<byte>, phs: seq<Phdr>, base: nat, size: nat, n: nat): (r: seq<byte>)
    requires n <= |phs| && AllPlaced(phs, |file|, base, size)
    ensures |r| == size
  {
    if n == 0 then Fill(size, 0)
    else
      var before, ph := Composed(file, phs, base, size, n - 1), phs[n - 1];
      if ph.Loadable() then Splice(before, ph.vaddr - base, file[ph.offset..ph.offset + ph.filesz]) else before
  }

  /** Segment `i` shares no address with another loadable segment. */
  ghost predicate Alone(phs: seq<Phdr>, i: nat)
    requires i < |phs|
  {
    forall j :: 0 <= j < |phs| && j != i && phs[j].Loadable() ==>
      phs[j].vaddr + phs[j].memsz <= phs[i].vaddr || phs[i].vaddr + phs[i].memsz <= phs[j].vaddr
  }

  /** A segment that overlaps no other appears as its file bytes followed by zeros. */
  lemma {:induction false} SegmentAppears(file: seq<byte>, phs: seq<Phdr>, base: nat, size: nat, n: nat, i: nat, k: nat)
    requires n <= |phs| && AllPlaced(phs, |file|, base, size)
    requires i < |phs| && phs[i].Loadable() && Alone(phs, i) && k < phs[i].memsz
    ensures Placed(phs[i], |file|, base, size)
    ensures Composed(file, phs, base, size, n)[phs[i].vaddr - base + k]
         == if i < n && k < phs[i].filesz then file[phs[i].offset + k] else 0
    decreases n
  {
    assert Placed(phs[i], |file|, base, size);
    if n > 0 {
      hide Splice, AllPlaced;
      SegmentAppears(file, phs, base, size, n - 1, i, k);
      PlacedAt(phs, |file|, base, size, n - 1);
      var ph := phs[n - 1];
      if ph.Loadable() {
        var piece := file[ph.offset..ph.offset + ph.filesz];
        if n - 1 == i && k < ph.filesz { assert piece[k] == file[ph.offset + k]; }
      }
    }
  }

  lemma PlacedAt(phs: seq<Phdr>, fileSize: nat, base: nat, size: nat, i: nat)
    requires AllPlaced(phs, fileSize, base, size) && i < |phs|
    ensures Placed(phs[i], fileSize, base, size)
  {
  }

  /** Every byte outside all segments is zero. */
  lemma {:induction false} RestIsZero(file: seq<byte>, phs: seq<Phdr>, base: nat, size: nat, n: nat, p: nat)
    requires n <= |phs| && AllPlaced(phs, |file|, base, size) && p < size
    requires forall j :: 0 <= j < n && phs[j].Loadable() ==> !(phs[j].vaddr <= base + p < phs[j].vaddr + phs[j].memsz)
    ensures Composed(file, phs, base, size, n)[p] == 0
    decreases n
  {
    if n > 0 {
      hide Splice;
      RestIsZero(file, phs, base, size, n - 1, p);
      PlacedAt(phs, |file|, base, size, n - 1);
      var ph := phs[n - 1];
      if ph.Loadable() { assert |file[ph.offset..ph.offset + ph.filesz]| == ph.filesz <= ph.memsz; }
    }
  }

  /** The checks of the first loop, on a file of at most 64 MB and an image that fits the user window,
      put every segment inside both: no 32-bit sum has wrapped. */
  lemma ChecksPlace(phs: seq<Phdr>, fileSize: nat, lo: nat, hi: nat)
    requires forall i :: 0 <= i < |phs| ==> phs[i].Word()
    requires AllChecked(phs, fileSize) && Bounds(phs, |phs|, lo, hi) && lo < hi
    requires fileSize <= 0x400_0000 && 0 < PageUp(hi - PageDown(lo)) <= 0xB800_0000
    ensures AllPlaced(phs, fileSize, PageDown(lo), PageUp(hi - PageDown(lo)))
  {
    var base, size := PageDown(lo), PageUp(hi - PageDown(lo));
    hide PageDown, PageUp, Bounds;
    forall i | 0 <= i < |phs| && phs[i].Loadable()
      ensures Placed(phs[i], fileSize, base, size)
    {
      BoundsAt(phs, lo, hi, i);
      assert phs[i].Checked(fileSize);
      U32Small(phs[i].offset + phs[i].filesz);
    }
  }

  lemma BoundsAt(phs: seq<Phdr>, lo: nat, hi: nat, i: nat)
    requires Bounds(phs, |phs|, lo, hi) && i < |phs| && phs[i].Loadable()
    ensures lo <= phs[i].vaddr && phs[i].vaddr + phs[i].memsz <= hi < TWO32
  {
  }

  // ---------------------------------------------------------------- loading

  /** The first PT_DYNAMIC header. */
  function FindDynamic(phs: seq<Phdr>, i: nat): (r: Option<DynHeader>)
    requires i <= |phs|
    decreases |phs| - i
  {
    if i == |phs| then None
    else if phs[i].kind == 2 then Some(DynHeader(phs[i].vaddr, phs[i].memsz))
    else FindDynamic(phs, i + 1)
  }

  /** The dynamic section is that of the first header of type 2. */
  lemma {:induction false} DynamicIsFirst(phs: seq<Phdr>, i: nat)
    requires i <= |phs|
    ensures var r := FindDynamic(phs, i);
            && (r.None? <==> forall k :: i <= k < |phs| ==> phs[k].kind != 2)
            && (r.Some? ==> exists k :: i <= k < |phs| && phs[k].kind == 2
                                        && r.value == DynHeader(phs[k].vaddr, phs[k].memsz)
                                        && forall j :: i <= j < k ==> phs[j].kind != 2)
    decreases |phs| - i
  {
    if i < |phs| && phs[i].kind != 2 { DynamicIsFirst(phs, i + 1); }
  }

  /** The second loop over the headers: file bytes copied over a zeroed image. */
  method CopySegments(image: array<byte>, file: seq<byte>, phs: seq<Phdr>, base: nat)
    requires AllPlaced(phs, |file|, base, image.Length) && image[..] == Fill(image.Length, 0)
    modifies image
    ensures image[..] == Composed(file, phs, base, image.Length, |phs|)
  {
    hide AllPlaced, Splice;
    for i := 0 to |phs|
      invariant image[..] == Composed(file, phs, base, image.Length, i)
    {
      var ph := phs[i];
      PlacedAt(phs, |file|, base, image.Length, i);
      if ph.Loadable() {
        ghost var was := image[..];
        CopyInto(image, ph.vaddr - base, file[ph.offset..ph.offset + ph.filesz]);
      }
    }
  }

  /** `memcpy` into the image. */
  method CopyInto(image: array<byte>, at: nat, bytes: seq<byte>)
    requires at + |bytes| <= image.Length
    modifies image
    ensures image[..] == Splice(old(image[..]), at, bytes)
  {
    ghost var was := image[..];
    for k := 0 to |bytes|
      invariant forall p :: 0 <= p < image.Length ==>
                  image[p] == if at <= p < at + k then bytes[p - at] else was[p]
    {
      image[at + k] := bytes[k];
    }
  }

  datatype Loaded = Loaded(entry: nat, base: nat, loadBase: nat, size: nat) {
    function Bias(): int { U32(loadBase - base) }
  }

  /** What a successful load promises: whole pages, the entry inside the range that gets mapped, and
      addresses moved by the same distance as the image. */
  ghost predicate Sits(l: Loaded, entry: nat) {
    && OnPage(l.base) && OnPage(l.size) && OnPage(l.loadBase) && l.size > 0
    && l.loadBase <= l.entry < l.loadBase + l.size && l.entry - l.loadBase == entry - l.base
  }

  /** The image of a successful load: segments composed, then relocated if position-independent. */
  ghost predicate Delivers(file: seq<byte>, phs: seq<Phdr>, entry: nat, pie: bool, l: Loaded, img: seq<byte>) {
    && Sits(l, entry) && AllPlaced(phs, |file|, l.base, l.size)
    && var raw := Composed(file, phs, l.base, l.size, |phs|);
       if pie then Patched(true, img) == Relocate(raw, l.base, l.Bias(), FindDynamic(phs, 0))
       else img == raw && Fixed(l)
  }

  /** Failed; or a buffer too short for the image, which zeroing it then overruns; or ready. */
  datatype Outcome = Failed | Overrun | Ready(l: Loaded)

  /** A pointer with fewer than `size` bytes behind it. */
  predicate Short(got: Option<nat>, size: nat) { got.Some? && got.value < size }

  ghost function ImageBase(phs: seq<Phdr>): nat { PageDown(LowOf(phs, |phs|)) }

  ghost function ImageSize(phs: seq<Phdr>): nat {
    var hi, base := HighOf(phs, |phs|), ImageBase(phs);
    if base <= hi < TWO32 then PageUp(hi - base) else 0
  }

  /** Everything `elf_load_image` checks on the headers. */
  ghost predicate Acceptable(phs: seq<Phdr>, fileSize: nat, entry: nat, pie: bool) {
    var lo, hi := LowOf(phs, |phs|), HighOf(phs, |phs|);
    && AllChecked(phs, fileSize) && lo != 0xFFFF_FFFF && lo <= entry < hi && ImageSize(phs) != 0
    && (!pie ==> 0x0800_0000 <= lo && hi <= 0xBFFF_FFFF)
  }

  /** The base a position-independent image gets. */
  ghost function BaseFor(phs: seq<Phdr>, next: nat): Option<(nat, nat)> {
    var base := ImageBase(phs);
    if next < TWO32 && base < TWO32
    then ChooseBase(next, ImageSize(phs), if base < 0x0800_0000 then 0x0800_0000 else base)
    else None
  }

  ghost predicate Planned(phs: seq<Phdr>, fileSize: nat, entry: nat, pie: bool, next: nat) {
    Acceptable(phs, fileSize, entry, pie) && (pie ==> BaseFor(phs, next).Some?)
  }

  /** The relocations of the composed image can all be carried out at the base it gets. */
  ghost predicate RelocatesAt(file: seq<byte>, phs: seq<Phdr>, next: nat) {
    var base, size := ImageBase(phs), ImageSize(phs);
    && AllPlaced(phs, |file|, base, size) && BaseFor(phs, next).Some?
    && Relocate(Composed(file, phs, base, size, |phs|), base, U32(BaseFor(phs, next).value.0 - base),
                FindDynamic(phs, 0)).ok
  }

  ghost predicate Fixed(l: Loaded) { l.loadBase == l.base >= 0x0800_0000 && l.base + l.size <= 0xC000_0000 }

  lemma BoundsRange(phs: seq<Phdr>, lo: nat, hi: nat)
    requires Bounds(phs, |phs|, lo, hi) && lo != 0xFFFF_FFFF
    ensures lo < hi < TWO32
  {
  }

  lemma WindowPage()
    ensures OnPage(0x0800_0000)
  {
  }

  lemma GivenRange(rs: seq<Range>, next: nat)
    requires Apart(rs, next) && rs != []
    ensures InWindow(rs[|rs| - 1])
  {
  }

  /** The entry moves with the image, and nothing wraps. */
  lemma EntrySits(l: Loaded, entry: nat, lo: nat, hi: nat, pie: bool)
    requires lo <= entry < hi < TWO32 && l.base == PageDown(lo) && l.size == PageUp(hi - l.base) && l.size > 0
    requires l.entry == U32(entry + U32(l.loadBase - l.base))
    requires if pie then InWindow(Range(l.loadBase, l.size))
             else l.loadBase == l.base && 0x0800_0000 <= lo && hi <= 0xBFFF_FFFF
    ensures Sits(l, entry)
    ensures !pie ==> l.base >= 0x0800_0000 && l.base + l.size <= 0xC000_0000
  {
    hide PageUp, PageDown, U32;
    PageTop(l.base, hi);
    U32Add(l.loadBase - l.base, entry);
    U32Small(entry - l.base + l.loadBase);
    assert entry + U32(l.loadBase - l.base) == U32(l.loadBase - l.base) + entry;
    assert l.loadBase - l.base + entry == entry - l.base + l.loadBase;
  }

  /** Rounding a page-aligned image up never passes the page above its end. */
  lemma PageTop(base: nat, hi: nat)
    requires OnPage(base) && base < hi < TWO32 && PageUp(hi - base) > 0
    ensures hi - base <= PageUp(hi - base)
    ensures base >= 0x0800_0000 - 4095 ==> base >= 0x0800_0000
    ensures hi <= 0xBFFF_FFFF ==> base + PageUp(hi - base) <= 0xC000_0000
  {
    PageSum(base, PageUp(hi - base));
  }

  class Loader {
    var next: nat
    ghost var given: seq<Range>

    ghost predicate Valid()
      reads this
    {
      Apart(given, next)
    }

    constructor ()
      ensures Valid() && given == []
    {
      next, given := 0x0800_0000, [];
    }

    /** `choose_pie_base`, 0 meaning no space. */
    method ChoosePieBase(size: nat, least: nat) returns (base: nat)
      requires Valid() && OnPage(size) && OnPage(least) && 0x0800_0000 <= least < TWO32
      modifies this
      ensures Valid()
      ensures match ChooseBase(old(next), size, least)
              case None => base == 0 && next == old(next) && given == old(given)
              case Some((b, n)) => base == b != 0 && next == n && given == old(given) + [Range(b, size)]
    {
      ChooseKeeps(given, next, size, least);
      var want := PageUp(if next < least then least else next);
      if want + size > 0xC000_0000 { return 0; }
      base := want;
      given := given + [Range(base, size)];
      next := PageUp(U32(U32(base + size) + 4096));
    }

    /** The part of the loader that looks at headers only: the range the image will occupy, if the
        checks pass and, for a position-independent image, a base is left. */
    method PlanLoad(fileSize: nat, phs: seq<Phdr>, entry: nat, pie: bool) returns (r: Option<Loaded>)
      requires Valid() && fileSize <= 0x400_0000 && entry < TWO32 && forall i :: 0 <= i < |phs| ==> phs[i].Word()
      modifies this
      ensures Valid()
      ensures r.Some? <==> Acceptable(phs, fileSize, entry, pie) && (pie ==> BaseFor(phs, old(next)).Some?)
      ensures r.Some? ==>
                && r.value.base == ImageBase(phs) && r.value.size == ImageSize(phs)
                && Sits(r.value, entry) && AllPlaced(phs, fileSize, r.value.base, r.value.size)
                && (!pie ==> Fixed(r.value))
                && (pie ==> given != [] && given[|given| - 1] == Range(r.value.loadBase, r.value.size)
                            && r.value.loadBase == BaseFor(phs, old(next)).value.0)
    {
      hide Bounds, AllChecked, AllPlaced, PageUp, PageDown, OnPage, Sits, Apart, LowOf, HighOf;
      var ok, lo, hi := FindBounds(phs, fileSize);
      if !ok || lo == 0xFFFF_FFFF || entry < lo || entry >= hi { return None; }
      BoundsRange(phs, lo, hi);
      var base := PageDown(lo);
      var size := PageUp(hi - base);
      if size == 0 { return None; }
      var loadBase := base;
      if pie {
        var least := if base < 0x0800_0000 then 0x0800_0000 else base;
        WindowPage();
        loadBase := ChoosePieBase(size, least);
        if loadBase == 0 { return None; }
        GivenRange(given, next);
      } else if lo < 0x0800_0000 || hi > 0xBFFF_FFFF {
        return None;
      }
      var l := Loaded(U32(entry + U32(loadBase - base)), base, loadBase, size);
      EntrySits(l, entry, lo, hi, pie);
      ChecksPlace(phs, fileSize, lo, hi);
      return Some(l);
    }

    /** The loader from the segment checks on. `granted` tells, for a page-aligned request to the heap, how
        many bytes lie behind the pointer it returns; None for a null pointer. */
    method LoadImage(file: seq<byte>, phs: seq<Phdr>, entry: nat, pie: bool, granted: nat -> Option<nat>)
      returns (r: Outcome, image: array<byte>)
      requires Valid() && |file| <= 0x400_0000 && entry < TWO32 && forall i :: 0 <= i < |phs| ==> phs[i].Word()
      modifies this
      ensures Valid()
      ensures r.Ready? ==> Delivers(file, phs, entry, pie, r.l, image[..])
      ensures r.Ready? && pie ==> given != [] && given[|given| - 1] == Range(r.l.loadBase, r.l.size)
      ensures r == Overrun <==>
                Planned(phs, |file|, entry, pie, old(next)) && Short(granted(ImageSize(phs)), ImageSize(phs))
      ensures !Planned(phs, |file|, entry, pie, old(next)) || granted(ImageSize(phs)).None? ==> r == Failed
      ensures Planned(phs, |file|, entry, pie, old(next)) && granted(ImageSize(phs)).Some?
              && !Short(granted(ImageSize(phs)), ImageSize(phs)) ==>
                (r.Ready? <==> pie ==> RelocatesAt(file, phs, old(next)))
    {
      hide Acceptable, BaseFor, AllPlaced, Composed, PageUp, PageDown, OnPage, Relocate, Sits, Apart;
      image := new byte[0];
      var plan := PlanLoad(|file|, phs, entry, pie);
      if plan.None? { return Failed, image; }
      var l := plan.value;
      if granted(l.size).None? { return Failed, image; }
      if Short(granted(l.size), l.size) { return Overrun, image; }
      image := new byte[l.size](i => 0);
      assert image[..] == Fill(l.size, 0);
      CopySegments(image, file, phs, l.base);
      if pie {
        var done := ApplyRelocations(image, l.base, l.Bias(), FindDynamic(phs, 0));
        if !done { return Failed, image; }
      }
      return Ready(l), image;
    }
  }
}
