/** Relocating a loaded image in place, from its dynamic section. */
module ElfImage {
  import opened Bytes
  import opened ElfReloc

  /** A PT_DYNAMIC header: where the dynamic section lies and how long it is. */
  datatype DynHeader = DynHeader(vaddr: nat, memsz: nat)

  /** What the dynamic section says about relocation. */
  datatype Dyn = Dyn(rel: nat, relSz: nat, relEnt: nat, symtab: nat, symEnt: nat, rela: bool)

  const NO_DYN := Dyn(0, 0, 8, 0, 16, false)

  function Tag(img: seq<byte>, off: nat, i: nat): nat
    requires off + 8 * i + 8 <= |img|
  {
    Le32(img, off + 8 * i)
  }

  function Val(img: seq<byte>, off: nat, i: nat): nat
    requires off + 8 * i + 8 <= |img|
  {
    Le32(img, off + 8 * i + 4)
  }

  /** Number of entries before the first DT_NULL. */
  function Ends(img: seq<byte>, off: nat, i: nat, n: nat): (r: nat)
    requires off + 8 * n <= |img| && i <= n
    ensures i <= r <= n && (r < n ==> Tag(img, off, r) == 0)
    ensures forall k :: i <= k < r ==> Tag(img, off, k) != 0
    decreases n - i
  {
    if i == n || Tag(img, off, i) == 0 then i else Ends(img, off, i + 1, n)
  }

  function Note(d: Dyn, tag: nat, val: nat): Dyn {
    if tag == 17 then d.(rel := val)
    else if tag == 18 then d.(relSz := val)
    else if tag == 19 then d.(relEnt := val)
    else if tag == 6 then d.(symtab := val)
    else if tag == 11 then d.(symEnt := val)
    else if tag in {7, 8, 9} then d.(rela := true)
    else d
  }

  /** The first `n` entries taken in order. */
  function Noted(img: seq<byte>, off: nat, n: nat): Dyn
    requires off + 8 * n <= |img|
  {
    if n == 0 then NO_DYN else Note(Noted(img, off, n - 1), Tag(img, off, n - 1), Val(img, off, n - 1))
  }

  /** The value of the last entry with this tag. */
  function LastOf(img: seq<byte>, off: nat, n: nat, tag: nat, none: nat): (r: nat)
    requires off + 8 * n <= |img|
  {
    if n == 0 then none
    else if Tag(img, off, n - 1) == tag then Val(img, off, n - 1)
    else LastOf(img, off, n - 1, tag, none)
  }

  /** For every tag the last entry before DT_NULL wins; any RELA tag is remembered. */
  lemma {:induction false} NotedMeans(img: seq<byte>, off: nat, n: nat)
    requires off + 8 * n <= |img|
    ensures var d := Noted(img, off, n);
            && d.rel == LastOf(img, off, n, 17, 0) && d.relSz == LastOf(img, off, n, 18, 0)
            && d.relEnt == LastOf(img, off, n, 19, 8) && d.symtab == LastOf(img, off, n, 6, 0)
            && d.symEnt == LastOf(img, off, n, 11, 16)
            && (d.rela <==> exists i :: 0 <= i < n && Tag(img, off, i) in {7, 8, 9})
  {
    if n > 0 { NotedMeans(img, off, n - 1); }
  }

  /** The tables the dynamic section announces, `None` when there is nothing to relocate. */
  datatype Plan = Refused | Nothing | Plan(t: Tables)

  function PlanOf(img: seq<byte>, base: nat, dyn: Option<DynHeader>): (r: Plan)
    ensures r.Plan? ==> Fits(img, r.t)
  {
    if dyn.None? then Nothing
    else
      match ImagePtr(|img|, base, dyn.value.vaddr, dyn.value.memsz)
      case None => Refused
      case Some(off) =>
        var d := Noted(img, off, Ends(img, off, 0, dyn.value.memsz / 8));
        if d.rela then Refused
        else if d.relSz == 0 then Nothing
        else if d.relEnt != 8 || d.relSz % 8 != 0 then Refused
        else
          match ImagePtr(|img|, base, d.rel, d.relSz)
          case None => Refused
          case Some(rel) => Plan(Tables(base, rel, d.relSz / 8, d.symtab, d.symEnt))
  }

  /** `apply_relocations` */
  function Relocate(img: seq<byte>, base: nat, bias: nat, dyn: Option<DynHeader>): (r: Patched) {
    match PlanOf(img, base, dyn)
    case Refused => Patched(false, img)
    case Nothing => Patched(true, img)
    case Plan(t) => Apply(img, t, bias, 0)
  }

  /** Relocating the same image for two load addresses succeeds for both or neither, and the results
      differ in the words that move only. */
  lemma RelocateIndependent(img: seq<byte>, base: nat, bias: nat, bias': nat, dyn: Option<DynHeader>)
    requires bias < TWO32 && bias' < TWO32
    requires PlanOf(img, base, dyn).Plan? ==> Separate(img, PlanOf(img, base, dyn).t)
    ensures Relocate(img, base, bias, dyn).ok == Relocate(img, base, bias', dyn).ok
    ensures var a, b, plan := Relocate(img, base, bias, dyn), Relocate(img, base, bias', dyn), PlanOf(img, base, dyn);
            a.ok ==> if plan.Plan? then Relocated(img, plan.t, bias, bias', a.img, b.img) else a.img == b.img == img
  {
    hide PlanOf, Apply, Separate, Relocated;
    var plan := PlanOf(img, base, dyn);
    if plan.Plan? { BaseIndependent(img, plan.t, bias, bias'); }
  }

  // ---------------------------------------------------------------- in place

  /** A word stored little-endian into the image. */
  method StoreWord(image: array<byte>, at: nat, v: nat)
    requires at + 4 <= image.Length && v < TWO32
    modifies image
    ensures image[..] == Splice(old(image[..]), at, Enc32(v))
  {
    ghost var was := image[..];
    var w := Enc32(v);
    for k := 0 to 4
      invariant forall p :: 0 <= p < image.Length ==>
                  image[p] == if at <= p < at + k then w[p - at] else was[p]
    {
      image[at + k] := w[k];
    }
  }

  method ScanDynamic(image: array<byte>, off: nat, n: nat) returns (d: Dyn)
    requires off + 8 * n <= image.Length
    ensures d == Noted(image[..], off, Ends(image[..], off, 0, n))
  {
    ghost var img := image[..];
    d := NO_DYN;
    var i := 0;
    while i < n
      invariant i <= n && d == Noted(img, off, i) && Ends(img, off, 0, n) == Ends(img, off, i, n)
    {
      var tag, val := Tag(image[..], off, i), Val(image[..], off, i);
      if tag == 0 { return; }
      d := Note(d, tag, val);
      i := i + 1;
    }
  }

  /** One relocation, its entry and symbol read from the image as it is now. */
  method ApplyOne(image: array<byte>, t: Tables, bias: nat, i: nat) returns (ok: bool)
    requires Fits(image[..], t) && i < t.count && bias < TWO32
    modifies image
    ensures Patched(ok, image[..]) == Turn(old(image[..]), t, bias, i)
  {
    hide Splice, Enc32, SymValue, SymPtr, RelAt, NewWord;
    var r := RelAt(image[..], t, i);
    var ptr := ImagePtr(image.Length, t.base, r.offset, 4);
    if ptr.None? { return false; }
    var at := ptr.value;
    if r.kind == 0 { return true; }
    if r.kind == 8 {
      StoreWord(image, at, NewWord(8, 0, Le32(image[..], at), bias, r.offset));
      return true;
    }
    if !NeedsSymbol(r.kind) { return false; }
    var s := SymValue(image[..], t, r.sym);
    if s.None? { return false; }
    StoreWord(image, at, NewWord(r.kind, s.value, Le32(image[..], at), bias, r.offset));
    return true;
  }

  /** `apply_relocations`, in place: on failure the image is left as patched so far. */
  method ApplyRelocations(image: array<byte>, base: nat, bias: nat, dyn: Option<DynHeader>) returns (ok: bool)
    requires bias < TWO32
    modifies image
    ensures Patched(ok, image[..]) == Relocate(old(image[..]), base, bias, dyn)
  {
    hide Apply, Noted, Ends, Turn;
    ghost var img := image[..];
    if dyn.None? { return true; }
    var off := ImagePtr(image.Length, base, dyn.value.vaddr, dyn.value.memsz);
    if off.None? { return false; }
    var d := ScanDynamic(image, off.value, dyn.value.memsz / 8);
    if d.rela { return false; }
    if d.relSz == 0 { return true; }
    if d.relEnt != 8 || d.relSz % 8 != 0 { return false; }
    var rel := ImagePtr(image.Length, base, d.rel, d.relSz);
    if rel.None? { return false; }
    var t := Tables(base, rel.value, d.relSz / 8, d.symtab, d.symEnt);
    ok := ApplyLoop(image, t, bias);
  }

  method ApplyLoop(image: array<byte>, t: Tables, bias: nat) returns (ok: bool)
    requires Fits(image[..], t) && bias < TWO32
    modifies image
    ensures Patched(ok, image[..]) == Apply(old(image[..]), t, bias, 0)
  {
    hide Turn;
    ghost var img := image[..];
    for i := 0 to t.count
      invariant Fits(image[..], t) && Apply(img, t, bias, 0) == Apply(image[..], t, bias, i)
    {
      ok := ApplyOne(image, t, bias, i);
      if !ok { return; }
    }
    return true;
  }
}
