/** i386 relocations applied in place, one after the other, to an image whose tables they are read
    from, and why the result depends on the load address only through the words meant to move. */
module ElfReloc {
  import opened Bytes

  datatype Option<T> = None | Some(value: T)

  /** `elf_image_ptr`: the offset of `n` bytes at `vaddr`, if the image has them. */
  function ImagePtr(size: nat, base: nat, vaddr: nat, n: nat): (r: Option<nat>)
    ensures r.Some? <==> base <= vaddr && vaddr + n <= base + size
    ensures r.Some? ==> r.value == vaddr - base
  {
    if vaddr < base then None
    else
      var off := vaddr - base;
      if off > size || n > size - off then None else Some(off)
  }

  /** The tables of the dynamic section: the image's link address, offset and number of REL entries,
      address and entry size of the symbol table. */
  datatype Tables = Tables(base: nat, rel: nat, count: nat, symtab: nat, symEnt: nat)

  predicate Fits(img: seq<byte>, t: Tables) { t.rel + 8 * t.count <= |img| }

  datatype Rel = Rel(offset: nat, kind: nat, sym: nat)

  function RelAt(img: seq<byte>, t: Tables, i: nat): Rel
    requires Fits(img, t) && i < t.count
  {
    var info := Le32(img, t.rel + 8 * i + 4);
    Rel(Le32(img, t.rel + 8 * i), info % 256, info / 256)
  }

  /** Where the entry of symbol `sym` lies; the product and the sum are 32-bit. */
  function SymPtr(size: nat, t: Tables, sym: nat): (r: Option<nat>)
    ensures r.Some? ==> r.value + 16 <= size
  {
    if t.symtab == 0 || t.symEnt < 16 then None
    else ImagePtr(size, t.base, U32(t.symtab + U32(sym * t.symEnt)), t.symEnt)
  }

  /** `resolve_symbol` without the bias: the symbol's value, if it is defined. */
  function SymValue(img: seq<byte>, t: Tables, sym: nat): (r: Option<nat>) {
    match SymPtr(|img|, t, sym)
    case None => None
    case Some(s) => if Le16(img, s + 14) == 0 then None else Some(Le32(img, s + 4))
  }

  predicate NeedsSymbol(kind: nat) { kind in {1, 2, 6, 7} }

  /** The word a relocation computes from the one it finds; `s` is the symbol's link-time value. */
  function NewWord(kind: nat, s: nat, old_: nat, bias: nat, offset: nat): (r: int)
    ensures 0 <= r < TWO32
  {
    if kind == 8 then U32(old_ + bias)
    else if kind == 1 then U32(U32(bias + s) + old_)
    else if kind == 2 then U32(U32(bias + s) + old_ - U32(bias + offset))
    else U32(bias + s)
  }

  /** The image so far, and whether all went well. */
  datatype Patched = Patched(ok: bool, img: seq<byte>)

  /** One turn of the relocation loop. */
  function Turn(img: seq<byte>, t: Tables, bias: nat, i: nat): (r: Patched)
    requires Fits(img, t) && i < t.count
    ensures |r.img| == |img|
  {
    var r := RelAt(img, t, i);
    match ImagePtr(|img|, t.base, r.offset, 4)
    case None => Patched(false, img)
    case Some(at) =>
      if r.kind == 0 then Patched(true, img)
      else if r.kind == 8 then Patched(true, Splice(img, at, Enc32(NewWord(8, 0, Le32(img, at), bias, r.offset))))
      else if !NeedsSymbol(r.kind) then Patched(false, img)
      else
        match SymValue(img, t, r.sym)
        case None => Patched(false, img)
        case Some(s) => Patched(true, Splice(img, at, Enc32(NewWord(r.kind, s, Le32(img, at), bias, r.offset))))
  }

  /** The loop from relocation `i` on. */
  function Apply(img: seq<byte>, t: Tables, bias: nat, i: nat): (r: Patched)
    requires Fits(img, t) && i <= t.count
    ensures |r.img| == |img|
    decreases t.count - i
  {
    if i == t.count then Patched(true, img)
    else
      var s := Turn(img, t, bias, i);
      if s.ok then Apply(s.img, t, bias, i + 1) else s
  }

  // ---------------------------------------------------------------- what each relocation means

  /** Relocation `i` of the pristine image can be carried out. */
  ghost predicate Good(img: seq<byte>, t: Tables, i: nat)
    requires Fits(img, t) && i < t.count
  {
    var r := RelAt(img, t, i);
    && ImagePtr(|img|, t.base, r.offset, 4).Some?
    && (r.kind == 0 || r.kind == 8 || (NeedsSymbol(r.kind) && SymValue(img, t, r.sym).Some?))
  }

  /** Byte `p` is one that relocation `i` writes. */
  ghost predicate Touches(img: seq<byte>, t: Tables, i: nat, p: int)
    requires Fits(img, t) && i < t.count
  {
    var r := RelAt(img, t, i);
    r.kind != 0 && t.base <= r.offset && r.offset - t.base <= p < r.offset - t.base + 4
  }

  /** Byte `p` is one that relocation `i` reads of its symbol. */
  ghost predicate Consults(img: seq<byte>, t: Tables, i: nat, p: int)
    requires Fits(img, t) && i < t.count
  {
    var s := SymPtr(|img|, t, RelAt(img, t, i).sym);
    s.Some? && s.value <= p < s.value + 16
  }

  /** Targets are disjoint and miss the REL table and the symbols used. */
  ghost predicate Separate(img: seq<byte>, t: Tables)
    requires Fits(img, t)
  {
    && (forall i, p :: 0 <= i < t.count && Touches(img, t, i, p) ==> !(t.rel <= p < t.rel + 8 * t.count))
    && (forall i, j, p :: 0 <= i < t.count && 0 <= j < t.count && Touches(img, t, i, p) ==> !Consults(img, t, j, p))
    && (forall i, j, p :: 0 <= i < j < t.count && Touches(img, t, i, p) ==> !Touches(img, t, j, p))
  }

  /** The word relocation `i` is meant to leave, from the pristine image. */
  ghost function Final(img: seq<byte>, t: Tables, bias: nat, i: nat): (r: int)
    requires Fits(img, t) && i < t.count && Good(img, t, i)
    ensures 0 <= r < TWO32
  {
    var r := RelAt(img, t, i);
    var s := SymValue(img, t, r.sym);
    NewWord(r.kind, if s.Some? then s.value else 0, Le32(img, r.offset - t.base), bias, r.offset)
  }

  /** None of the first `n` relocations writes byte `p`. */
  ghost predicate Pristine(img: seq<byte>, t: Tables, n: nat, p: int)
    requires Fits(img, t) && n <= t.count
  {
    forall i :: 0 <= i < n ==> !Touches(img, t, i, p)
  }

  ghost predicate Untouched(img: seq<byte>, t: Tables, n: nat, img': seq<byte>)
    requires Fits(img, t) && n <= t.count
  {
    |img'| == |img| && forall p :: 0 <= p < |img| && Pristine(img, t, n, p) ==> img'[p] == img[p]
  }

  /** The word of relocation `i` in `img'` is the one meant. */
  ghost predicate Meant(img: seq<byte>, t: Tables, bias: nat, i: nat, img': seq<byte>)
    requires Fits(img, t) && i < t.count
  {
    var at := RelAt(img, t, i).offset - t.base;
    Good(img, t, i) && |img'| == |img| && (RelAt(img, t, i).kind != 0 ==> Le32(img', at) == Final(img, t, bias, i))
  }

  /** `img'` after the first `n` relocations: other bytes pristine, their words as meant. */
  ghost predicate Progress(img: seq<byte>, t: Tables, bias: nat, n: nat, img': seq<byte>)
    requires Fits(img, t) && n <= t.count
  {
    Untouched(img, t, n, img') && forall i :: 0 <= i < n ==> Meant(img, t, bias, i, img')
  }

  // ---------------------------------------------------------------- the loop, step by step

  lemma SameWord(a: seq<byte>, b: seq<byte>, at: nat)
    requires at + 4 <= |a| == |b| && forall p :: at <= p < at + 4 ==> a[p] == b[p]
    ensures Le32(a, at) == Le32(b, at)
  {
    assert a[at] == b[at] && a[at + 1] == b[at + 1] && a[at + 2] == b[at + 2] && a[at + 3] == b[at + 3];
  }

  /** The REL table is read as it was. */
  lemma TableKept(img: seq<byte>, t: Tables, n: nat, img': seq<byte>, k: nat)
    requires Fits(img, t) && n <= t.count && Separate(img, t) && Untouched(img, t, n, img') && k < t.count
    ensures RelAt(img', t, k) == RelAt(img, t, k)
  {
    hide Touches, RelAt, Consults;
    forall p | t.rel <= p < t.rel + 8 * t.count
      ensures img'[p] == img[p]
    {
      assert Pristine(img, t, n, p);
    }
    RelSame(img, img', t, k);
  }

  lemma RelSame(a: seq<byte>, b: seq<byte>, t: Tables, k: nat)
    requires Fits(a, t) && |a| == |b| && k < t.count
    requires forall p :: t.rel <= p < t.rel + 8 * t.count ==> a[p] == b[p]
    ensures RelAt(b, t, k) == RelAt(a, t, k)
  {
    SameWord(a, b, t.rel + 8 * k);
    SameWord(a, b, t.rel + 8 * k + 4);
  }

  /** So is the symbol a relocation uses. */
  lemma SymbolKept(img: seq<byte>, t: Tables, n: nat, img': seq<byte>, k: nat)
    requires Fits(img, t) && n <= t.count && Separate(img, t) && Untouched(img, t, n, img') && k < t.count
    ensures SymValue(img', t, RelAt(img, t, k).sym) == SymValue(img, t, RelAt(img, t, k).sym)
  {
    hide Touches, RelAt, SymPtr;
    var s := SymPtr(|img|, t, RelAt(img, t, k).sym);
    if s.Some? {
      forall p | s.value <= p < s.value + 16
        ensures img'[p] == img[p]
      {
        assert Consults(img, t, k, p);
        assert Pristine(img, t, n, p);
      }
      SameWord(img, img', s.value + 4);
      assert img'[s.value + 14] == img[s.value + 14] && img'[s.value + 15] == img[s.value + 15];
    }
  }

  /** And the word it is about to change. */
  lemma TargetKept(img: seq<byte>, t: Tables, n: nat, img': seq<byte>)
    requires Fits(img, t) && n < t.count && Separate(img, t) && Untouched(img, t, n, img')
    requires RelAt(img, t, n).kind != 0 && ImagePtr(|img|, t.base, RelAt(img, t, n).offset, 4).Some?
    ensures var at := RelAt(img, t, n).offset - t.base; Le32(img', at) == Le32(img, at)
  {
    hide RelAt, Consults;
    var at := RelAt(img, t, n).offset - t.base;
    forall p | at <= p < at + 4
      ensures img'[p] == img[p]
    {
      assert Touches(img, t, n, p);
      assert Pristine(img, t, n, p);
    }
    SameWord(img, img', at);
  }

  /** What one turn does, told from the pristine image. */
  lemma TurnMeans(img: seq<byte>, t: Tables, bias: nat, n: nat, img': seq<byte>)
    requires Fits(img, t) && n < t.count && Separate(img, t) && Untouched(img, t, n, img')
    ensures Turn(img', t, bias, n).ok <==> Good(img, t, n)
    ensures Good(img, t, n) ==>
              var r := RelAt(img, t, n);
              Turn(img', t, bias, n).img ==
                if r.kind == 0 then img' else Splice(img', r.offset - t.base, Enc32(Final(img, t, bias, n)))
  {
    hide RelAt, SymValue, SymPtr, Separate, Untouched, NewWord, Splice, Enc32;
    SizeKept(img, t, n, img');
    TableKept(img, t, n, img', n);
    SymbolKept(img, t, n, img', n);
    var r := RelAt(img, t, n);
    if r.kind != 0 && ImagePtr(|img|, t.base, r.offset, 4).Some? { TargetKept(img, t, n, img'); }
    RelativeIgnores(if SymValue(img, t, r.sym).Some? then SymValue(img, t, r.sym).value else 0, r.offset);
  }

  lemma SizeKept(img: seq<byte>, t: Tables, n: nat, img': seq<byte>)
    requires Fits(img, t) && n <= t.count && Untouched(img, t, n, img')
    ensures |img'| == |img|
  {
  }

  lemma RelativeIgnores(s: nat, offset: nat)
    ensures forall w, bias :: NewWord(8, s, w, bias, offset) == NewWord(8, 0, w, bias, offset)
  {
  }

  lemma SpliceReads(img: seq<byte>, at: nat, v: nat)
    requires at + 4 <= |img| && v < TWO32
    ensures Le32(Splice(img, at, Enc32(v)), at) == v
  {
    var w, r := Enc32(v), Splice(img, at, Enc32(v));
    assert r[at] == w[0] && r[at + 1] == w[1] && r[at + 2] == w[2] && r[at + 3] == w[3];
  }

  lemma StepUntouched(img: seq<byte>, t: Tables, n: nat, img': seq<byte>, v: nat)
    requires Fits(img, t) && n < t.count && Untouched(img, t, n, img') && v < TWO32
    requires Good(img, t, n)
    ensures var r := RelAt(img, t, n);
            Untouched(img, t, n + 1, if r.kind == 0 then img' else Splice(img', r.offset - t.base, Enc32(v)))
  {
    hide RelAt, Enc32, Splice;
    var r := RelAt(img, t, n);
    var next := if r.kind == 0 then img' else Splice(img', r.offset - t.base, Enc32(v));
    forall p | 0 <= p < |img| && Pristine(img, t, n + 1, p)
      ensures next[p] == img[p]
    {
      assert Pristine(img, t, n, p) && !Touches(img, t, n, p);
    }
  }

  /** A word already relocated stays as it is: later targets miss it. */
  lemma StepKeeps(img: seq<byte>, t: Tables, bias: nat, n: nat, i: nat, img': seq<byte>, v: nat)
    requires Fits(img, t) && i < n < t.count && Separate(img, t) && Meant(img, t, bias, i, img') && v < TWO32
    requires Good(img, t, n)
    ensures var r := RelAt(img, t, n);
            Meant(img, t, bias, i, if r.kind == 0 then img' else Splice(img', r.offset - t.base, Enc32(v)))
  {
    hide RelAt, Enc32, Splice, Final, Consults;
    var r, q := RelAt(img, t, n), RelAt(img, t, i);
    if r.kind != 0 && q.kind != 0 {
      var at, next := q.offset - t.base, Splice(img', r.offset - t.base, Enc32(v));
      forall p | at <= p < at + 4
        ensures next[p] == img'[p]
      {
        assert Touches(img, t, i, p);
        assert !Touches(img, t, n, p);
      }
      SameWord(img', next, at);
    }
  }

  lemma ProgressStep(img: seq<byte>, t: Tables, bias: nat, n: nat, img': seq<byte>)
    requires Fits(img, t) && n < t.count && Separate(img, t) && Progress(img, t, bias, n, img') && Good(img, t, n)
    ensures Turn(img', t, bias, n).ok && Progress(img, t, bias, n + 1, Turn(img', t, bias, n).img)
  {
    hide RelAt, Enc32, Splice, Final, Turn, Separate, Untouched, Good;
    TurnMeans(img, t, bias, n, img');
    SizeKept(img, t, n, img');
    GoodFits(img, t, n);
    var r, v := RelAt(img, t, n), Final(img, t, bias, n);
    StepUntouched(img, t, n, img', v);
    var next := Turn(img', t, bias, n).img;
    if r.kind != 0 { SpliceReads(img', r.offset - t.base, v); }
    forall i | 0 <= i < n
      ensures Meant(img, t, bias, i, next)
    {
      StepKeeps(img, t, bias, n, i, img', v);
    }
    assert Meant(img, t, bias, n, next);
  }

  lemma GoodFits(img: seq<byte>, t: Tables, n: nat)
    requires Fits(img, t) && n < t.count && Good(img, t, n)
    ensures var r := RelAt(img, t, n); t.base <= r.offset && r.offset - t.base + 4 <= |img|
  {
  }

  /** The loop carries out every relocation, or stops because one cannot be carried out. */
  lemma {:induction false} ApplyMeans(img: seq<byte>, t: Tables, bias: nat, n: nat, img': seq<byte>)
    requires Fits(img, t) && n <= t.count && Separate(img, t) && Progress(img, t, bias, n, img') && |img'| == |img|
    ensures Apply(img', t, bias, n).ok <==> forall i :: n <= i < t.count ==> Good(img, t, i)
    ensures Apply(img', t, bias, n).ok ==> Progress(img, t, bias, t.count, Apply(img', t, bias, n).img)
    decreases t.count - n
  {
    hide Separate, Progress, Turn, Good;
    if n < t.count {
      ProgressUntouched(img, t, bias, n, img');
      TurnMeans(img, t, bias, n, img');
      if Good(img, t, n) {
        ProgressStep(img, t, bias, n, img');
        ApplyMeans(img, t, bias, n + 1, Turn(img', t, bias, n).img);
      }
    }
  }

  lemma ProgressUntouched(img: seq<byte>, t: Tables, bias: nat, n: nat, img': seq<byte>)
    requires Fits(img, t) && n <= t.count && Progress(img, t, bias, n, img')
    ensures Untouched(img, t, n, img')
  {
  }

  lemma ProgressNone(img: seq<byte>, t: Tables, bias: nat)
    requires Fits(img, t)
    ensures Progress(img, t, bias, 0, img)
  {
  }

  // ---------------------------------------------------------------- two load addresses

  lemma U32Unique(x: int, q: int, r: int)
    requires 0 <= r < 0x1_0000_0000 && x == q * 0x1_0000_0000 + r
    ensures U32(x) == r
  {
  }

  lemma U32Add(a: int, b: int)
    ensures U32(U32(a) + b) == U32(a + b)
  {
    var q, p, r := a / 0x1_0000_0000, (a + b) / 0x1_0000_0000, (a + b) % 0x1_0000_0000;
    assert U32(a) == a - q * 0x1_0000_0000;
    U32Unique(U32(a) + b, p - q, r);
  }

  lemma U32Sub(a: int, b: int)
    ensures U32(a - U32(b)) == U32(a - b)
  {
    var q, p, r := b / 0x1_0000_0000, (a - b) / 0x1_0000_0000, (a - b) % 0x1_0000_0000;
    assert U32(b) == b - q * 0x1_0000_0000;
    U32Unique(a - U32(b), p + q, r);
  }

  /** Does a word of this kind move with the load address? */
  predicate Moves(kind: nat) { kind in {1, 6, 7, 8} }

  lemma WordShift(kind: nat, s: nat, w: nat, offset: nat, bias: nat, bias': nat)
    requires kind in {1, 2, 6, 7, 8} && bias < TWO32 && bias' < TWO32 && s < TWO32 && w < TWO32 && offset < TWO32
    ensures NewWord(kind, s, w, bias', offset)
         == U32(NewWord(kind, s, w, bias, offset) + if Moves(kind) then bias' - bias else 0)
  {
    hide U32;
    if kind == 8 {
      U32Add(w + bias, bias' - bias);
    } else if kind == 1 {
      U32Add(bias + s, w);
      U32Add(bias' + s, w);
      U32Add(bias + s + w, bias' - bias);
    } else if kind == 2 {
      PcRelative(bias + s, w, bias + offset);
      PcRelative(bias' + s, w, bias' + offset);
      U32Add(s + w - offset, 0);
    } else {
      U32Add(bias + s, bias' - bias);
    }
  }

  lemma PcRelative(x: int, w: int, y: int)
    ensures U32(U32(x) + w - U32(y)) == U32(x + w - y)
  {
    hide U32;
    U32Add(x, w - U32(y));
    U32Sub(x + w, y);
  }

  /** Loading the same image at two addresses succeeds for both or for neither. If it succeeds, words
      that move differ by the difference of the biases modulo 2^32, and all other bytes, those of
      PC-relative words among them, are the same. */
  lemma BaseIndependent(img: seq<byte>, t: Tables, bias: nat, bias': nat)
    requires Fits(img, t) && Separate(img, t) && bias < TWO32 && bias' < TWO32
    ensures Apply(img, t, bias, 0).ok == Apply(img, t, bias', 0).ok
    ensures Apply(img, t, bias, 0).ok ==>
              Relocated(img, t, bias, bias', Apply(img, t, bias, 0).img, Apply(img, t, bias', 0).img)
  {
    hide Separate, Progress, Apply, Good, Relocated;
    ProgressNone(img, t, bias);
    ProgressNone(img, t, bias');
    ApplyMeans(img, t, bias, 0, img);
    ApplyMeans(img, t, bias', 0, img);
    if Apply(img, t, bias, 0).ok {
      ProgressRelocated(img, t, bias, bias', Apply(img, t, bias, 0).img, Apply(img, t, bias', 0).img);
    }
  }

  ghost predicate Relocated(img: seq<byte>, t: Tables, bias: nat, bias': nat, a: seq<byte>, b: seq<byte>)
    requires Fits(img, t)
  {
    && |a| == |b| == |img|
    && (forall p :: 0 <= p < |img| && Still(img, t, p) ==> a[p] == b[p])
    && (forall i :: 0 <= i < t.count && Moves(RelAt(img, t, i).kind) ==>
          Good(img, t, i) &&
          var at := RelAt(img, t, i).offset - t.base;
          Le32(b, at) == U32(Le32(a, at) + bias' - bias))
  }

  /** No moving word covers byte `p`. */
  ghost predicate Still(img: seq<byte>, t: Tables, p: int)
    requires Fits(img, t)
  {
    forall i :: 0 <= i < t.count && Moves(RelAt(img, t, i).kind) ==> !Touches(img, t, i, p)
  }

  lemma WordBytes(a: seq<byte>, b: seq<byte>, at: nat, p: nat)
    requires at + 4 <= |a| == |b| && Le32(a, at) == Le32(b, at) && at <= p < at + 4
    ensures a[p] == b[p]
  {
    HalfBytes(Le16(a, at), Le16(a, at + 2), Le16(b, at), Le16(b, at + 2));
    ByteParts(a[at] as int, a[at + 1] as int, b[at] as int, b[at + 1] as int);
    ByteParts(a[at + 2] as int, a[at + 3] as int, b[at + 2] as int, b[at + 3] as int);
  }

  lemma HalfBytes(x: nat, y: nat, x': nat, y': nat)
    requires x < 0x1_0000 && x' < 0x1_0000 && x + 0x1_0000 * y == x' + 0x1_0000 * y'
    ensures x == x' && y == y'
  {
  }

  lemma ByteParts(x: nat, y: nat, x': nat, y': nat)
    requires x < 256 && x' < 256
    ensures x + 256 * y == x' + 256 * y' ==> x == x' && y == y'
  {
  }

  lemma FinalShift(img: seq<byte>, t: Tables, bias: nat, bias': nat, i: nat)
    requires Fits(img, t) && i < t.count && Good(img, t, i) && RelAt(img, t, i).kind != 0
    requires bias < TWO32 && bias' < TWO32
    ensures Final(img, t, bias', i) ==
            U32(Final(img, t, bias, i) + if Moves(RelAt(img, t, i).kind) then bias' - bias else 0)
  {
    hide RelAt, SymPtr, NewWord;
    var r := RelAt(img, t, i);
    RelBounds(img, t, i);
    var s := SymValue(img, t, r.sym);
    WordShift(r.kind, if s.Some? then s.value else 0, Le32(img, r.offset - t.base), r.offset, bias, bias');
  }

  lemma RelBounds(img: seq<byte>, t: Tables, i: nat)
    requires Fits(img, t) && i < t.count
    ensures RelAt(img, t, i).offset < TWO32
  {
  }

  lemma ProgressRelocated(img: seq<byte>, t: Tables, bias: nat, bias': nat, a: seq<byte>, b: seq<byte>)
    requires Fits(img, t) && bias < TWO32 && bias' < TWO32
    requires Progress(img, t, bias, t.count, a) && Progress(img, t, bias', t.count, b)
    ensures Relocated(img, t, bias, bias', a, b)
  {
    hide RelAt, Final, Good, Le32;
    forall i | 0 <= i < t.count && Moves(RelAt(img, t, i).kind)
      ensures Good(img, t, i)
      ensures var at := RelAt(img, t, i).offset - t.base;
              0 <= at && at + 4 <= |a| && Le32(b, at) == U32(Le32(a, at) + bias' - bias)
    {
      assert Meant(img, t, bias, i, a) && Meant(img, t, bias', i, b);
      GoodFits(img, t, i);
      FinalShift(img, t, bias, bias', i);
    }
    forall p | 0 <= p < |img| && Still(img, t, p)
      ensures a[p] == b[p]
    {
      SameStill(img, t, bias, bias', a, b, p);
    }
  }

  lemma SameStill(img: seq<byte>, t: Tables, bias: nat, bias': nat, a: seq<byte>, b: seq<byte>, p: nat)
    requires Fits(img, t) && bias < TWO32 && bias' < TWO32 && p < |img|
    requires Progress(img, t, bias, t.count, a) && Progress(img, t, bias', t.count, b)
    requires Still(img, t, p)
    ensures a[p] == b[p]
  {
    hide RelAt, Final, Good, Le32;
    if Pristine(img, t, t.count, p) {
      assert a[p] == img[p] == b[p];
    } else {
      var i :| 0 <= i < t.count && Touches(img, t, i, p);
      assert Meant(img, t, bias, i, a) && Meant(img, t, bias', i, b);
      GoodFits(img, t, i);
      FinalShift(img, t, bias, bias', i);
      WordBytes(a, b, RelAt(img, t, i).offset - t.base, p);
    }
  }
}
