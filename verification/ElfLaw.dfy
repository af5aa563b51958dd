/** What the relocation loop does to an image, told on its bytes: which relocations can be carried out,
    and the sum each leaves in the word it names. */
module ElfLaw {
  import opened Bytes
  import opened ElfReloc
  import opened ElfImage

  /** The 32-bit word at `o`. */
  function WordAt(img: seq<byte>, o: nat): nat
    requires o + 4 <= |img|
  {
    img[o] as int + 0x100 * img[o + 1] as int + 0x1_0000 * img[o + 2] as int + 0x100_0000 * img[o + 3] as int
  }

  /** Equal modulo 2^32. */
  ghost predicate Congruent(a: int, b: int) { exists q: int :: Shifted(a, b, q) }

  predicate Shifted(a: int, b: int, q: int) { a == b + q * 0x1_0000_0000 }

  /** r_offset, type and symbol index of REL entry `i`. */
  function OffsetOf(img: seq<byte>, t: Tables, i: nat): nat
    requires Fits(img, t) && i < t.count
  {
    WordAt(img, t.rel + 8 * i)
  }

  function KindOf(img: seq<byte>, t: Tables, i: nat): nat
    requires Fits(img, t) && i < t.count
  {
    img[t.rel + 8 * i + 4] as int
  }

  function SymOf(img: seq<byte>, t: Tables, i: nat): nat
    requires Fits(img, t) && i < t.count
  {
    var o := t.rel + 8 * i;
    img[o + 5] as int + 0x100 * img[o + 6] as int + 0x1_0000 * img[o + 7] as int
  }

  /** Where in the image the symbol's entry starts, as 32-bit arithmetic puts it. */
  function EntryOf(img: seq<byte>, t: Tables, i: nat): int
    requires Fits(img, t) && i < t.count
  {
    (t.symtab + SymOf(img, t, i) * t.symEnt) % 0x1_0000_0000 - t.base
  }

  /** The symbol's entry lies in the image and names a section. */
  ghost predicate Defined(img: seq<byte>, t: Tables, i: nat)
    requires Fits(img, t) && i < t.count
  {
    var e := EntryOf(img, t, i);
    && t.symtab != 0 && t.symEnt >= 16 && 0 <= e && e + t.symEnt <= |img|
    && (img[e + 14] != 0 || img[e + 15] != 0)
  }

  /** Relocation `i` can be carried out. */
  ghost predicate Doable(img: seq<byte>, t: Tables, i: nat)
    requires Fits(img, t) && i < t.count
  {
    && t.base <= OffsetOf(img, t, i) && OffsetOf(img, t, i) + 4 <= t.base + |img|
    && (KindOf(img, t, i) in {0, 8} || (KindOf(img, t, i) in {1, 2, 6, 7} && Defined(img, t, i)))
  }

  /** The symbol's value, which follows its name. */
  ghost function ValueOf(img: seq<byte>, t: Tables, i: nat): nat
    requires Fits(img, t) && i < t.count && Defined(img, t, i)
  {
    WordAt(img, EntryOf(img, t, i) + 4)
  }

  /** The word that relocation `i` names, before and after: B is the bias, S the symbol's value, A the word
      found and P the run-time address of the word.
      RELATIVE: B + A. 32: B + S + A. PC32: B + S + A - P. GLOB_DAT and JMP_SLOT: B + S. */
  ghost predicate Law(img: seq<byte>, t: Tables, bias: nat, i: nat, out: seq<byte>)
    requires Fits(img, t) && i < t.count && Doable(img, t, i) && |out| == |img|
  {
    var at := OffsetOf(img, t, i) - t.base;
    var was, now := WordAt(img, at), WordAt(out, at);
    match KindOf(img, t, i)
    case 8 => Congruent(now, was + bias)
    case 1 => Congruent(now, bias + ValueOf(img, t, i) + was)
    case 2 => Congruent(now + (bias + OffsetOf(img, t, i)), bias + ValueOf(img, t, i) + was)
    case 6 => Congruent(now, bias + ValueOf(img, t, i))
    case 7 => Congruent(now, bias + ValueOf(img, t, i))
    case _ => true
  }

  /** Byte `p` belongs to the word of a relocation. */
  ghost predicate Target(img: seq<byte>, t: Tables, i: nat, p: int)
    requires Fits(img, t) && i < t.count
  {
    KindOf(img, t, i) != 0 && OffsetOf(img, t, i) - t.base <= p < OffsetOf(img, t, i) - t.base + 4
  }

  // ---------------------------------------------------------------- the model's readings are these

  lemma WordIs(img: seq<byte>, o: nat)
    requires o + 4 <= |img|
    ensures Le32(img, o) == WordAt(img, o)
  {
  }

  lemma InfoParts(a: nat, b: nat, c: nat, d: nat)
    requires a < 256 && b < 256 && c < 256 && d < 256
    ensures var w := a + 0x100 * b + 0x1_0000 * c + 0x100_0000 * d;
            w % 256 == a && w / 256 == b + 0x100 * c + 0x1_0000 * d
  {
  }

  lemma RelIs(img: seq<byte>, t: Tables, i: nat)
    requires Fits(img, t) && i < t.count
    ensures RelAt(img, t, i) == Rel(OffsetOf(img, t, i), KindOf(img, t, i), SymOf(img, t, i))
  {
    hide Le32, WordAt;
    var o := t.rel + 8 * i;
    WordIs(img, o);
    WordIs(img, o + 4);
    InfoIs(img, o + 4);
  }

  lemma InfoIs(img: seq<byte>, o: nat)
    requires o + 4 <= |img|
    ensures WordAt(img, o) % 256 == img[o] as int
    ensures WordAt(img, o) / 256 == img[o + 1] as int + 0x100 * img[o + 2] as int + 0x1_0000 * img[o + 3] as int
  {
    InfoParts(img[o] as int, img[o + 1] as int, img[o + 2] as int, img[o + 3] as int);
  }

  lemma SymPtrIs(img: seq<byte>, t: Tables, i: nat)
    requires Fits(img, t) && i < t.count
    ensures var e, r := EntryOf(img, t, i), SymPtr(|img|, t, SymOf(img, t, i));
            && (r.Some? <==> t.symtab != 0 && t.symEnt >= 16 && 0 <= e && e + t.symEnt <= |img|)
            && (r.Some? ==> r.value == e)
  {
    hide SymOf;
    var x := SymOf(img, t, i) * t.symEnt;
    U32Add(x, t.symtab);
    assert t.symtab + U32(x) == U32(x) + t.symtab && t.symtab + x == x + t.symtab;
  }

  lemma SymIs(img: seq<byte>, t: Tables, i: nat)
    requires Fits(img, t) && i < t.count
    ensures var r := SymValue(img, t, SymOf(img, t, i));
            (r.Some? <==> Defined(img, t, i)) && (r.Some? ==> r.value == ValueOf(img, t, i))
  {
    hide SymOf, SymPtr, EntryOf, WordAt, Le32;
    SymPtrIs(img, t, i);
    var p := SymPtr(|img|, t, SymOf(img, t, i));
    if p.Some? { WordIs(img, p.value + 4); }
  }

  lemma GoodIs(img: seq<byte>, t: Tables, i: nat)
    requires Fits(img, t) && i < t.count
    ensures Good(img, t, i) <==> Doable(img, t, i)
  {
    hide RelAt, SymValue, Defined, OffsetOf, KindOf, SymOf;
    RelIs(img, t, i);
    SymIs(img, t, i);
  }

  lemma TouchesIs(img: seq<byte>, t: Tables, i: nat, p: int)
    requires Fits(img, t) && i < t.count && Doable(img, t, i)
    ensures Touches(img, t, i, p) <==> Target(img, t, i, p)
  {
    hide RelAt, OffsetOf, KindOf, SymOf, Defined;
    RelIs(img, t, i);
  }

  // ---------------------------------------------------------------- the sums

  lemma U32Congruent(x: int)
    ensures Congruent(U32(x), x)
  {
    assert Shifted(U32(x), x, -(x / 0x1_0000_0000));
  }

  lemma CongruentPlus(a: int, b: int, c: int)
    requires Congruent(a, b)
    ensures Congruent(a + c, b + c)
  {
    var q :| Shifted(a, b, q);
    assert Shifted(a + c, b + c, q);
  }

  lemma SumsMeant(kind: nat, s: nat, w: nat, bias: nat, offset: nat)
    ensures var r := NewWord(kind, s, w, bias, offset);
            && (kind == 8 ==> Congruent(r, w + bias))
            && (kind == 1 ==> Congruent(r, bias + s + w))
            && (kind == 2 ==> Congruent(r + (bias + offset), bias + s + w))
            && (kind in {6, 7} ==> Congruent(r, bias + s))
  {
    hide U32, Congruent;
    U32Congruent(w + bias);
    U32Congruent(bias + s);
    U32Add(bias + s, w);
    U32Congruent(bias + s + w);
    PcRelative(bias + s, w, bias + offset);
    U32Congruent(bias + s + w - (bias + offset));
    CongruentPlus(U32(bias + s + w - (bias + offset)), bias + s + w - (bias + offset), bias + offset);
    assert bias + s + w - (bias + offset) + (bias + offset) == bias + s + w;
  }

  lemma MeantIsLaw(img: seq<byte>, t: Tables, bias: nat, i: nat, out: seq<byte>)
    requires Fits(img, t) && i < t.count && Meant(img, t, bias, i, out)
    ensures Doable(img, t, i) && Law(img, t, bias, i, out)
  {
    hide RelAt, SymValue, NewWord, Congruent, Defined, OffsetOf, KindOf, SymOf, ValueOf, WordAt, Le32, Doable, Good;
    GoodIs(img, t, i);
    RelIs(img, t, i);
    SymIs(img, t, i);
    DoableFits(img, t, i);
    var at, s := OffsetOf(img, t, i) - t.base, SymValue(img, t, SymOf(img, t, i));
    WordIs(img, at);
    WordIs(out, at);
    SumsMeant(KindOf(img, t, i), if s.Some? then s.value else 0, WordAt(img, at), bias, OffsetOf(img, t, i));
  }

  lemma DoableFits(img: seq<byte>, t: Tables, i: nat)
    requires Fits(img, t) && i < t.count && Doable(img, t, i)
    ensures 0 <= OffsetOf(img, t, i) - t.base && OffsetOf(img, t, i) - t.base + 4 <= |img|
    ensures KindOf(img, t, i) in {1, 2, 6, 7} ==> Defined(img, t, i)
  {
  }

  /** The loop succeeds if and only if every relocation can be carried out; then each word named holds its
      sum modulo 2^32, and every other byte of the image is as it was. */
  lemma RelocationLaw(img: seq<byte>, t: Tables, bias: nat)
    requires Fits(img, t) && Separate(img, t)
    ensures Apply(img, t, bias, 0).ok <==> forall i :: 0 <= i < t.count ==> Doable(img, t, i)
    ensures Apply(img, t, bias, 0).ok ==>
              var out := Apply(img, t, bias, 0).img;
              && (forall i :: 0 <= i < t.count ==> Doable(img, t, i) && Law(img, t, bias, i, out))
              && (forall p :: 0 <= p < |img| && (forall i :: 0 <= i < t.count ==> !Target(img, t, i, p)) ==>
                    out[p] == img[p])
  {
    hide Separate, Apply, Good, Doable, Law, Meant, Target, Touches;
    ProgressNone(img, t, bias);
    ApplyMeans(img, t, bias, 0, img);
    forall i | 0 <= i < t.count
      ensures Good(img, t, i) <==> Doable(img, t, i)
    {
      GoodIs(img, t, i);
    }
    var r := Apply(img, t, bias, 0);
    if r.ok {
      forall i | 0 <= i < t.count
        ensures Doable(img, t, i) && Law(img, t, bias, i, r.img)
      {
        assert Meant(img, t, bias, i, r.img);
        MeantIsLaw(img, t, bias, i, r.img);
      }
      forall p | 0 <= p < |img| && (forall i :: 0 <= i < t.count ==> !Target(img, t, i, p))
        ensures r.img[p] == img[p]
      {
        UntargetedPristine(img, t, p);
      }
    }
  }

  lemma UntargetedPristine(img: seq<byte>, t: Tables, p: int)
    requires Fits(img, t) && forall i :: 0 <= i < t.count ==> Doable(img, t, i) && !Target(img, t, i, p)
    ensures Pristine(img, t, t.count, p)
  {
    hide Doable, Target, Touches;
    forall i | 0 <= i < t.count
      ensures !Touches(img, t, i, p)
    {
      TouchesIs(img, t, i, p);
    }
  }

  // ---------------------------------------------------------------- tables and words that overlap

  /** `out` is `img` with relocation `i` carried out: its word by the law, every other byte as it was. */
  ghost predicate Stepped(img: seq<byte>, t: Tables, bias: nat, i: nat, out: seq<byte>)
    requires Fits(img, t) && i < t.count
  {
    && |out| == |img| && Doable(img, t, i) && Law(img, t, bias, i, out)
    && forall p :: 0 <= p < |img| && !Target(img, t, i, p) ==> out[p] == img[p]
  }

  lemma TurnLaw(img: seq<byte>, t: Tables, bias: nat, i: nat)
    requires Fits(img, t) && i < t.count
    ensures var r := Turn(img, t, bias, i);
            if Doable(img, t, i) then r.ok && Stepped(img, t, bias, i, r.img) else !r.ok && r.img == img
  {
    hide RelAt, SymValue, NewWord, Enc32, Splice, Le32, Law, Doable, Target, Touches, Final;
    GoodIs(img, t, i);
    if Good(img, t, i) {
      TurnWrites(img, t, bias, i);
      var out := Turn(img, t, bias, i).img;
      MeantIsLaw(img, t, bias, i, out);
      forall p | 0 <= p < |img| && !Target(img, t, i, p)
        ensures out[p] == img[p]
      {
        TouchesIs(img, t, i, p);
      }
    }
  }

  lemma TurnWrites(img: seq<byte>, t: Tables, bias: nat, i: nat)
    requires Fits(img, t) && i < t.count && Good(img, t, i)
    ensures var r := Turn(img, t, bias, i);
            && r.ok && Meant(img, t, bias, i, r.img)
            && forall p :: 0 <= p < |img| && !Touches(img, t, i, p) ==> r.img[p] == img[p]
  {
    hide RelAt, SymValue, Enc32, Le32, Splice, U32;
    var r := RelAt(img, t, i);
    if r.kind != 0 { Patched4(img, r.offset - t.base, Final(img, t, bias, i)); }
  }

  lemma Patched4(img: seq<byte>, at: nat, w: nat)
    requires at + 4 <= |img| && w < TWO32
    ensures var out := Splice(img, at, Enc32(w));
            && |out| == |img| && Le32(out, at) == w
            && forall p :: 0 <= p < |img| && !(at <= p < at + 4) ==> out[p] == img[p]
  {
    var out := Splice(img, at, Enc32(w));
    assert out[at..at + 4] == Enc32(w);
  }

  /** Whatever overlaps, the loop is a chain of images: each relocation in turn is carried out on the image
      left by those before it, up to the first that cannot be, and the loop succeeds if and only if there is
      none. */
  lemma {:induction false} ApplyLaw(img: seq<byte>, t: Tables, bias: nat, i: nat) returns (chain: seq<seq<byte>>)
    requires Fits(img, t) && i <= t.count
    ensures 0 < |chain| <= t.count - i + 1 && chain[0] == img && chain[|chain| - 1] == Apply(img, t, bias, i).img
    ensures forall k :: 0 <= k < |chain| ==> |chain[k]| == |img|
    ensures forall k, next :: 0 <= k && next == k + 1 < |chain| ==> Stepped(chain[k], t, bias, i + k, chain[next])
    ensures Apply(img, t, bias, i).ok <==> |chain| == t.count - i + 1
    ensures !Apply(img, t, bias, i).ok ==> !Doable(Apply(img, t, bias, i).img, t, i + |chain| - 1)
    decreases t.count - i
  {
    hide Turn, Stepped, Doable;
    if i == t.count { return [img]; }
    TurnLaw(img, t, bias, i);
    var s := Turn(img, t, bias, i);
    if !s.ok { return [img]; }
    var rest := ApplyLaw(s.img, t, bias, i + 1);
    chain := [img] + rest;
    forall k, next | 0 <= k && next == k + 1 < |chain|
      ensures Stepped(chain[k], t, bias, i + k, chain[next])
    {
      if k > 0 {
        assert chain[k] == rest[k - 1] && chain[next] == rest[next - 1];
        assert Stepped(rest[k - 1], t, bias, i + 1 + (k - 1), rest[next - 1]);
      }
    }
  }

  // ---------------------------------------------------------------- from the dynamic section

  /** Entry `i` of the dynamic section at `off` has this tag. */
  ghost predicate Tagged(img: seq<byte>, off: nat, i: nat, tag: nat) {
    off + 8 * i + 8 <= |img| && WordAt(img, off + 8 * i) == tag
  }

  /** The section has `n` entries in front of the first DT_NULL, or `n` in all. */
  ghost predicate Length(img: seq<byte>, off: nat, all: nat, n: nat) {
    && n <= all && off + 8 * all <= |img|
    && (n < all ==> Tagged(img, off, n, 0)) && forall k :: 0 <= k < n ==> !Tagged(img, off, k, 0)
  }

  /** `v` is the value of the last of the first `n` entries with the tag, `none` if there is no such
      entry. */
  ghost predicate Says(img: seq<byte>, off: nat, n: nat, tag: nat, none: nat, v: nat) {
    if forall k :: 0 <= k < n ==> !Tagged(img, off, k, tag) then v == none
    else exists k :: 0 <= k < n && Tagged(img, off, k, tag) && v == WordAt(img, off + 8 * k + 4)
                     && forall j :: k < j < n ==> !Tagged(img, off, j, tag)
  }

  lemma TagIs(img: seq<byte>, off: nat, i: nat, tag: nat)
    requires off + 8 * i + 8 <= |img|
    ensures Tag(img, off, i) == tag <==> Tagged(img, off, i, tag)
    ensures Val(img, off, i) == WordAt(img, off + 8 * i + 4)
  {
    WordIs(img, off + 8 * i);
    WordIs(img, off + 8 * i + 4);
  }

  lemma {:induction false} LastSays(img: seq<byte>, off: nat, n: nat, tag: nat, none: nat)
    requires off + 8 * n <= |img|
    ensures Says(img, off, n, tag, none, LastOf(img, off, n, tag, none))
  {
    hide Tagged, WordAt, Tag, Val;
    if n > 0 {
      TagIs(img, off, n - 1, tag);
      LastSays(img, off, n - 1, tag, none);
      if !Tagged(img, off, n - 1, tag) && !(forall k :: 0 <= k < n ==> !Tagged(img, off, k, tag)) {
        var k :| 0 <= k < n - 1 && Tagged(img, off, k, tag)
                 && LastOf(img, off, n - 1, tag, none) == WordAt(img, off + 8 * k + 4)
                 && forall j :: k < j < n - 1 ==> !Tagged(img, off, j, tag);
        assert forall j :: k < j < n ==> !Tagged(img, off, j, tag);
      }
    }
  }

  lemma EndsLength(img: seq<byte>, off: nat, all: nat)
    requires off + 8 * all <= |img|
    ensures Length(img, off, all, Ends(img, off, 0, all))
  {
    hide Tagged, Tag;
    forall k | 0 <= k < all
      ensures Tag(img, off, k) == 0 <==> Tagged(img, off, k, 0)
    {
      TagIs(img, off, k, 0);
    }
  }

  /** What the dynamic section says, told on its bytes. */
  ghost predicate Announces(img: seq<byte>, off: nat, n: nat, d: Dyn) {
    && Says(img, off, n, 17, 0, d.rel) && Says(img, off, n, 18, 0, d.relSz) && Says(img, off, n, 19, 8, d.relEnt)
    && Says(img, off, n, 6, 0, d.symtab) && Says(img, off, n, 11, 16, d.symEnt)
    && (d.rela <==>
          exists k :: 0 <= k < n && (Tagged(img, off, k, 7) || Tagged(img, off, k, 8) || Tagged(img, off, k, 9)))
  }

  lemma NotedAnnounces(img: seq<byte>, off: nat, n: nat)
    requires off + 8 * n <= |img|
    ensures Announces(img, off, n, Noted(img, off, n))
  {
    hide Tagged, Says, Tag, LastOf, Noted;
    NotedMeans(img, off, n);
    LastSays(img, off, n, 17, 0);
    LastSays(img, off, n, 18, 0);
    LastSays(img, off, n, 19, 8);
    LastSays(img, off, n, 6, 0);
    LastSays(img, off, n, 11, 16);
    forall k | 0 <= k < n
      ensures Tag(img, off, k) in {7, 8, 9} <==>
              Tagged(img, off, k, 7) || Tagged(img, off, k, 8) || Tagged(img, off, k, 9)
    {
      TagIs(img, off, k, 7);
      TagIs(img, off, k, 8);
      TagIs(img, off, k, 9);
    }
  }

  /** The tables relocation works from: refused for RELA, another entry size, a table cut short or one
      outside the image; nothing to do without a size. */
  lemma PlanTells(img: seq<byte>, base: nat, h: DynHeader) returns (n: nat, d: Dyn)
    ensures var inside := base <= h.vaddr && h.vaddr + h.memsz <= base + |img|;
            var r := PlanOf(img, base, Some(h));
            && (!inside ==> r == Refused)
            && (inside ==>
                  && Length(img, h.vaddr - base, h.memsz / 8, n) && Announces(img, h.vaddr - base, n, d)
                  && r == if d.rela then Refused
                          else if d.relSz == 0 then Nothing
                          else if d.relEnt == 8 && d.relSz % 8 == 0 && base <= d.rel && d.rel + d.relSz <= base + |img|
                          then Plan(Tables(base, d.rel - base, d.relSz / 8, d.symtab, d.symEnt))
                          else Refused)
  {
    hide Noted, Ends, Length, Announces;
    n, d := 0, NO_DYN;
    if base <= h.vaddr && h.vaddr + h.memsz <= base + |img| {
      var off := h.vaddr - base;
      n := Ends(img, off, 0, h.memsz / 8);
      d := Noted(img, off, n);
      EndsLength(img, off, h.memsz / 8);
      NotedAnnounces(img, off, n);
    }
  }
}
