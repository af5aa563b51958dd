/** Block headers as words of memory, and what each pointer update does to the list they hold. */
module HeapWords {
  import opened HeapBlocks

  /** Mapped memory: a value for every word address that has a page behind it. */
  type Memory = map<int, int>

  /** The header at `a`: size, next, prev and free words. */
  ghost predicate Header(m: Memory, a: int, size: int, next: int, prev: int, free: int) {
    && a in m && a + 4 in m && a + 8 in m && a + 12 in m
    && m[a] == size && m[a + 4] == next && m[a + 8] == prev && m[a + 12] == free
  }

  ghost function Flag(f: bool): int { if f then 1 else 0 }

  /** The pointer to block `k`, null past either end. */
  ghost function At(bs: seq<Block>, k: int): int { if 0 <= k < |bs| then bs[k].addr else 0 }

  ghost predicate Node(m: Memory, bs: seq<Block>, k: int)
    requires 0 <= k < |bs|
  {
    Header(m, bs[k].addr, bs[k].size, At(bs, k + 1), At(bs, k - 1), Flag(bs[k].free))
  }

  /** Memory holds the list, doubly linked. */
  ghost predicate Linked(m: Memory, bs: seq<Block>) { forall k :: 0 <= k < |bs| ==> Node(m, bs, k) }

  /** Every word of `[lo, hi)` is mapped. */
  ghost predicate Mapped(m: Memory, lo: int, hi: int) { forall a :: lo <= a < hi && a % 4 == 0 ==> a in m }

  /** No payload of the blocks `held` contains the word `w`. */
  ghost predicate Clear(held: set<Block>, w: int) {
    forall b :: b in held ==> !(b.Payload() <= w < b.End())
  }

  /** The payload words of the blocks `held` are as before. */
  ghost predicate Spared(m: Memory, m': Memory, held: set<Block>) {
    forall w :: w in m && !Clear(held, w) ==> w in m' && m'[w] == m[w]
  }

  // ---------------------------------------------------------------- which words are safe to write

  lemma HeaderClear(bs: seq<Block>, base: int, curr: int, i: nat, w: int)
    requires Ordered(bs, base, curr) && i < |bs| && bs[i].addr <= w < bs[i].addr + 16
    ensures Clear(Used(bs), w)
  {
    forall b | b in Used(bs)
      ensures !(b.Payload() <= w < b.End())
    {
      var j :| 0 <= j < |bs| && bs[j] == b;
      if j < i {
        SegPair(bs, base, curr, j, i);
      } else if i < j {
        SegPair(bs, base, curr, i, j);
        SaneAt(bs, base, curr, i);
      }
    }
  }

  lemma FreeBlockClear(bs: seq<Block>, base: int, curr: int, i: nat, w: int)
    requires Ordered(bs, base, curr) && i < |bs| && bs[i].free && bs[i].addr <= w < bs[i].End()
    ensures Clear(Used(bs), w)
  {
    forall b | b in Used(bs)
      ensures !(b.Payload() <= w < b.End())
    {
      var j :| 0 <= j < |bs| && bs[j] == b;
      if j < i { SegPair(bs, base, curr, j, i); } else { SegPair(bs, base, curr, i, j); }
    }
  }

  lemma BeyondClear(bs: seq<Block>, base: int, curr: int, w: int)
    requires Ordered(bs, base, curr) && curr <= w
    ensures Clear(Used(bs), w)
  {
    forall b | b in Used(bs)
      ensures b.End() <= curr
    {
      var j :| 0 <= j < |bs| && bs[j] == b;
      SaneAt(bs, base, curr, j);
    }
  }

  lemma SparedThen(m: Memory, m': Memory, m'': Memory, held: set<Block>, more: set<Block>)
    requires Spared(m, m', held) && Spared(m', m'', more) && more <= held
    ensures Spared(m, m'', more)
  {
    hide Clear;
    forall w | w in m && !Clear(more, w)
      ensures w in m'' && m''[w] == m[w]
    {
      ClearLess(held, more, w);
    }
  }

  lemma ClearLess(held: set<Block>, more: set<Block>, w: int)
    requires more <= held
    ensures Clear(held, w) ==> Clear(more, w)
  {
  }

  // ---------------------------------------------------------------- splitting

  /** The words a split of the block at `a` writes: a header at `x` for the `rest` bytes behind the
      first `s`, spliced in before the block at `n`. */
  function SplitWords(m: Memory, a: int, x: int, s: int, rest: int, n: int): Memory {
    var m1 := m[x := rest][x + 12 := 1][x + 8 := a][x + 4 := n];
    var m2 := if n == 0 then m1 else m1[n + 8 := x];
    m2[a + 4 := x][a := s]
  }

  lemma SplitElsewhere(m: Memory, a: int, x: int, s: int, rest: int, n: int, y: int, size: int, next: int, prev: int,
                       free: int)
    requires Header(m, y, size, next, prev, free)
    requires (y + 16 <= a || a + 16 <= y) && (y + 16 <= x || x + 16 <= y) && (n != 0 ==> y + 16 <= n || n + 16 <= y)
    ensures Header(SplitWords(m, a, x, s, rest, n), y, size, next, prev, free)
  {
  }

  lemma SplitHere(m: Memory, a: int, x: int, s: int, rest: int, n: int, size: int, prev: int, free: int)
    requires Header(m, a, size, n, prev, free) && a + 16 <= x && (n != 0 ==> x + 16 <= n)
    ensures Header(SplitWords(m, a, x, s, rest, n), a, s, x, prev, free)
    ensures Header(SplitWords(m, a, x, s, rest, n), x, rest, n, a, 1)
  {
  }

  lemma SplitNext(m: Memory, a: int, x: int, s: int, rest: int, n: int, size: int, next: int, free: int)
    requires n != 0 && Header(m, n, size, next, a, free) && a + 16 <= x && x + 16 <= n
    ensures Header(SplitWords(m, a, x, s, rest, n), n, size, next, x, free)
  {
  }

  lemma SplitLinks(m: Memory, bs: seq<Block>, base: int, curr: int, i: nat, s: int)
    requires Linked(m, bs) && Ordered(bs, base, curr) && base > 0
    requires i < |bs| && 0 < s && s % 4 == 0 && s + 16 < bs[i].size && bs[i].free
    ensures var x := bs[i].addr + 16 + s;
            Linked(SplitWords(m, bs[i].addr, x, s, bs[i].size - s - 16, At(bs, i + 1)), SplitAt(bs, i, s))
  {
    hide Header, SplitWords, Ordered, Linked;
    var a, x, rest, n := bs[i].addr, bs[i].addr + 16 + s, bs[i].size - s - 16, At(bs, i + 1);
    var m', bs' := SplitWords(m, a, x, s, rest, n), SplitAt(bs, i, s);
    forall k | 0 <= k < |bs'|
      ensures Node(m', bs', k)
    {
      SplitNode(m, bs, base, curr, i, s, k);
    }
    AllLinked(m', bs');
  }

  lemma AllLinked(m: Memory, bs: seq<Block>)
    requires forall k :: 0 <= k < |bs| ==> Node(m, bs, k)
    ensures Linked(m, bs)
  {
  }

  lemma NodeOf(m: Memory, bs: seq<Block>, k: nat)
    requires Linked(m, bs) && k < |bs|
    ensures Node(m, bs, k)
  {
  }

  lemma Gap(bs: seq<Block>, base: int, curr: int, i: nat, j: nat)
    requires Ordered(bs, base, curr) && base > 0 && i < j < |bs|
    ensures 0 < base <= bs[i].addr && 0 < bs[i].size && bs[i].End() <= bs[j].addr
  {
    SegPair(bs, base, curr, i, j);
    SaneAt(bs, base, curr, i);
  }

  lemma SplitNode(m: Memory, bs: seq<Block>, base: int, curr: int, i: nat, s: int, k: nat)
    requires Linked(m, bs) && Ordered(bs, base, curr) && base > 0
    requires i < |bs| && 0 < s && s % 4 == 0 && s + 16 < bs[i].size && bs[i].free && k <= |bs|
    ensures var x := bs[i].addr + 16 + s;
            Node(SplitWords(m, bs[i].addr, x, s, bs[i].size - s - 16, At(bs, i + 1)), SplitAt(bs, i, s), k)
  {
    hide Header, SplitWords, Ordered, Linked;
    var a, x, rest, n := bs[i].addr, bs[i].addr + 16 + s, bs[i].size - s - 16, At(bs, i + 1);
    var m', bs' := SplitWords(m, a, x, s, rest, n), SplitAt(bs, i, s);
    if i + 1 < |bs| { Gap(bs, base, curr, i, i + 1); }
    if k < i {
      NodeOf(m, bs, k);
      Gap(bs, base, curr, k, i);
      SplitElsewhere(m, a, x, s, rest, n, bs[k].addr, bs[k].size, At(bs, k + 1), At(bs, k - 1), Flag(bs[k].free));
      assert bs'[k] == bs[k] && At(bs', k + 1) == At(bs, k + 1) && At(bs', k - 1) == At(bs, k - 1);
    } else if k <= i + 1 {
      NodeOf(m, bs, i);
      SplitHere(m, a, x, s, rest, n, bs[i].size, At(bs, i - 1), 1);
      assert At(bs', i - 1) == At(bs, i - 1) && At(bs', i + 1) == x && At(bs', i + 2) == n && At(bs', i) == a;
    } else if k == i + 2 {
      NodeOf(m, bs, i + 1);
      SplitNext(m, a, x, s, rest, n, bs[i + 1].size, At(bs, i + 2), Flag(bs[i + 1].free));
      assert bs'[k] == bs[i + 1] && At(bs', k + 1) == At(bs, i + 2) && At(bs', k - 1) == x;
    } else {
      NodeOf(m, bs, k - 1);
      Gap(bs, base, curr, i, k - 1);
      Gap(bs, base, curr, i + 1, k - 1);
      SplitElsewhere(m, a, x, s, rest, n, bs[k - 1].addr, bs[k - 1].size, At(bs, k), At(bs, k - 2),
                     Flag(bs[k - 1].free));
      assert bs'[k] == bs[k - 1] && At(bs', k + 1) == At(bs, k) && At(bs', k - 1) == At(bs, k - 2);
    }
  }

  lemma SplitSpares(m: Memory, bs: seq<Block>, base: int, curr: int, i: nat, s: int)
    requires Linked(m, bs) && Ordered(bs, base, curr) && base > 0
    requires i < |bs| && 0 < s && s % 4 == 0 && s + 16 < bs[i].size && bs[i].free
    ensures var x := bs[i].addr + 16 + s;
            Spared(m, SplitWords(m, bs[i].addr, x, s, bs[i].size - s - 16, At(bs, i + 1)), Used(bs))
  {
    hide Ordered, Linked, Clear, Used;
    var a, x, rest, n := bs[i].addr, bs[i].addr + 16 + s, bs[i].size - s - 16, At(bs, i + 1);
    FreeBlockClear(bs, base, curr, i, a);
    FreeBlockClear(bs, base, curr, i, a + 4);
    FreeBlockClear(bs, base, curr, i, x);
    FreeBlockClear(bs, base, curr, i, x + 4);
    FreeBlockClear(bs, base, curr, i, x + 8);
    FreeBlockClear(bs, base, curr, i, x + 12);
    if i + 1 < |bs| { HeaderClear(bs, base, curr, i + 1, n + 8); }
  }

  // ---------------------------------------------------------------- joining

  /** The words written when the block at `a` takes in the one behind it, `n` coming next. */
  function JoinWords(m: Memory, a: int, total: int, n: int): Memory {
    var m1 := m[a := total][a + 4 := n];
    if n == 0 then m1 else m1[n + 8 := a]
  }

  lemma JoinElsewhere(m: Memory, a: int, total: int, n: int, y: int, size: int, next: int, prev: int, free: int)
    requires Header(m, y, size, next, prev, free)
    requires (y + 16 <= a || a + 16 <= y) && (n != 0 ==> y + 16 <= n || n + 16 <= y)
    ensures Header(JoinWords(m, a, total, n), y, size, next, prev, free)
  {
  }

  lemma JoinHere(m: Memory, a: int, total: int, n: int, size: int, next: int, prev: int, free: int)
    requires Header(m, a, size, next, prev, free) && (n != 0 ==> a + 16 <= n)
    ensures Header(JoinWords(m, a, total, n), a, total, n, prev, free)
  {
  }

  lemma JoinNext(m: Memory, a: int, total: int, n: int, size: int, next: int, prev: int, free: int)
    requires n != 0 && Header(m, n, size, next, prev, free) && a + 16 <= n
    ensures Header(JoinWords(m, a, total, n), n, size, next, a, free)
  {
  }

  lemma JoinLinks(m: Memory, bs: seq<Block>, base: int, curr: int, i: nat)
    requires Linked(m, bs) && Ordered(bs, base, curr) && base > 0 && i + 1 < |bs|
    ensures Linked(JoinWords(m, bs[i].addr, bs[i].size + 16 + bs[i + 1].size, At(bs, i + 2)), JoinAt(bs, i))
  {
    hide Header, JoinWords, Ordered, Linked;
    var m' := JoinWords(m, bs[i].addr, bs[i].size + 16 + bs[i + 1].size, At(bs, i + 2));
    forall k | 0 <= k < |JoinAt(bs, i)|
      ensures Node(m', JoinAt(bs, i), k)
    {
      JoinNode(m, bs, base, curr, i, k);
    }
    AllLinked(m', JoinAt(bs, i));
  }

  lemma JoinNode(m: Memory, bs: seq<Block>, base: int, curr: int, i: nat, k: nat)
    requires Linked(m, bs) && Ordered(bs, base, curr) && base > 0 && i + 1 < |bs| && k < |bs| - 1
    ensures Node(JoinWords(m, bs[i].addr, bs[i].size + 16 + bs[i + 1].size, At(bs, i + 2)), JoinAt(bs, i), k)
  {
    hide Header, JoinWords, Ordered, Linked;
    var a, total, n := bs[i].addr, bs[i].size + 16 + bs[i + 1].size, At(bs, i + 2);
    var bs' := JoinAt(bs, i);
    if i + 2 < |bs| { Gap(bs, base, curr, i, i + 2); }
    if k < i {
      NodeOf(m, bs, k);
      Gap(bs, base, curr, k, i);
      JoinElsewhere(m, a, total, n, bs[k].addr, bs[k].size, At(bs, k + 1), At(bs, k - 1), Flag(bs[k].free));
      assert bs'[k] == bs[k] && At(bs', k + 1) == At(bs, k + 1) && At(bs', k - 1) == At(bs, k - 1);
    } else if k == i {
      NodeOf(m, bs, i);
      JoinHere(m, a, total, n, bs[i].size, At(bs, i + 1), At(bs, i - 1), Flag(bs[i].free));
      assert At(bs', k + 1) == n && At(bs', k - 1) == At(bs, k - 1);
    } else if k == i + 1 {
      NodeOf(m, bs, i + 2);
      JoinNext(m, a, total, n, bs[i + 2].size, At(bs, i + 3), At(bs, i + 1), Flag(bs[i + 2].free));
      assert bs'[k] == bs[i + 2] && At(bs', k + 1) == At(bs, i + 3) && At(bs', k - 1) == a;
    } else {
      NodeOf(m, bs, k + 1);
      Gap(bs, base, curr, i, k + 1);
      Gap(bs, base, curr, i + 2, k + 1);
      JoinElsewhere(m, a, total, n, bs[k + 1].addr, bs[k + 1].size, At(bs, k + 2), At(bs, k), Flag(bs[k + 1].free));
      assert bs'[k] == bs[k + 1] && At(bs', k + 1) == At(bs, k + 2) && At(bs', k - 1) == At(bs, k);
    }
  }

  lemma JoinSpares(m: Memory, bs: seq<Block>, base: int, curr: int, i: nat, total: int)
    requires Ordered(bs, base, curr) && i + 1 < |bs|
    ensures Spared(m, JoinWords(m, bs[i].addr, total, At(bs, i + 2)), Used(bs))
  {
    hide Ordered, Clear, Used;
    HeaderClear(bs, base, curr, i, bs[i].addr);
    HeaderClear(bs, base, curr, i, bs[i].addr + 4);
    if i + 2 < |bs| { HeaderClear(bs, base, curr, i + 2, bs[i + 2].addr + 8); }
  }

  // ---------------------------------------------------------------- one-word updates

  lemma FlagLinks(m: Memory, bs: seq<Block>, base: int, curr: int, i: nat, f: bool)
    requires Linked(m, bs) && Ordered(bs, base, curr) && base > 0 && i < |bs|
    ensures Linked(m[bs[i].addr + 12 := Flag(f)], SetFree(bs, i, f))
    ensures Spared(m, m[bs[i].addr + 12 := Flag(f)], Used(bs))
  {
    hide Ordered, Linked, Used;
    var m', bs' := m[bs[i].addr + 12 := Flag(f)], SetFree(bs, i, f);
    forall k | 0 <= k < |bs'|
      ensures Node(m', bs', k)
    {
      NodeOf(m, bs, k);
      if k < i { Gap(bs, base, curr, k, i); } else if i < k { Gap(bs, base, curr, i, k); }
      assert At(bs', k + 1) == At(bs, k + 1) && At(bs', k - 1) == At(bs, k - 1);
    }
    AllLinked(m', bs');
    HeaderClear(bs, base, curr, i, bs[i].addr + 12);
  }

  lemma GrowLinks(m: Memory, bs: seq<Block>, base: int, curr: int, gap: int)
    requires Linked(m, bs) && Ordered(bs, base, curr) && base > 0 && bs != []
    ensures var t := bs[|bs| - 1];
            && Linked(m[t.addr := t.size + gap], GrowLast(bs, gap))
            && Spared(m, m[t.addr := t.size + gap], Used(bs))
  {
    hide Ordered, Linked, Used;
    var n := |bs| - 1;
    var m', bs' := m[bs[n].addr := bs[n].size + gap], GrowLast(bs, gap);
    forall k | 0 <= k < |bs'|
      ensures Node(m', bs', k)
    {
      NodeOf(m, bs, k);
      if k < n { Gap(bs, base, curr, k, n); }
      assert At(bs', k + 1) == At(bs, k + 1) && At(bs', k - 1) == At(bs, k - 1);
    }
    AllLinked(m', bs');
    HeaderClear(bs, base, curr, n, bs[n].addr);
  }

  // ---------------------------------------------------------------- appending

  /** The words written when a block at `a` is put behind the tail `t` (0 for none). */
  function AppendWords(m: Memory, a: int, size: int, f: int, t: int): Memory {
    var m1 := m[a := size][a + 12 := f][a + 8 := t][a + 4 := 0];
    if t == 0 then m1 else m1[t + 4 := a]
  }

  lemma AppendElsewhere(m: Memory, a: int, size: int, f: int, t: int, y: int, s: int, next: int, prev: int, free: int)
    requires Header(m, y, s, next, prev, free) && y + 16 <= a && (t != 0 ==> y == t || y + 16 <= t)
    ensures Header(AppendWords(m, a, size, f, t), y, s, if t != 0 && y == t then a else next, prev, free)
  {
  }

  lemma AppendHere(m: Memory, a: int, size: int, f: int, t: int)
    requires t != 0 ==> t + 16 <= a
    ensures Header(AppendWords(m, a, size, f, t), a, size, 0, t, f)
  {
  }

  lemma AppendLinks(m: Memory, bs: seq<Block>, base: int, curr: int, b: Block)
    requires Linked(m, bs) && Ordered(bs, base, curr) && base > 0 && curr <= b.addr
    ensures Linked(AppendWords(m, b.addr, b.size, Flag(b.free), At(bs, |bs| - 1)), bs + [b])
    ensures Spared(m, AppendWords(m, b.addr, b.size, Flag(b.free), At(bs, |bs| - 1)), Used(bs))
  {
    hide Ordered, Linked, Header, AppendWords;
    var t := At(bs, |bs| - 1);
    var m', bs' := AppendWords(m, b.addr, b.size, Flag(b.free), t), bs + [b];
    if bs != [] { Lower(bs, base, curr, |bs| - 1); }
    forall k | 0 <= k < |bs'|
      ensures Node(m', bs', k)
    {
      if k == |bs| {
        AppendHere(m, b.addr, b.size, Flag(b.free), t);
        assert At(bs', k + 1) == 0 && At(bs', k - 1) == t;
      } else {
        NodeOf(m, bs, k);
        Lower(bs, base, curr, k);
        if k < |bs| - 1 { Gap(bs, base, curr, k, |bs| - 1); }
        AppendElsewhere(m, b.addr, b.size, Flag(b.free), t, bs[k].addr, bs[k].size, At(bs, k + 1), At(bs, k - 1),
                        Flag(bs[k].free));
        assert At(bs', k - 1) == At(bs, k - 1) && At(bs', k + 1) == if k == |bs| - 1 then b.addr else At(bs, k + 1);
      }
    }
    AllLinked(m', bs');
    AppendSpares(m, bs, base, curr, b);
  }

  lemma Lower(bs: seq<Block>, base: int, curr: int, k: nat)
    requires Ordered(bs, base, curr) && base > 0 && k < |bs|
    ensures 0 < base <= bs[k].addr && 0 < bs[k].size && bs[k].End() <= curr
  {
    SaneAt(bs, base, curr, k);
  }

  lemma AppendSpares(m: Memory, bs: seq<Block>, base: int, curr: int, b: Block)
    requires Ordered(bs, base, curr) && base > 0 && curr <= b.addr
    ensures Spared(m, AppendWords(m, b.addr, b.size, Flag(b.free), At(bs, |bs| - 1)), Used(bs))
  {
    hide Ordered, Clear, Used;
    BeyondClear(bs, base, curr, b.addr);
    BeyondClear(bs, base, curr, b.addr + 4);
    BeyondClear(bs, base, curr, b.addr + 8);
    BeyondClear(bs, base, curr, b.addr + 12);
    if bs != [] { HeaderClear(bs, base, curr, |bs| - 1, bs[|bs| - 1].addr + 4); }
  }
}
