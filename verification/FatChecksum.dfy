/** The checksum that ties a long name to its entry, told as a rotating sum of bytes, and which entries
    the listing gives a long name, whoever wrote the fragments. */
module FatChecksum {
  import opened Bytes
  import opened Registers
  import opened FatDisk
  import opened FatLfn
  import opened FatDir

  /** The sum in an 8-bit register: rotate right by one, add the next byte. */
  function Fold(short: seq<byte>): bv8 {
    if short == [] then 0 else Plus(Rotated(Fold(short[..|short| - 1])), Counted(short[|short| - 1]))
  }

  lemma {:induction false} ChecksumIsFold(short: seq<byte>)
    ensures Checksum(short) == Value(Fold(short))
  {
    if short == [] {
      PlusSteps(0, 0);
    } else {
      hide Value, Plus, Counted, Rotated;
      var sum, last := Fold(short[..|short| - 1]), short[|short| - 1];
      ChecksumIsFold(short[..|short| - 1]);
      RotatedIs(sum);
      CountedIs(last);
      PlusIs(Rotated(sum), Counted(last));
    }
  }

  /** The checksum of "README  TXT". */
  lemma ReadmeSum()
    ensures Checksum([0x52, 0x45, 0x41, 0x44, 0x4D, 0x45, 0x20, 0x20, 0x54, 0x58, 0x54]) == 0x73
  {
    ReadmeHalf();
    hide Checksum;
    var a := [0x52, 0x45, 0x41, 0x44, 0x4D, 0x45];
    ChecksumStep(a, 0x20, 0x0B, 0xA5);
    ChecksumStep(a + [0x20], 0x20, 0xA5, 0xF2);
    ChecksumStep(a + [0x20] + [0x20], 0x54, 0xF2, 0xCD);
    ChecksumStep(a + [0x20] + [0x20] + [0x54], 0x58, 0xCD, 0x3E);
    ChecksumStep(a + [0x20] + [0x20] + [0x54] + [0x58], 0x54, 0x3E, 0x73);
    assert a + [0x20] + [0x20] + [0x54] + [0x58] + [0x54]
        == [0x52, 0x45, 0x41, 0x44, 0x4D, 0x45, 0x20, 0x20, 0x54, 0x58, 0x54];
  }

  lemma ReadmeHalf()
    ensures Checksum([0x52, 0x45, 0x41, 0x44, 0x4D, 0x45]) == 0x0B
  {
    assert Checksum([]) == 0;
    hide Checksum;
    ChecksumStep([], 0x52, 0, 0x52);
    ChecksumStep([] + [0x52], 0x45, 0x52, 0x6E);
    ChecksumStep([] + [0x52] + [0x45], 0x41, 0x6E, 0x78);
    ChecksumStep([] + [0x52] + [0x45] + [0x41], 0x44, 0x78, 0x80);
    ChecksumStep([] + [0x52] + [0x45] + [0x41] + [0x44], 0x4D, 0x80, 0x8D);
    ChecksumStep([] + [0x52] + [0x45] + [0x41] + [0x44] + [0x4D], 0x45, 0x8D, 0x0B);
    assert [] + [0x52] + [0x45] + [0x41] + [0x44] + [0x4D] + [0x45] == [0x52, 0x45, 0x41, 0x44, 0x4D, 0x45];
  }

  lemma ChecksumStep(front: seq<byte>, b: byte, sum: nat, next: nat)
    requires Checksum(front) == sum && next == ((if sum % 2 == 1 then 0x80 else 0) + sum / 2 + b as int) % 256
    ensures front + [b] != [] && Checksum(front + [b]) == next
  {
    assert (front + [b])[..|front|] == front;
  }

  /** Names that differ in exactly one byte have different checksums. */
  lemma {:induction false} OneByteTells(a: seq<byte>, b: seq<byte>, k: nat)
    requires |a| == |b| && k < |a| && a[k] != b[k] && forall i :: 0 <= i < |a| && i != k ==> a[i] == b[i]
    ensures Checksum(a) != Checksum(b)
  {
    var n := |a| - 1;
    ChecksumTurns(a);
    ChecksumTurns(b);
    hide Checksum, Turned;
    if k < n {
      OneByteTells(a[..n], b[..n], k);
      SumTells(Checksum(a[..n]) as int, Checksum(b[..n]) as int, a[n] as int);
    } else {
      assert a[..n] == b[..n];
      ByteTells(Checksum(a[..n]) as int, a[n] as int, b[n] as int);
    }
  }

  lemma ChecksumTurns(a: seq<byte>)
    requires a != []
    ensures Checksum(a) as int == Turned(Checksum(a[..|a| - 1]) as int, a[|a| - 1] as int)
  {
  }

  function Turned(sum: int, b: int): int { ((if sum % 2 == 1 then 0x80 else 0) + sum / 2 + b) % 256 }

  lemma SumTells(x: int, y: int, b: int)
    requires 0 <= x < 256 && 0 <= y < 256 && x != y
    ensures Turned(x, b) != Turned(y, b)
  {
  }

  lemma ByteTells(x: int, b: int, c: int)
    requires 0 <= b < 256 && 0 <= c < 256 && b != c
    ensures Turned(x, b) != Turned(x, c)
  {
  }

  // ---------------------------------------------------------------- which entries get a long name

  /** The slots `b - m`, ..., `b - 1` are the first `m` of `n` fragments in storage order: parts count down
      from `n`, and the first alone carries the last-part flag. */
  ghost predicate Begun(root: seq<Slot>, b: nat, n: nat, m: nat) {
    && 1 <= m <= n <= 19 && m <= b <= |root|
    && forall i :: b - m <= i < b ==> IsPart(root[i], n - (i - (b - m)), i == b - m)
  }

  predicate IsPart(s: Slot, part: nat, first: bool) {
    s[0] != 0xE5 && s[11] == 0x0F && s[0] % 32 == part && (s[0] / 64 % 2 == 1 <==> first)
  }

  /** Characters `13 * p` up to `13 * p + 13` of the name buffer. */
  function Piece(name: NameBuffer, p: nat): (r: seq<byte>)
    requires p < 19
  {
    name[13 * p..13 * p + 13]
  }

  /** The name buffer with those fragments in place: the last fragment read holds the earliest text. */
  ghost predicate Gathers(root: seq<Slot>, b: nat, n: nat, m: nat, name: NameBuffer)
    requires m <= n <= 19 && m <= b <= |root|
  {
    && (forall i :: b - m <= i < b ==> Piece(name, n - 1 - (i - (b - m))) == Decode(root[i], 0, false))
    && (forall k :: 13 * n <= k < NAME_BUFFER ==> name[k] == 0)
  }

  /** The decoder's state in front of slot `b`, told from the slots. */
  ghost predicate Explains(root: seq<Slot>, b: nat, st: LfnState, n: nat) {
    match st
    case Idle => forall n': nat, m': nat :: !Begun(root, b, n', m')
    case Collecting(sum, expected, name, slots) =>
      && expected < n && Begun(root, b, n, n - expected) && sum == root[b - (n - expected)][13]
      && Gathers(root, b, n, n - expected, name)
      && forall n': nat, m': nat :: Begun(root, b, n', m') ==> n' == n && m' == n - expected
  }

  /** One slot behind the last decides how a run goes on. */
  lemma BegunStep(root: seq<Slot>, b: nat, n: nat, m: nat)
    requires b < |root|
    ensures Begun(root, b + 1, n, m) <==> GoesOn(root, b, n, m)
  {
    hide IsPart;
  }

  /** Slot `b` starts a run, or continues one. */
  ghost predicate GoesOn(root: seq<Slot>, b: nat, n: nat, m: nat)
    requires b < |root|
  {
    if m == 1 then 1 <= n <= 19 && IsPart(root[b], n, true)
    else m >= 2 && Begun(root, b, n, m - 1) && m <= n && IsPart(root[b], n - (m - 1), false)
  }

  lemma BegunEnds(root: seq<Slot>, b: nat, n: nat, m: nat)
    requires Begun(root, b, n, m)
    ensures b > 0 && IsPart(root[b - 1], n - m + 1, m == 1)
  {
  }

  lemma {:induction false} StateExplained(root: seq<Slot>, b: nat) returns (n: nat)
    requires b <= |root|
    ensures Explains(root, b, StateAt(root, b), n)
  {
    hide StateAt, Next, Explains;
    if b == 0 {
      n := 0;
      StartExplained(root);
    } else {
      StateAtStep(root, b);
      var n0 := StateExplained(root, b - 1);
      n := NextExplained(root, b - 1, StateAt(root, b - 1), n0);
    }
  }

  lemma StartExplained(root: seq<Slot>)
    ensures Explains(root, 0, StateAt(root, 0), 0)
  {
  }

  lemma StateAtStep(root: seq<Slot>, b: nat)
    requires 0 < b <= |root|
    ensures StateAt(root, b) == Next(StateAt(root, b - 1), root[b - 1], b - 1)
  {
  }

  lemma PieceSpliced(name: NameBuffer, p: nat, w: seq<byte>, q: nat)
    requires p < 19 && q < 19 && |w| == 13
    ensures Piece(Splice(name, 13 * p, w), q) == if q == p then w else Piece(name, q)
  {
    if q < p {
      assert 13 * q + 13 <= 13 * p;
    } else if q > p {
      assert 13 * p + 13 <= 13 * q;
    }
  }

  lemma GathersFirst(root: seq<Slot>, b: nat, n: nat)
    requires b < |root| && 1 <= n <= 19
    ensures Gathers(root, b + 1, n, 1, Splice(Fill(NAME_BUFFER, 0), 13 * (n - 1), Decode(root[b], 0, false)))
  {
    hide Decode, Splice, Piece;
    PieceSpliced(Fill(NAME_BUFFER, 0), n - 1, Decode(root[b], 0, false), n - 1);
  }

  lemma GathersMore(root: seq<Slot>, b: nat, n: nat, m: nat, name: NameBuffer)
    requires b < |root| && 1 <= m < n <= 19 && m <= b && Gathers(root, b, n, m, name)
    ensures Gathers(root, b + 1, n, m + 1, Splice(name, 13 * (n - m - 1), Decode(root[b], 0, false)))
  {
    hide Decode, Splice, Piece;
    var w := Decode(root[b], 0, false);
    var next := Splice(name, 13 * (n - m - 1), w);
    forall i | b - m <= i < b + 1
      ensures Piece(next, n - 1 - (i - (b - m))) == Decode(root[i], 0, false)
    {
      PieceSpliced(name, n - m - 1, w, n - 1 - (i - (b - m)));
    }
  }

  /** When a fragment is taken up. */
  lemma PushIs(st: LfnState, s: Slot, idx: nat)
    ensures var part, flag := s[0] as int % 32, s[0] as int / 64 % 2 == 1;
            var r := Push(st, s, idx);
            if flag then
              (if 1 <= part <= 19
               then r.Collecting? && r.checksum == s[13] && r.expected == part - 1
                    && r.name == Splice(Fill(NAME_BUFFER, 0), 13 * (part - 1), Decode(s, 0, false))
               else r == Idle)
            else
              (if st.Collecting? && part == st.expected && 1 <= part <= 19
               then r.Collecting? && r.checksum == st.checksum && r.expected == part - 1
                    && r.name == Splice(st.name, 13 * (part - 1), Decode(s, 0, false))
               else r == Idle)
  {
    hide Decode, Splice;
  }

  /** A slot that is no fragment, or one out of turn, ends every run. */
  lemma RunEnds(root: seq<Slot>, b: nat, st: LfnState, n: nat)
    requires b < |root| && Explains(root, b, st, n) && Next(st, root[b], b) == Idle
    ensures Explains(root, b + 1, Idle, n)
  {
    hide Begun, Gathers, Push, Splice, Decode;
    PushIs(st, root[b], b);
    if st.Collecting? { BegunBounds(root, b, n, n - st.expected); }
    var at := b + 1;
    forall i: nat, m: nat
      ensures !Begun(root, at, i, m)
    {
      BegunStep(root, b, i, m);
    }
  }

  lemma RunStarts(root: seq<Slot>, b: nat, st: LfnState)
    requires b < |root| && root[b][0] != DELETED && IsLfn(root[b])
    requires root[b][0] as int / 64 % 2 == 1 && 1 <= root[b][0] as int % 32 <= 19
    ensures Explains(root, b + 1, Push(st, root[b], b), root[b][0] as int % 32)
  {
    hide Begun, Gathers, Push, Splice, Decode;
    PushIs(st, root[b], b);
    var n := root[b][0] as int % 32;
    GathersFirst(root, b, n);
    BegunStep(root, b, n, 1);
    var at := b + 1;
    forall i: nat, m: nat | Begun(root, at, i, m)
      ensures i == n && m == 1
    {
      BegunStep(root, b, i, m);
    }
  }

  lemma RunContinues(root: seq<Slot>, b: nat, st: LfnState, n: nat)
    requires b < |root| && Explains(root, b, st, n) && root[b][0] != DELETED && IsLfn(root[b])
    requires root[b][0] as int / 64 % 2 == 0 && st.Collecting? && root[b][0] as int % 32 == st.expected > 0
    ensures Explains(root, b + 1, Push(st, root[b], b), n)
  {
    hide Begun, Gathers, Push, Splice, Decode;
    PushIs(st, root[b], b);
    var m := n - st.expected;
    BegunBounds(root, b, n, m);
    GathersMore(root, b, n, m, st.name);
    BegunStep(root, b, n, m + 1);
    var at := b + 1;
    forall i: nat, k: nat | Begun(root, at, i, k)
      ensures i == n && k == m + 1
    {
      BegunStep(root, b, i, k);
    }
  }

  lemma NextExplained(root: seq<Slot>, b: nat, st: LfnState, n: nat) returns (n': nat)
    requires b < |root| && Explains(root, b, st, n)
    ensures Explains(root, b + 1, Next(st, root[b], b), n')
  {
    hide Explains, Push, Splice, Decode;
    var s := root[b];
    n' := n;
    PushIs(st, s, b);
    if Next(st, s, b) == Idle {
      RunEnds(root, b, st, n);
    } else if s[0] as int / 64 % 2 == 1 {
      n' := s[0] as int % 32;
      RunStarts(root, b, st);
    } else {
      RunContinues(root, b, st, n);
    }
  }

  lemma BegunBounds(root: seq<Slot>, b: nat, n: nat, m: nat)
    requires Begun(root, b, n, m)
    ensures 1 <= m <= n <= 19 && m <= b <= |root|
  {
  }

  // ---------------------------------------------------------------- the listing

  ghost predicate AllStated(root: seq<Slot>, items: seq<Item>) {
    forall k :: 0 <= k < |items| ==> Stated(root, items[k])
  }

  lemma {:induction false} ScanStates(root: seq<Slot>, i: nat)
    requires i <= |root|
    ensures AllStated(root, Scan(root, i, StateAt(root, i)))
    decreases |root| - i
  {
    if i < |root| && root[i][0] != 0 {
      hide StateAt, Next, Yield, Stated;
      var st := StateAt(root, i);
      StateAtStep(root, i + 1);
      ScanStates(root, i + 1);
      YieldStates(root, i);
      assert Scan(root, i, st) == Yield(st, root[i], i) + Scan(root, i + 1, Next(st, root[i], i));
    }
  }

  lemma YieldStates(root: seq<Slot>, i: nat)
    requires i < |root|
    ensures AllStated(root, Yield(StateAt(root, i), root[i], i))
  {
    hide StateAt;
  }

  /** The item is made of a slot and the decoder's state in front of it. */
  ghost predicate Stated(root: seq<Slot>, item: Item) {
    item.idx < |root| && item == MakeItem(StateAt(root, item.idx), root[item.idx], item.idx)
  }

  /** The slots in front of `i` are a whole long name of `n` fragments that carries the checksum of the short
      name at `i`. */
  ghost predicate Belongs(root: seq<Slot>, i: nat, n: nat) {
    i < |root| && Begun(root, i, n, n) && root[i - n][13] == Value(Fold(root[i][..11]))
  }

  /** The text of the `n` fragments in front of slot `i`, in reading order. */
  ghost function TextOf(root: seq<Slot>, i: nat, n: nat): (r: seq<byte>)
    requires n <= i <= |root|
    ensures |r| == 13 * n
  {
    if n == 0 then [] else TextOf(root, i, n - 1) + Decode(root[i - n], 0, false)
  }

  lemma {:induction false} GatheredText(root: seq<Slot>, i: nat, n: nat, k: nat, name: NameBuffer)
    requires k <= n <= i <= |root| && n <= 19 && Gathers(root, i, n, n, name)
    ensures name[..13 * k] == TextOf(root, i, k)
  {
    hide Decode;
    if k > 0 {
      PieceOf(root, i, n, k, name);
      hide Gathers;
      GatheredText(root, i, n, k - 1, name);
      assert name[..13 * k] == name[..13 * (k - 1)] + name[13 * (k - 1)..13 * (k - 1) + 13];
    }
  }

  lemma PieceOf(root: seq<Slot>, i: nat, n: nat, k: nat, name: NameBuffer)
    requires 1 <= k <= n <= i <= |root| && n <= 19 && Gathers(root, i, n, n, name)
    ensures name[13 * (k - 1)..13 * (k - 1) + 13] == Decode(root[i - k], 0, false)
  {
    hide Decode;
    assert n - 1 - (i - k - (i - n)) == k - 1;
    assert Piece(name, k - 1) == Decode(root[i - k], 0, false);
  }

  lemma {:induction false} CStringPadded(s: seq<byte>, t: seq<byte>)
    requires s <= t && forall k :: |s| <= k < |t| ==> t[k] == 0
    ensures CString(t) == CString(s)
  {
    if s != [] && s[0] != 0 { CStringPadded(s[1..], t[1..]); }
  }

  /** An entry of the listing has a long name if and only if the slots in front of it are a whole name,
      whoever wrote it, that carries the checksum of its short name; and then that is its name. */
  lemma LongNameAttached(root: seq<Slot>, item: Item)
    requires item in Items(root)
    ensures item.idx < |root| && item.entry == root[item.idx]
    ensures item.hasLong <==> exists n: nat :: Belongs(root, item.idx, n)
    ensures forall n: nat :: Belongs(root, item.idx, n) ==>
              n <= item.idx && item.longName == CString(TextOf(root, item.idx, n))
  {
    hide StateAt, Scan, Explains, Belongs, CString, TextOf, MakeItem;
    StateStarts(root);
    ScanStates(root, 0);
    assert Stated(root, item);
    var n := StateExplained(root, item.idx);
    MadeOf(root, item.idx, StateAt(root, item.idx), n);
  }

  lemma MadeOf(root: seq<Slot>, i: nat, st: LfnState, n: nat)
    requires i < |root| && Explains(root, i, st, n)
    ensures var item := MakeItem(st, root[i], i);
            && item.idx == i && item.entry == root[i]
            && (item.hasLong <==> exists n: nat :: Belongs(root, i, n))
            && (forall n: nat :: Belongs(root, i, n) ==> n <= i && item.longName == CString(TextOf(root, i, n)))
  {
    hide Checksum, Fold, Begun, Gathers, CString, TextOf, LongName, Value;
    ChecksumIsFold(root[i][..11]);
    if st.Collecting? && st.expected == 0 {
      BegunBounds(root, i, n, n);
      NameRead(root, i, n, st.name);
      if root[i - n][13] == Value(Fold(root[i][..11])) { assert Belongs(root, i, n); }
    }
  }

  lemma StateStarts(root: seq<Slot>)
    ensures StateAt(root, 0) == Idle
  {
  }

  lemma NameRead(root: seq<Slot>, i: nat, n: nat, name: NameBuffer)
    requires n <= i <= |root| && n <= 19 && Gathers(root, i, n, n, name)
    ensures LongName(name) == CString(TextOf(root, i, n))
  {
    hide CString, TextOf, Piece, Decode;
    GatheredText(root, i, n, n, name);
    assert name[..13 * n] == name[..255][..13 * n];
    CStringPadded(TextOf(root, i, n), name[..255]);
  }

  // ---------------------------------------------------------------- the characters of a fragment

  /** Where the thirteen characters of a fragment lie. */
  const CHAR_AT: seq<nat> := [1, 3, 5, 7, 9, 14, 16, 18, 20, 22, 24, 28, 30]

  ghost predicate PlainText(s: Slot) {
    forall j :: 0 <= j < 13 ==> 0 < s[CHAR_AT[j]] <= 0x7F && s[CHAR_AT[j] + 1] == 0
  }

  /** A fragment full of 7-bit characters is read as those characters. */
  lemma DecodesPlain(s: Slot)
    requires PlainText(s)
    ensures forall j :: 0 <= j < 13 ==> Decode(s, 0, false)[j] == s[CHAR_AT[j]]
  {
    forall j | 0 <= j < 13
      ensures Decode(s, 0, false)[j] == s[CHAR_AT[j]]
    {
      DecodesFrom(s, 0, j);
    }
  }

  lemma {:induction false} DecodesFrom(s: Slot, i: nat, j: nat)
    requires PlainText(s) && i <= j < 13
    ensures Decode(s, i, false)[j - i] == s[CHAR_AT[j]]
    decreases 13 - i
  {
    UnitIs(s, i);
    hide UnitAt, PlainText;
    if i < j { DecodesFrom(s, i + 1, j); }
  }

  lemma UnitIs(s: Slot, i: nat)
    requires PlainText(s) && i < 13
    ensures UnitAt(s, i) == s[CHAR_AT[i]] as int && 0 < UnitAt(s, i) <= 0x7F
  {
  }
}
