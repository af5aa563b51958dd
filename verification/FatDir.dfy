/** The fixed root directory as a sequence of 32-byte slots: iterating it, looking names up,
    finding room, writing an entry with its long name, deleting it again. */
module FatDir {
  import opened Bytes
  import opened FatDisk
  import opened FatLfn

  predicate IsFree(s: Slot) { s[0] == 0 || s[0] == DELETED }

  predicate IsLfn(s: Slot) { s[11] == LFN_ATTR }

  /** A live short entry. */
  predicate IsLive(s: Slot) { !IsFree(s) && !IsLfn(s) }

  /** Never-used slots form a suffix: a scan may stop at the first. */
  ghost predicate ZeroSuffix(root: seq<Slot>) {
    forall i, j :: 0 <= i < j < |root| && root[i][0] == 0 ==> root[j][0] == 0
  }

  datatype Item = Item(idx: nat, entry: Slot, hasLong: bool, longName: seq<byte>, lfnSlots: seq<nat>)

  /** The item `fat16_iterate_dir` hands to its callback for a short entry. */
  function MakeItem(st: LfnState, s: Slot, idx: nat): (r: Item) {
    if st.Collecting? && st.expected == 0 && Checksum(s[..11]) == st.checksum
    then Item(idx, s, true, LongName(st.name), st.slots)
    else Item(idx, s, false, [], [])
  }

  /** The state after one slot. */
  function Next(st: LfnState, s: Slot, idx: nat): LfnState {
    if s[0] != DELETED && IsLfn(s) then Push(st, s, idx) else Idle
  }

  /** The items, at most one, that one slot yields. */
  function Yield(st: LfnState, s: Slot, idx: nat): seq<Item> {
    if s[0] == DELETED || IsLfn(s) then [] else [MakeItem(st, s, idx)]
  }

  /** `fat16_iterate_dir` from slot `i` on. */
  function Scan(root: seq<Slot>, i: nat, st: LfnState): (r: seq<Item>)
    decreases |root| - i
  {
    if i >= |root| || root[i][0] == 0 then []
    else Yield(st, root[i], i) + Scan(root, i + 1, Next(st, root[i], i))
  }

  function Items(root: seq<Slot>): (r: seq<Item>) { Scan(root, 0, Idle) }

  // ---------------------------------------------------------------- scanning, piece by piece

  function StateAt(root: seq<Slot>, b: nat): LfnState
    requires b <= |root|
  {
    if b == 0 then Idle else Next(StateAt(root, b - 1), root[b - 1], b - 1)
  }

  function ItemsBefore(root: seq<Slot>, b: nat): seq<Item>
    requires b <= |root|
  {
    if b == 0 then [] else ItemsBefore(root, b - 1) + Yield(StateAt(root, b - 1), root[b - 1], b - 1)
  }

  ghost predicate NoZeroBefore(root: seq<Slot>, b: nat) {
    b <= |root| && forall i :: 0 <= i < b ==> root[i][0] != 0
  }

  /** A scan is what it found before `b` followed by what it finds from there. */
  lemma {:induction false} ScanSplits(root: seq<Slot>, b: nat)
    requires NoZeroBefore(root, b)
    ensures Items(root) == ItemsBefore(root, b) + Scan(root, b, StateAt(root, b))
  {
    hide Scan, StateAt, ItemsBefore;
    NothingBefore(root);
    assert [] + Scan(root, 0, Idle) == Scan(root, 0, Idle);
    var i := 0;
    while i < b
      invariant 0 <= i <= b
      invariant Items(root) == ItemsBefore(root, i) + Scan(root, i, StateAt(root, i))
    {
      ScanSplitStep(root, i);
      i := i + 1;
    }
  }

  lemma NothingBefore(root: seq<Slot>)
    ensures ItemsBefore(root, 0) == [] && StateAt(root, 0) == Idle
  {
  }

  lemma ScanSplitStep(root: seq<Slot>, i: nat)
    requires i < |root| && root[i][0] != 0
    ensures ItemsBefore(root, i) + Scan(root, i, StateAt(root, i))
         == ItemsBefore(root, i + 1) + Scan(root, i + 1, StateAt(root, i + 1))
  {
    hide Yield, Next;
    var before, st := ItemsBefore(root, i), StateAt(root, i);
    var y, more := Yield(st, root[i], i), Scan(root, i + 1, Next(st, root[i], i));
    assert i + 1 - 1 == i;
    assert before + (y + more) == before + y + more;
  }

  lemma {:induction false} BeforeFrame(root: seq<Slot>, root': seq<Slot>, b: nat)
    requires b <= |root| == |root'| && forall i :: 0 <= i < b ==> root'[i] == root[i]
    ensures StateAt(root', b) == StateAt(root, b) && ItemsBefore(root', b) == ItemsBefore(root, b)
  {
    hide Push, MakeItem, Fragment, Checksum;
    if b > 0 { BeforeFrame(root, root', b - 1); }
  }

  lemma {:induction false} ScanFrame(root: seq<Slot>, root': seq<Slot>, b: nat, st: LfnState)
    requires |root| == |root'| && forall i :: b <= i < |root| ==> root'[i] == root[i]
    ensures Scan(root', b, st) == Scan(root, b, st)
    decreases |root| - b
  {
    hide Push, MakeItem, Fragment, Checksum;
    if b < |root| && root[b][0] != 0 { ScanFrame(root, root', b + 1, Next(st, root[b], b)); }
  }

  ghost predicate FreeRun(root: seq<Slot>, a: nat, n: nat) {
    a + n <= |root| && forall i :: a <= i < a + n ==> IsFree(root[i])
  }

  /** Free slots contribute nothing and leave the decoder idle. */
  lemma {:induction false} ScanSkipsFree(root: seq<Slot>, a: nat, n: nat, st: LfnState)
    requires ZeroSuffix(root) && FreeRun(root, a, n) && n > 0
    ensures Scan(root, a, st) == Scan(root, a + n, Idle)
    decreases n
  {
    hide Push, MakeItem, Fragment, Checksum;
    if root[a][0] == 0 {
      assert Scan(root, a, st) == [];
      assert a + n < |root| ==> root[a + n][0] == 0;
    } else {
      assert Scan(root, a, st) == [] + Scan(root, a + 1, Idle);
      if n > 1 { ScanSkipsFree(root, a + 1, n - 1, Idle); }
    }
  }

  // ---------------------------------------------------------------- writing an entry

  /** The directory after the first `i` of `count` fragments went to slots `a, a + 1, ...`. */
  function PlaceRun(root: seq<Slot>, a: nat, name: seq<byte>, count: nat, checksum: byte, i: nat): (r: seq<Slot>)
    requires a + count <= |root| && i <= count <= MAX_ENTRIES
    ensures |r| == |root|
  {
    if i == 0 then root
    else PlaceRun(root, a, name, count, checksum, i - 1)[a + i - 1 := Fragment(name, count, i - 1, checksum)]
  }

  /** The directory after a whole entry was written: fragments, then the short entry. */
  function Place(root: seq<Slot>, a: nat, name: seq<byte>, count: nat, e: Slot): (r: seq<Slot>)
    requires a + count < |root| && count <= MAX_ENTRIES
    ensures |r| == |root|
  {
    PlaceRun(root, a, name, count, Checksum(e[..11]), count)[a + count := e]
  }

  lemma {:induction false} PlaceRunAt(root: seq<Slot>, a: nat, name: seq<byte>, count: nat, checksum: byte, i: nat)
    requires a + count <= |root| && i <= count <= MAX_ENTRIES
    ensures forall k :: 0 <= k < |root| ==>
              PlaceRun(root, a, name, count, checksum, i)[k] ==
              if a <= k < a + i then Fragment(name, count, k - a, checksum) else root[k]
  {
    if i > 0 { PlaceRunAt(root, a, name, count, checksum, i - 1); }
  }

  lemma PlaceAt(root: seq<Slot>, a: nat, name: seq<byte>, count: nat, e: Slot)
    requires a + count < |root| && count <= MAX_ENTRIES
    ensures forall k :: 0 <= k < |root| ==>
              Place(root, a, name, count, e)[k] ==
              if a <= k < a + count then Fragment(name, count, k - a, Checksum(e[..11]))
              else if k == a + count then e else root[k]
  {
    PlaceRunAt(root, a, name, count, Checksum(e[..11]), count);
  }

  /** A fragment never looks free, and carries the long-name attribute. */
  lemma FragmentIsLfn(name: seq<byte>, count: nat, i: nat, checksum: byte)
    requires i < count <= MAX_ENTRIES
    ensures !IsFree(Fragment(name, count, i, checksum)) && IsLfn(Fragment(name, count, i, checksum))
  {
    FragmentAt(name, count, i, checksum, 0);
    FragmentAt(name, count, i, checksum, 11);
  }

  /** The decoder runs through the fragments written. */
  lemma ScanThroughRun(root: seq<Slot>, a: nat, name: seq<byte>, count: nat, checksum: byte, st: LfnState)
    requires a + count <= |root| && count <= MAX_ENTRIES
    requires forall k :: a <= k < a + count ==> root[k] == Fragment(name, count, k - a, checksum)
    ensures Scan(root, a, st) == Scan(root, a + count, PushRun(st, name, count, checksum, a, count))
  {
    hide Push, MakeItem, Fragment, Checksum;
    var i := 0;
    while i < count
      invariant 0 <= i <= count
      invariant Scan(root, a, st) == Scan(root, a + i, PushRun(st, name, count, checksum, a, i))
    {
      assert root[a + i] == Fragment(name, count, a + i - a, checksum);
      ScanOneFragment(root, a, name, count, checksum, st, i);
      assert a + i + 1 == a + (i + 1);
      i := i + 1;
    }
  }

  lemma ScanOneFragment(root: seq<Slot>, a: nat, name: seq<byte>, count: nat, checksum: byte, st: LfnState, i: nat)
    requires a + count <= |root| && i < count <= MAX_ENTRIES
    requires root[a + i] == Fragment(name, count, i, checksum)
    ensures Scan(root, a + i, PushRun(st, name, count, checksum, a, i)) ==
            Scan(root, a + i + 1, PushRun(st, name, count, checksum, a, i + 1))
  {
    hide Push, MakeItem, Fragment, Checksum;
    FragmentIsLfn(name, count, i, checksum);
    var was := PushRun(st, name, count, checksum, a, i);
    assert a + (i + 1) - 1 == a + i && (i + 1) - 1 == i;
    assert PushRun(st, name, count, checksum, a, i + 1) == Push(was, root[a + i], a + i);
    assert Yield(was, root[a + i], a + i) == [];
    assert Scan(root, a + i, was) == [] + Scan(root, a + i + 1, Push(was, root[a + i], a + i));
  }

  /** What iterating shows of an entry just written at slot `a`. */
  function Written(root: seq<Slot>, a: nat, name: seq<byte>, count: nat, e: Slot): Item
    requires a + count < |root| && count <= MAX_ENTRIES
  {
    MakeItem(PushRun(StateAt(root, a), name, count, Checksum(e[..11]), a, count), e, a + count)
  }

  /** Writing an entry into free slots adds its item and changes no other. */
  lemma PlaceInserts(root: seq<Slot>, a: nat, name: seq<byte>, count: nat, e: Slot)
    requires ZeroSuffix(root) && FreeRun(root, a, count + 1) && NoZeroBefore(root, a)
    requires count <= MAX_ENTRIES && IsLive(e)
    ensures var before := ItemsBefore(root, a);
            var after := Scan(root, a, StateAt(root, a));
            && Items(root) == before + after
            && Items(Place(root, a, name, count, e)) == before + [Written(root, a, name, count, e)] + after
  {
    hide Scan, StateAt, ItemsBefore, Written;
    hide Push, MakeItem, Fragment, Checksum;
    var root' := Place(root, a, name, count, e);
    PlaceAt(root, a, name, count, e);
    ScanSplits(root, a);
    ScanSplits(root', a);
    BeforeFrame(root, root', a);
    ScanPlaced(root, a, name, count, e);
    var before, w, after := ItemsBefore(root, a), Written(root, a, name, count, e), Scan(root, a, StateAt(root, a));
    assert before + ([w] + after) == before + [w] + after;
  }

  /** From the slot written on, the listing shows the new item and then what it showed before. */
  lemma ScanPlaced(root: seq<Slot>, a: nat, name: seq<byte>, count: nat, e: Slot)
    requires ZeroSuffix(root) && FreeRun(root, a, count + 1) && count <= MAX_ENTRIES && IsLive(e)
    ensures Scan(Place(root, a, name, count, e), a, StateAt(root, a)) ==
            [Written(root, a, name, count, e)] + Scan(root, a, StateAt(root, a))
  {
    hide Push, MakeItem, Fragment, Checksum, Scan, Place, PushRun, StateAt, ZeroSuffix, FreeRun;
    RunInside(root, a, count + 1);
    var root', st, sum := Place(root, a, name, count, e), StateAt(root, a), Checksum(e[..11]);
    PlaceAt(root, a, name, count, e);
    ScanThroughRun(root', a, name, count, sum, st);
    ScanFrame(root, root', a + count + 1, Idle);
    ScanSkipsFree(root, a, count + 1, st);
    var end := PushRun(st, name, count, sum, a, count);
    assert a + (count + 1) == a + count + 1;
    ScanLive(root', a + count, end);
    assert root'[a + count] == e;
  }

  lemma RunInside(root: seq<Slot>, a: nat, n: nat)
    requires FreeRun(root, a, n)
    ensures a + n <= |root|
  {
  }

  lemma ScanLive(root: seq<Slot>, i: nat, st: LfnState)
    requires i < |root| && IsLive(root[i])
    ensures Scan(root, i, st) == [MakeItem(st, root[i], i)] + Scan(root, i + 1, Idle)
  {
    hide MakeItem, Push;
  }

  /** The long-name round trip: the item read back has exactly the slots written, and the very
      name given if and only if it is 7-bit and has at most 247 characters. */
  lemma LongNameRoundTrip(root: seq<Slot>, a: nat, name: seq<byte>, e: Slot)
    requires IsString(name) && 1 <= |name| <= 255
    requires FragmentCount(name) <= MAX_ENTRIES && a + FragmentCount(name) < |root|
    ensures var w := Written(root, a, name, FragmentCount(name), e);
            && w.idx == a + FragmentCount(name) && w.entry == e
            && (w.hasLong <==> |name| <= 247)
            && (w.hasLong ==> w.lfnSlots == Range(a, FragmentCount(name)) && w.longName == AsciiName(name))
            && (w.hasLong && w.longName == name <==>
                |name| <= 247 && forall i :: 0 <= i < |name| ==> name[i] <= 0x7F)
  {
    RunReadsBack(StateAt(root, a), name, Checksum(e[..11]), a);
    AsciiExact(name);
  }

  /** `fat16_dir_mark_deleted` over a run of slots. */
  function Deleted(root: seq<Slot>, a: nat, n: nat): (r: seq<Slot>)
    requires a + n <= |root|
    ensures |r| == |root|
  {
    if n == 0 then root else Deleted(root, a, n - 1)[a + n - 1 := Mark(root[a + n - 1])]
  }

  function Mark(s: Slot): (r: Slot)
    ensures r[0] == DELETED && r[1..] == s[1..]
  {
    s[0 := DELETED]
  }

  lemma MarkTwice(s: Slot)
    ensures Mark(Mark(s)) == Mark(s)
  {
  }

  lemma {:induction false} DeletedAt(root: seq<Slot>, a: nat, n: nat)
    requires a + n <= |root|
    ensures forall k :: 0 <= k < |root| ==> Deleted(root, a, n)[k] == if a <= k < a + n then Mark(root[k]) else root[k]
  {
    if n > 0 { DeletedAt(root, a, n - 1); }
  }

  /** Deleting an entry that was just created gives back the listing from before, and keeps
      never-used slots a suffix throughout. */
  lemma DeleteUndoesPlace(root: seq<Slot>, a: nat, name: seq<byte>, count: nat, e: Slot)
    requires ZeroSuffix(root) && FreeRun(root, a, count + 1) && NoZeroBefore(root, a)
    requires count <= MAX_ENTRIES && IsLive(e)
    ensures ZeroSuffix(Place(root, a, name, count, e))
    ensures ZeroSuffix(Deleted(Place(root, a, name, count, e), a, count + 1))
    ensures Items(Deleted(Place(root, a, name, count, e), a, count + 1)) == Items(root)
  {
    hide Push, MakeItem, Fragment, Checksum, Scan, Place, StateAt, ItemsBefore, ZeroSuffix, FreeRun, NoZeroBefore,
         Deleted;
    RunInside(root, a, count + 1);
    var root' := Place(root, a, name, count, e);
    PlaceAt(root, a, name, count, e);
    PlaceKeepsSuffix(root, a, name, count, e);
    var root'' := Deleted(root', a, count + 1);
    DeletedAt(root', a, count + 1);
    DeletedKeeps(root, root', root'', a, count + 1);
    BeforeFrame(root, root'', a);
    ScanSplits(root, a);
    ScanSplits(root'', a);
    ScanSkipsFree(root, a, count + 1, StateAt(root, a));
    ScanSkipsFree(root'', a, count + 1, StateAt(root, a));
    ScanFrame(root, root'', a + count + 1, Idle);
  }

  /** Slots marked deleted are free and not never-used; the others stay. */
  lemma DeletedKeeps(root: seq<Slot>, root': seq<Slot>, root'': seq<Slot>, a: nat, n: nat)
    requires |root''| == |root'| == |root| && a + n <= |root| && ZeroSuffix(root')
    requires forall k :: 0 <= k < |root| ==> root''[k] == if a <= k < a + n then Mark(root'[k]) else root'[k]
    requires NoZeroBefore(root, a) && forall k :: 0 <= k < a ==> root'[k] == root[k]
    ensures ZeroSuffix(root'') && FreeRun(root'', a, n) && NoZeroBefore(root'', a)
  {
    hide Mark;
  }

  lemma PlaceKeepsSuffix(root: seq<Slot>, a: nat, name: seq<byte>, count: nat, e: Slot)
    requires ZeroSuffix(root) && FreeRun(root, a, count + 1) && NoZeroBefore(root, a)
    requires count <= MAX_ENTRIES && IsLive(e)
    ensures ZeroSuffix(Place(root, a, name, count, e))
  {
    var root' := Place(root, a, name, count, e);
    PlaceAt(root, a, name, count, e);
    forall k | 0 <= k < |root| && root'[k][0] == 0
      ensures k > a + count && root'[k] == root[k]
    {
      if a <= k < a + count { FragmentIsLfn(name, count, k - a, Checksum(e[..11])); }
    }
  }
}
