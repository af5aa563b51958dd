/** Creating, overwriting and removing entries of the root directory as whole operations on a
    volume value, and what every run of them keeps. */
module FatRoot {
  import opened Bytes
  import opened FatChains
  import opened FatFiles
  import opened FatDisk
  import opened FatLfn
  import opened FatDir
  import opened FatNames

  // ---------------------------------------------------------------- short names in use

  /** `fat16_short_name_exists`, scanning from slot `i` to the first never-used slot. */
  function TakenFrom(root: seq<Slot>, short: Short, i: nat): bool
    decreases |root| - i
  {
    if i >= |root| || root[i][0] == 0 then false
    else if IsLive(root[i]) && root[i][..11] == short then true
    else TakenFrom(root, short, i + 1)
  }

  predicate Taken(root: seq<Slot>, short: Short) { TakenFrom(root, short, 0) }

  lemma {:induction false} TakenFromExact(root: seq<Slot>, short: Short, i: nat)
    requires ZeroSuffix(root)
    ensures TakenFrom(root, short, i) <==> exists k :: i <= k < |root| && IsLive(root[k]) && root[k][..11] == short
    decreases |root| - i
  {
    if i < |root| && root[i][0] != 0 { TakenFromExact(root, short, i + 1); }
  }

  /** No two live entries share a short name. */
  ghost predicate Unique(root: seq<Slot>) {
    forall i, j :: 0 <= i < j < |root| && IsLive(root[i]) && IsLive(root[j]) ==> root[i][..11] != root[j][..11]
  }

  // ---------------------------------------------------------------- aliases

  /** `fat16_sanitize_component`: upper case, forbidden characters dropped, at most `cap` kept. */
  function Sanitize(s: seq<byte>, cap: nat): (r: seq<byte>)
    ensures |r| <= cap && forall i :: 0 <= i < |r| ==> 0x20 < r[i] <= 0x7E
    decreases s
  {
    if s == [] || cap == 0 then []
    else
      var c := Up(s[0]);
      if 0x20 < c <= 0x7E && c !in [0x2B, 0x2C, 0x3B, 0x3D, 0x5B, 0x5D, 0x3A]
      then [c] + Sanitize(s[1..], cap - 1)
      else Sanitize(s[1..], cap)
  }

  function AliasBase(name: seq<byte>): (r: seq<byte>)
    ensures r != [] && forall i :: 0 <= i < |r| ==> 0x20 < r[i] <= 0x7E
  {
    var b := Sanitize(Base(name), 31);
    if b == [] then [0x46, 0x49, 0x4C, 0x45] else b
  }

  function AliasExt(name: seq<byte>): seq<byte> { Sanitize(Ext(name), 7) }

  function Digits(n: nat): nat { if n < 10 then 1 else 1 + Digits(n / 10) }

  /** What `snprintf(tmp, 9, "%s~%u", base, n)` leaves in `tmp`: the library's formatter knows no
      `%u` and copies the two characters, so the number never appears. */
  function Tilde(prefix: seq<byte>): (r: seq<byte>)
    requires |prefix| <= 6
  {
    prefix + [0x7E, 0x25] + if |prefix| < 6 then [0x75] else []
  }

  /** The `n`-th name `fat16_generate_short_name` tries. */
  function Candidate(name: seq<byte>, n: nat): Short
    requires n < 10000
  {
    var b := AliasBase(name);
    if n == 0 then MakeShort(b, AliasExt(name))
    else MakeShort(Tilde(b[..Min(|b|, 7 - Min(Digits(n), 6))]), AliasExt(name))
  }

  function GenerateFrom(root: seq<Slot>, name: seq<byte>, n: nat): (r: Option<Short>)
    requires n <= 10000
    decreases 10000 - n, root
  {
    if n == 10000 then None
    else if !Taken(root, Candidate(name, n)) then Some(Candidate(name, n))
    else GenerateFrom(root, name, n + 1)
  }

  function Generate(root: seq<Slot>, name: seq<byte>): (r: Option<Short>) { GenerateFrom(root, name, 0) }

  lemma {:induction false} GenerateFromMeans(root: seq<Slot>, name: seq<byte>, n: nat)
    requires n <= 10000
    ensures var r := GenerateFrom(root, name, n);
            && (r.Some? ==> exists k :: n <= k < 10000 && r.value == Candidate(name, k) && !Taken(root, r.value))
            && (r.None? ==> forall k :: n <= k < 10000 ==> Taken(root, Candidate(name, k)))
    decreases 10000 - n
  {
    hide Candidate, Taken;
    if n < 10000 {
      var r := GenerateFrom(root, name, n);
      if !Taken(root, Candidate(name, n)) {
        assert r.value == Candidate(name, n) && !Taken(root, r.value);
      } else {
        GenerateFromMeans(root, name, n + 1);
        assert r == GenerateFrom(root, name, n + 1);
      }
    }
  }

  lemma DigitsOf(n: nat)
    requires 1 <= n < 10000
    ensures Digits(n) == if n < 10 then 1 else if n < 100 then 2 else if n < 1000 then 3 else 4
  {
    if n >= 1000 {
      assert Digits(n) == 1 + Digits(n / 10) == 2 + Digits(n / 10 / 10) == 3 + Digits(n / 10 / 10 / 10);
    }
  }

  /** Only the digit count of the number tried matters. */
  lemma CandidateClass(name: seq<byte>, n: nat)
    requires n < 10000
    ensures Candidate(name, n) ==
            Candidate(name, if n == 0 then 0 else if n < 10 then 1 else if n < 100 then 10
                            else if n < 1000 then 100 else 1000)
  {
    hide AliasBase, AliasExt, MakeShort, Tilde, Digits;
    if n > 0 {
      DigitsOf(n);
      DigitsOf(1);
      DigitsOf(10);
      DigitsOf(100);
      DigitsOf(1000);
    }
  }

  /** An alias can be found exactly while one of five names is unused: the sixth long name with
      the same base and extension cannot be created. */
  lemma GenerateExact(root: seq<Slot>, name: seq<byte>)
    ensures Generate(root, name).None? <==>
            && Taken(root, Candidate(name, 0)) && Taken(root, Candidate(name, 1)) && Taken(root, Candidate(name, 10))
            && Taken(root, Candidate(name, 100)) && Taken(root, Candidate(name, 1000))
    ensures Generate(root, name).Some? ==> !Taken(root, Generate(root, name).value)
  {
    hide Candidate, Taken;
    GenerateFromMeans(root, name, 0);
    forall k: nat | k < 10000
      ensures Candidate(name, k) in [Candidate(name, 0), Candidate(name, 1), Candidate(name, 10),
                                     Candidate(name, 100), Candidate(name, 1000)]
    {
      CandidateClass(name, k);
    }
  }

  // ---------------------------------------------------------------- entries and files

  const ATTR_FILE: byte := 0x20
  const ATTR_DIR: byte := 0x10

  /** A 32-byte directory entry with everything but these fields zero. */
  function ShortEntry(short: Short, attr: byte, first: nat, size: nat): (e: Slot)
    requires first < TWO16 && size < TWO32
    ensures e[..11] == short && e[11] == attr && Le16(e, 26) == first && Le32(e, 28) == size
  {
    var tail := Enc16(first) + Enc32(size);
    assert Le16(tail, 0) == first && Le32(tail, 2) == size;
    var e := short + [attr] + Fill(14, 0) + tail;
    assert e[26] == tail[0] && e[27] == tail[1] && e[28..32] == tail[2..6];
    assert e[28] == e[28..32][0] && e[29] == e[28..32][1] && e[30] == e[28..32][2] && e[31] == e[28..32][3];
    e
  }

  function FileOf(e: Slot): File { File(Le16(e, 26), Le32(e, 28)) }

  /** The files of the directory, by slot. */
  ghost function Files(root: seq<Slot>): map<nat, File> {
    map i: nat | i < |root| && IsLive(root[i]) :: FileOf(root[i])
  }

  datatype Vol = Vol(store: Store, root: seq<Slot>)

  /** What every run keeps: well-formed blocks, never-used slots last, distinct short names, and
      the chains of all live entries whole and disjoint (`chains` names them). */
  ghost predicate Good(v: Vol, cb: nat, chains: map<nat, seq<nat>>) {
    && cb > 0 && cb % 512 == 0
    && WellFormed(v.store, cb)
    && ZeroSuffix(v.root) && Unique(v.root)
    && Sound(v.store.fat, Files(v.root), chains)
  }

  lemma FilesPlace(root: seq<Slot>, a: nat, name: seq<byte>, count: nat, e: Slot)
    requires FreeRun(root, a, count + 1) && count <= MAX_ENTRIES && IsLive(e)
    ensures Files(Place(root, a, name, count, e)) == Files(root)[a + count := FileOf(e)]
    ensures a + count !in Files(root)
  {
    hide Fragment, Checksum, Place, FileOf;
    var root' := Place(root, a, name, count, e);
    PlaceAt(root, a, name, count, e);
    forall k: nat | k < |root| && k != a + count
      ensures IsLive(root'[k]) <==> IsLive(root[k])
      ensures IsLive(root[k]) ==> root'[k] == root[k]
    {
      if a <= k < a + count { FragmentIsLfn(name, count, k - a, Checksum(e[..11])); }
    }
  }

  lemma UniquePlace(root: seq<Slot>, a: nat, name: seq<byte>, count: nat, e: Slot)
    requires FreeRun(root, a, count + 1) && count <= MAX_ENTRIES && IsLive(e)
    requires ZeroSuffix(root) && Unique(root) && !Taken(root, e[..11])
    ensures Unique(Place(root, a, name, count, e))
  {
    hide Fragment, Checksum, Place;
    var root' := Place(root, a, name, count, e);
    PlaceAt(root, a, name, count, e);
    TakenFromExact(root, e[..11], 0);
    forall k: nat | k < |root| && k != a + count && IsLive(root'[k])
      ensures root'[k] == root[k] && root[k][..11] != e[..11]
    {
      if a <= k < a + count { FragmentIsLfn(name, count, k - a, Checksum(e[..11])); }
    }
  }

  /** Rewriting an entry under its old short name. */
  lemma EntryRewritten(root: seq<Slot>, idx: nat, e: Slot)
    requires idx < |root| && IsLive(root[idx]) && IsLive(e) && e[..11] == root[idx][..11]
    ensures Files(root[idx := e]) == Files(root)[idx := FileOf(e)]
    ensures ZeroSuffix(root) ==> ZeroSuffix(root[idx := e])
    ensures Unique(root) ==> Unique(root[idx := e])
  {
    hide FileOf;
  }

  /** `fat16_dir_mark_deleted` on each slot of a list. */
  function MarkAll(root: seq<Slot>, slots: seq<nat>): (r: seq<Slot>)
    requires forall i :: 0 <= i < |slots| ==> slots[i] < |root|
    ensures |r| == |root|
    ensures forall k :: 0 <= k < |root| ==> r[k] == if k in slots then Mark(root[k]) else root[k]
    decreases |slots|
  {
    if slots == [] then root
    else
      var last := slots[|slots| - 1];
      assert forall k :: k in slots <==> k == last || k in slots[..|slots| - 1];
      MarkTwice(root[last]);
      var r := MarkAll(root, slots[..|slots| - 1]);
      r[last := Mark(r[last])]
  }

  // ---------------------------------------------------------------- items point at their slots

  ghost predicate SlotsSound(root: seq<Slot>, slots: seq<nat>) {
    forall i :: 0 <= i < |slots| ==> slots[i] < |root| && IsLfn(root[slots[i]]) && root[slots[i]][0] != 0
  }

  ghost predicate StateSound(root: seq<Slot>, st: LfnState) {
    st.Collecting? ==> SlotsSound(root, st.slots)
  }

  ghost predicate ItemSound(root: seq<Slot>, item: Item) {
    && item.idx < |root| && IsLive(root[item.idx]) && item.entry == root[item.idx]
    && SlotsSound(root, item.lfnSlots)
  }

  lemma PushSound(root: seq<Slot>, st: LfnState, idx: nat)
    requires StateSound(root, st) && idx < |root| && IsLfn(root[idx]) && root[idx][0] != 0
    ensures StateSound(root, Push(st, root[idx], idx))
  {
    hide Decode;
  }

  ghost predicate AllSound(root: seq<Slot>, items: seq<Item>) {
    forall k :: 0 <= k < |items| ==> ItemSound(root, items[k])
  }

  lemma YieldSound(root: seq<Slot>, st: LfnState, i: nat)
    requires StateSound(root, st) && i < |root| && root[i][0] != 0
    ensures AllSound(root, Yield(st, root[i], i)) && StateSound(root, Next(st, root[i], i))
  {
    hide Push, Checksum, LongName;
    if root[i][0] != DELETED && IsLfn(root[i]) { PushSound(root, st, i); }
  }

  lemma {:induction false} ScanSound(root: seq<Slot>, i: nat, st: LfnState)
    requires StateSound(root, st)
    ensures AllSound(root, Scan(root, i, st))
    decreases |root| - i
  {
    if i < |root| && root[i][0] != 0 {
      hide Yield, Next, ItemSound, StateSound;
      YieldSound(root, st, i);
      ScanSound(root, i + 1, Next(st, root[i], i));
    }
  }

  /** A lookup returns a live entry together with long-name slots of the directory. */
  lemma LookupSound(root: seq<Slot>, name: seq<byte>)
    ensures var r := FirstMatch(Items(root), name);
            r.Some? ==> ItemSound(root, r.value) && Matches(r.value, name)
  {
    ScanSound(root, 0, Idle);
  }

  /** One slot of a lookup. */
  lemma LookupStep(root: seq<Slot>, i: nat, st: LfnState, name: seq<byte>)
    requires i < |root|
    ensures root[i][0] == 0 ==> FirstMatch(Scan(root, i, st), name) == None
    ensures root[i][0] != 0 ==>
              FirstMatch(Scan(root, i, st), name) ==
              if root[i][0] != DELETED && !IsLfn(root[i]) && Matches(MakeItem(st, root[i], i), name)
              then Some(MakeItem(st, root[i], i))
              else FirstMatch(Scan(root, i + 1, Next(st, root[i], i)), name)
  {
    hide MakeItem, Matches, Push;
    if root[i][0] != 0 {
      var y, more := Yield(st, root[i], i), Scan(root, i + 1, Next(st, root[i], i));
      assert Scan(root, i, st) == y + more;
      if y == [] {
        assert y + more == more;
      } else {
        assert (y + more)[1..] == more;
      }
    }
  }

  lemma LookupEnd(root: seq<Slot>, i: nat, st: LfnState, name: seq<byte>)
    requires i >= |root|
    ensures FirstMatch(Scan(root, i, st), name) == None
  {
  }

  lemma ShortTextSame(e: Slot, f: Slot)
    requires e[..11] == f[..11]
    ensures ShortText(e) == ShortText(f)
  {
    assert e[..8] == e[..11][..8] && e[8..11] == e[..11][8..];
    assert f[..8] == f[..11][..8] && f[8..11] == f[..11][8..];
  }

  lemma MatchSame(st: LfnState, e: Slot, f: Slot, i: nat, name: seq<byte>)
    requires e[..11] == f[..11]
    ensures Matches(MakeItem(st, e, i), name) <==> Matches(MakeItem(st, f, i), name)
  {
    hide ShortText, Checksum, LongName, CaseEq;
    ShortTextSame(e, f);
  }

  /** Rewriting an entry under its old short name leaves every lookup with the slot it found. */
  lemma {:induction false} LookupRewritten(root: seq<Slot>, idx: nat, e: Slot, i: nat, st: LfnState, name: seq<byte>)
    requires idx < |root| && IsLive(root[idx]) && IsLive(e) && e[..11] == root[idx][..11]
    ensures var a, b := FirstMatch(Scan(root, i, st), name), FirstMatch(Scan(root[idx := e], i, st), name);
            (a.Some? <==> b.Some?) && (a.Some? ==> b.value.idx == a.value.idx)
    decreases |root| - i
  {
    hide Scan, MakeItem, Matches, FirstMatch, Push;
    var root' := root[idx := e];
    if i >= |root| {
      LookupEnd(root, i, st, name);
      LookupEnd(root', i, st, name);
    } else {
      LookupStep(root, i, st, name);
      LookupStep(root', i, st, name);
      MatchSame(st, e, root[idx], idx, name);
      MadeAt(st, root[i], i);
      MadeAt(st, root'[i], i);
      LookupRewritten(root, idx, e, i + 1, Next(st, root[i], i), name);
    }
  }

  lemma MadeAt(st: LfnState, s: Slot, i: nat)
    ensures MakeItem(st, s, i).idx == i
  {
  }

  /** The directory without an item: its long-name slots and its entry marked deleted. */
  ghost function Without(root: seq<Slot>, item: Item): (r: seq<Slot>)
    requires ItemSound(root, item)
    ensures |r| == |root|
  {
    MarkAll(root, item.lfnSlots)[item.idx := Mark(root[item.idx])]
  }

  lemma WithoutAt(root: seq<Slot>, item: Item)
    requires ItemSound(root, item)
    ensures forall k: nat :: k < |root| ==>
              && (IsLive(Without(root, item)[k]) <==> IsLive(root[k]) && k != item.idx)
              && (IsLive(Without(root, item)[k]) ==> Without(root, item)[k] == root[k])
              && (Without(root, item)[k][0] == 0 <==> root[k][0] == 0)
  {
  }

  /** Removing an item takes its file away and changes nothing else. */
  lemma ItemRemoved(root: seq<Slot>, item: Item)
    requires ItemSound(root, item)
    ensures Files(Without(root, item)) == Files(root) - {item.idx}
    ensures Unique(root) ==> Unique(Without(root, item))
    ensures ZeroSuffix(root) ==> ZeroSuffix(Without(root, item))
  {
    hide FileOf, Without, ItemSound;
    WithoutAt(root, item);
  }

  // ---------------------------------------------------------------- the operations

  predicate RunIsFree(root: seq<Slot>, a: nat, n: nat)
    requires a + n <= |root|
  {
    forall i :: a <= i < a + n ==> IsFree(root[i])
  }

  /** `fat16_find_free_slots` in the root: the first run of `n` free slots. */
  function FindRun(root: seq<Slot>, a: nat, n: nat): (r: Option<nat>)
    decreases |root| - a
  {
    if a + n > |root| then None
    else if RunIsFree(root, a, n) then Some(a)
    else if a == |root| then None
    else FindRun(root, a + 1, n)
  }

  lemma {:induction false} FindRunMeans(root: seq<Slot>, a: nat, n: nat)
    requires n > 0
    ensures var r := FindRun(root, a, n);
            && (r.Some? ==>
                  && a <= r.value && FreeRun(root, r.value, n)
                  && forall b :: a <= b < r.value ==> !FreeRun(root, b, n))
            && (r.None? ==> forall b :: a <= b ==> !FreeRun(root, b, n))
    decreases |root| - a
  {
    if a + n <= |root| && !RunIsFree(root, a, n) { FindRunMeans(root, a + 1, n); }
  }

  /** The first run never starts behind a never-used slot. */
  lemma FirstRunBeforeZero(root: seq<Slot>, a: nat, n: nat)
    requires n > 0 && ZeroSuffix(root) && FreeRun(root, a, n) && forall b :: 0 <= b < a ==> !FreeRun(root, b, n)
    ensures NoZeroBefore(root, a)
  {
    forall z | 0 <= z < a
      ensures root[z][0] != 0
    {
      if root[z][0] == 0 {
        assert FreeRun(root, z, n);
      }
    }
  }

  /** What create and mkdir settle before they touch the disk. */
  datatype Spot = Spot(long: seq<byte>, count: nat, short: Short, at: nat)

  /** The names and the number of fragments of a new entry, its place left open. */
  function Settle(root: seq<Slot>, name: seq<byte>): (r: Option<Spot>)
    ensures r.Some? ==> r.value.at == 0
  {
    if name == [] || IsDots(name) || FirstMatch(Items(root), name).Some? then None
    else if NeedsLong(name) then
      match Prepare(name)
      case None => None
      case Some(long) =>
        match Generate(root, long)
        case None => None
        case Some(short) => Some(Spot(long, FragmentCount(long), short, 0))
    else if Taken(root, Format83(name)) then None
    else Some(Spot(name, 0, Format83(name), 0))
  }

  function FindSpot(root: seq<Slot>, name: seq<byte>): (r: Option<Spot>) {
    match Settle(root, name)
    case None => None
    case Some(s) =>
      match FindRun(root, 0, s.count + 1)
      case None => None
      case Some(a) => Some(s.(at := a))
  }

  /** A place for an entry: room in front of every never-used slot, and a short name no live entry has
      and that reads as a live entry. */
  ghost predicate SpotOk(root: seq<Slot>, s: Spot) {
    && s.count <= MAX_ENTRIES && FreeRun(root, s.at, s.count + 1) && NoZeroBefore(root, s.at)
    && !Taken(root, s.short) && s.short[0] != 0 && s.short[0] != DELETED
  }

  lemma SettleMeans(root: seq<Slot>, name: seq<byte>)
    ensures var r := Settle(root, name);
            r.Some? ==>
              var s := r.value;
              && s.count <= MAX_ENTRIES && !Taken(root, s.short) && s.short[0] != 0 && s.short[0] != DELETED
              && FirstMatch(Items(root), name).None? && name != []
              && (NeedsLong(name) ==> Prepare(name) == Some(s.long) && s.count == FragmentCount(s.long) >= 1)
              && (!NeedsLong(name) ==> s.short == Format83(name) && s.count == 0)
  {
    hide Items, Prepare, Taken, Generate, NeedsLong, Format83, Candidate;
    var r := Settle(root, name);
    if r.Some? {
      var s := r.value;
      if NeedsLong(name) {
        GenerateExact(root, s.long);
        GeneratedHead(root, s.long);
      } else {
        FormattedHead(name);
      }
    }
  }

  /** The spot found: room in front of every never-used slot, a short name no live entry has and
      that reads as a live entry, and fragments exactly for a prepared long name. */
  lemma SpotMeans(root: seq<Slot>, name: seq<byte>)
    requires ZeroSuffix(root)
    ensures var r := FindSpot(root, name);
            r.Some? ==>
              var s := r.value;
              && SpotOk(root, s) && FirstMatch(Items(root), name).None? && name != []
              && (NeedsLong(name) ==> Prepare(name) == Some(s.long) && s.count == FragmentCount(s.long) >= 1)
              && (!NeedsLong(name) ==> s.short == Format83(name) && s.count == 0)
  {
    hide Items, Prepare, Taken, Settle, NeedsLong, Format83, FindRun, FirstMatch, FragmentCount;
    SettleMeans(root, name);
    var r := FindSpot(root, name);
    if r.Some? {
      FindRunMeans(root, 0, r.value.count + 1);
      FirstRunBeforeZero(root, r.value.at, r.value.count + 1);
    }
  }

  lemma CandidateHead(name: seq<byte>, n: nat)
    requires n < 10000
    ensures 0x20 < Candidate(name, n)[0] <= 0x7E
  {
    hide AliasBase, AliasExt;
    if n > 0 { DigitsOf(n); }
  }

  /** Five entries that use up the aliases of `name`, then `room` slots never used. */
  function AliasesTaken(name: seq<byte>, room: nat): seq<Slot> {
    Followed([AliasEntry(name, 0), AliasEntry(name, 1), AliasEntry(name, 10), AliasEntry(name, 100),
              AliasEntry(name, 1000)], room)
  }

  function Followed(five: seq<Slot>, room: nat): (r: seq<Slot>)
    ensures |r| == |five| + room && forall i :: 0 <= i < |r| ==> r[i] == if i < |five| then five[i] else Fill(32, 0)
  {
    five + seq(room, i => Fill(32, 0))
  }

  function AliasEntry(name: seq<byte>, n: nat): (e: Slot)
    requires n < 10000
  {
    ShortEntry(Candidate(name, n), ATTR_FILE, 0, 0)
  }

  lemma AliasEntryMeans(name: seq<byte>, n: nat)
    requires n < 10000
    ensures IsLive(AliasEntry(name, n)) && AliasEntry(name, n)[..11] == Candidate(name, n)
  {
    CandidateHead(name, n);
    hide Candidate;
    var e := AliasEntry(name, n);
    assert e[0] == e[..11][0];
  }

  /** With those five in the directory the next such name finds no alias, however much room is left. */
  lemma SixthAliasFails(name: seq<byte>, room: nat)
    ensures Generate(AliasesTaken(name, room), name).None?
  {
    hide Candidate, AliasEntry, Generate, Taken;
    var root := AliasesTaken(name, room);
    AliasTaken(name, room, 0, 0);
    AliasTaken(name, room, 1, 1);
    AliasTaken(name, room, 2, 10);
    AliasTaken(name, room, 3, 100);
    AliasTaken(name, room, 4, 1000);
    GenerateExact(root, name);
  }

  lemma AliasTaken(name: seq<byte>, room: nat, i: nat, n: nat)
    requires i < 5 && n < 10000 && AliasesTaken(name, room)[i] == AliasEntry(name, n)
    ensures Taken(AliasesTaken(name, room), Candidate(name, n))
  {
    hide Candidate, AliasEntry;
    var root := AliasesTaken(name, room);
    AliasEntryMeans(name, n);
    AliasesOrdered(name, room);
    TakenFromExact(root, Candidate(name, n), 0);
  }

  lemma AliasesOrdered(name: seq<byte>, room: nat)
    ensures ZeroSuffix(AliasesTaken(name, room))
  {
    hide Candidate, AliasEntry;
    AliasEntryMeans(name, 0);
    AliasEntryMeans(name, 1);
    AliasEntryMeans(name, 10);
    AliasEntryMeans(name, 100);
    AliasEntryMeans(name, 1000);
  }

  lemma GeneratedHead(root: seq<Slot>, name: seq<byte>)
    ensures var r := Generate(root, name); r.Some? ==> 0x20 < r.value[0] <= 0x7E
  {
    hide Candidate, Taken;
    GenerateFromMeans(root, name, 0);
    var r := Generate(root, name);
    if r.Some? {
      var k :| 0 <= k < 10000 && r.value == Candidate(name, k);
      CandidateHead(name, k);
    }
  }

  lemma FormattedHead(name: seq<byte>)
    requires !NeedsLong(name)
    ensures 0x20 < Format83(name)[0] <= 0x7E
  {
    hide LastDot;
    assert ShortChar(Base(name)[0]);
  }
}
