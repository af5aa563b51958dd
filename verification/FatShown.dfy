/** What the listing shows of a file just created: its name in its own case, and its attribute; and what
    the rules for names come to on letters and digits. */
module FatShown {
  import opened Bytes
  import opened Registers
  import opened FatChains
  import opened FatFiles
  import opened FatDisk
  import opened FatLfn
  import opened FatDir
  import opened FatNames
  import opened FatRoot
  import opened FatRuns
  import opened FatLookup
  import opened FatChecksum

  /** The name `ls` prints for an item. */
  function Shown(item: Item): seq<byte> {
    if item.hasLong && item.longName != [] then item.longName else ShortText(item.entry)
  }

  lemma {:induction false} NoLowerSame(s: seq<byte>)
    requires forall i :: 0 <= i < |s| ==> !IsLower(s[i])
    ensures UpAll(s) == s
  {
    var t := UpAll(s);
    forall i | 0 <= i < |s|
      ensures t[i] == s[i]
    {
    }
  }

  /** The entry a create or mkdir writes, in its place. */
  lemma AddedWritten(v: Vol, cb: nat, name: seq<byte>, attr: byte, n: nat, size: nat, scratch: nat -> bool)
    returns (e: Slot)
    requires WellFormed(v.store, cb) && ZeroSuffix(v.root) && size < TWO32 && attr != LFN_ATTR
    requires AddEntry(v, cb, name, attr, n, size, scratch).Some?
    ensures FindSpot(v.root, name).Some? && IsLive(e) && e[11] == attr && Le32(e, 28) == size
    ensures Le16(e, 26) == Head(Reserve(v.store, cb, n, 0, scratch).1)
    ensures var s := FindSpot(v.root, name).value;
            && e[..11] == s.short && s.at + s.count < |v.root| && s.count <= MAX_ENTRIES
            && AddEntry(v, cb, name, attr, n, size, scratch).value.root == Place(v.root, s.at, s.long, s.count, e)
  {
    hide FindSpot, ZeroSuffix, Place, NeedsLong, Prepare, Reserve, Taken, FirstMatch, Items;
    SpotMeans(v.root, name);
    var s := FindSpot(v.root, name).value;
    e := ShortEntry(s.short, attr, Reserve(v.store, cb, n, 0, scratch).1[0], size);
    assert e[0] == e[..11][0];
  }

  /** The item found under a findable name right after its create: the attribute and the size asked for, the
      first cluster taken, and the very name given, case included: as its long name if it needs one, else as
      its short name. */
  lemma AddedReads(v: Vol, cb: nat, name: seq<byte>, attr: byte, n: nat, size: nat, scratch: nat -> bool)
    returns (item: Item)
    requires WellFormed(v.store, cb) && ZeroSuffix(v.root) && size < TWO32 && attr != LFN_ATTR && Findable(name)
    requires AddEntry(v, cb, name, attr, n, size, scratch).Some?
    ensures var root := AddEntry(v, cb, name, attr, n, size, scratch).value.root;
            FirstMatch(Items(root), name) == Some(item) && item in Items(root)
    ensures name != [] && item.entry[11] == attr && Le32(item.entry, 28) == size
    ensures Le16(item.entry, 26) == Head(Reserve(v.store, cb, n, 0, scratch).1)
    ensures if NeedsLong(name) then item.hasLong && item.longName == name else ShortText(item.entry) == name
  {
    hide FindSpot, ZeroSuffix, Place, NeedsLong, Prepare, FirstMatch, Items, Written, Taken, ShortText, AddEntry,
         Format83, FragmentCount, Reserve;
    var e := AddedWritten(v, cb, name, attr, n, size, scratch);
    SpotMeans(v.root, name);
    var s := FindSpot(v.root, name).value;
    CreatedIsFound(v.root, name, e);
    item := Written(v.root, s.at, s.long, s.count, e);
    WrittenEntry(v.root, s.at, s.long, s.count, e);
    if NeedsLong(name) {
      PreparedIsString(name);
      LongNameRoundTrip(v.root, s.at, s.long, e);
    } else {
      ShortHasNoLower(name);
      ShortTextOf(name, e);
      NoLowerSame(name);
    }
  }

  /** A file just created is found with attribute 0x20. */
  lemma CreatedReads(v: Vol, cb: nat, name: seq<byte>, size: nat, scratch: nat -> bool) returns (item: Item)
    requires cb > 0 && WellFormed(v.store, cb) && ZeroSuffix(v.root) && size < TWO32 && Findable(name)
    requires CreateFile(v, cb, name, size, scratch).Some?
    ensures var root := CreateFile(v, cb, name, size, scratch).value.root;
            FirstMatch(Items(root), name) == Some(item) && item in Items(root)
    ensures name != [] && item.entry[11] == 0x20 && Le32(item.entry, 28) == size && !IsDirEntry(item.entry)
    ensures if NeedsLong(name) then item.hasLong && item.longName == name else ShortText(item.entry) == name
  {
    hide ZeroSuffix, NeedsLong, FirstMatch, Items, ShortText, AddEntry, CreateCount, Reserve, Findable;
    item := AddedReads(v, cb, name, ATTR_FILE, CreateCount(size, cb), size, scratch);
  }

  /** A directory just made is found with attribute 0x10 and the cluster taken for it. */
  lemma MkdirReads(v: Vol, cb: nat, name: seq<byte>) returns (item: Item)
    requires cb >= 512 && WellFormed(v.store, cb) && ZeroSuffix(v.root) && Findable(name)
    requires Mkdir(v, cb, name).Some?
    ensures FirstMatch(Items(Mkdir(v, cb, name).value.root), name) == Some(item)
    ensures item.entry[11] == 0x10 && IsDirEntry(item.entry)
    ensures Le16(item.entry, 26) == NextFit(v.store.fat, v.store.hint)
    ensures if NeedsLong(name) then item.hasLong && item.longName == name else ShortText(item.entry) == name
  {
    hide ZeroSuffix, NeedsLong, FirstMatch, Items, ShortText, AddEntry, Reserve, Findable, DirBlock, NextFit;
    item := AddedReads(v, cb, name, ATTR_DIR, 1, 0, NoScratch);
    ReserveOne(v.store, cb, NoScratch);
  }

  /** An entry is a directory if and only if bit 4 of its attribute is set, whatever the other bits are. */
  lemma DirectoryBit(e: Slot, low: nat, dir: bool, high: nat)
    requires low < 16 && e[11] as int == low + (if dir then 16 else 0) + 32 * high
    ensures IsDirEntry(e) <==> dir
  {
  }

  lemma ShortHasNoLower(name: seq<byte>)
    requires !NeedsLong(name)
    ensures ShortOk(name) && forall i :: 0 <= i < |name| ==> !IsLower(name[i])
  {
    hide LastDot;
  }

  /** Fragments left over in front of slot `i` carry the checksum of its entry and another name. */
  ghost predicate Haunted(root: seq<Slot>, i: nat, name: seq<byte>) {
    exists n: nat :: n <= i && Belongs(root, i, n) && CString(TextOf(root, i, n)) !in {[], name}
  }

  /** The listing shows a file just created under the very name given, case included, if and only if the name
      needs a long entry or no fragments left over in front of its slot carry its checksum and another
      name. */
  lemma CreatedShown(v: Vol, cb: nat, name: seq<byte>, size: nat, scratch: nat -> bool) returns (item: Item)
    requires cb > 0 && WellFormed(v.store, cb) && ZeroSuffix(v.root) && size < TWO32 && Findable(name)
    requires CreateFile(v, cb, name, size, scratch).Some?
    ensures var root := CreateFile(v, cb, name, size, scratch).value.root;
            && FirstMatch(Items(root), name) == Some(item)
            && (Shown(item) == name <==> NeedsLong(name) || !Haunted(root, item.idx, name))
  {
    hide ZeroSuffix, NeedsLong, FirstMatch, Items, ShortText, CreateFile, Belongs, CString, TextOf, Findable;
    item := CreatedReads(v, cb, name, size, scratch);
    LongNameAttached(CreateFile(v, cb, name, size, scratch).value.root, item);
  }

  /** A directory with a fragment of "b" left over, which carries the checksum of "A", and slots never
      used. */
  function LeftOver(room: nat): (r: seq<Slot>) { Followed([Fragment([0x62], 1, 0, Checksum(Format83([0x41])))], room) }

  lemma PlainA()
    ensures !NeedsLong([0x41]) && Findable([0x41]) && Format83([0x41]) == [0x41] + Fill(10, SPACE)
  {
    var name: seq<byte> := [0x41];
    assert LastDot(name) == 1;
    assert Base(name) == name && Ext(name) == [];
    assert UpAll(name) == name && UpAll([]) == [];
  }

  lemma LeftOverSpot(room: nat)
    requires room > 0
    ensures ZeroSuffix(LeftOver(room)) && |LeftOver(room)| == room + 1 && Items(LeftOver(room)) == []
    ensures FindSpot(LeftOver(room), [0x41]) == Some(Spot([0x41], 0, Format83([0x41]), 1))
  {
    hide Fragment, Checksum, NeedsLong, Format83, Push, Findable;
    var root := LeftOver(room);
    var f := Fragment([0x62], 1, 0, Checksum(Format83([0x41])));
    FragmentIsLfn([0x62], 1, 0, Checksum(Format83([0x41])));
    PlainA();
    assert root[0] == f && forall i :: 1 <= i < |root| ==> root[i][0] == 0;
    assert Scan(root, 1, Next(Idle, f, 0)) == [];
    assert Items(root) == Yield(Idle, f, 0) + [];
    TakenStops(root, Format83([0x41]));
    FirstRun(root);
  }

  lemma TakenStops(root: seq<Slot>, short: Short)
    requires |root| >= 2 && IsLfn(root[0]) && root[1][0] == 0
    ensures !Taken(root, short)
  {
    assert !TakenFrom(root, short, 1);
  }

  lemma FirstRun(root: seq<Slot>)
    requires |root| >= 2 && !IsFree(root[0]) && IsFree(root[1])
    ensures FindRun(root, 0, 1) == Some(1)
  {
    assert !RunIsFree(root, 0, 1) && RunIsFree(root, 1, 1);
  }

  /** In that directory a file created as "A" is listed as "b". */
  lemma LeftOverRenames(room: nat, e: Slot)
    requires room > 0 && IsLive(e) && e[..11] == Format83([0x41])
    ensures FindSpot(LeftOver(room), [0x41]) == Some(Spot([0x41], 0, Format83([0x41]), 1))
    ensures var found := FirstMatch(Items(Place(LeftOver(room), 1, [0x41], 0, e)), [0x41]);
            found.Some? && found.value.entry == e && Shown(found.value) == [0x62]
  {
    hide Fragment, Checksum, NeedsLong, Format83, FindSpot, Items, Place, FirstMatch, ShortText, Written;
    var root := LeftOver(room);
    PlainA();
    LeftOverSpot(room);
    CreatedIsFound(root, [0x41], e);
    WrittenEntry(root, 1, [0x41], 0, e);
    LeftOverState(room, e);
  }

  lemma LeftOverState(room: nat, e: Slot)
    requires room > 0 && e[..11] == Format83([0x41])
    ensures var w := Written(LeftOver(room), 1, [0x41], 0, e); w.hasLong && w.longName == [0x62]
  {
    hide Fragment, Checksum, Format83, Push;
    var sum := Checksum(Format83([0x41]));
    FragmentIsLfn([0x62], 1, 0, sum);
    RunReadsBack(Idle, [0x62], sum, 0);
    AsciiExact([0x62]);
    var root := LeftOver(room);
    assert root[0] == Fragment([0x62], 1, 0, sum);
    assert PushRun(Idle, [0x62], 1, sum, 0, 1) == Push(PushRun(Idle, [0x62], 1, sum, 0, 0), root[0], 0);
    assert StateAt(root, 1) == Next(StateAt(root, 0), root[0], 0);
  }

  // ---------------------------------------------------------------- case

  /** `a` and `b` differ in the case of letters alone. */
  ghost predicate Recased(a: seq<byte>, b: seq<byte>) {
    |a| == |b| && forall i :: 0 <= i < |a| ==>
      a[i] == b[i] || (0x41 <= a[i] <= 0x5A && b[i] == a[i] + 32) || (0x41 <= b[i] <= 0x5A && a[i] == b[i] + 32)
  }

  lemma RecasedMatches(item: Item, a: seq<byte>, b: seq<byte>)
    requires Recased(a, b)
    ensures Matches(item, a) <==> Matches(item, b)
  {
    hide ShortText;
    forall t: seq<byte>
      ensures CaseEq(t, a) <==> CaseEq(t, b)
    {
      RecasedEq(t, a, b);
    }
  }

  lemma RecasedEq(t: seq<byte>, a: seq<byte>, b: seq<byte>)
    requires Recased(a, b)
    ensures CaseEq(t, a) <==> CaseEq(t, b)
  {
    assert forall i :: 0 <= i < |a| ==> Up(a[i]) == Up(b[i]);
  }

  /** A lookup finds the same entry however the name is cased. */
  lemma {:induction false} LookupIgnoresCase(items: seq<Item>, a: seq<byte>, b: seq<byte>)
    requires Recased(a, b)
    ensures FirstMatch(items, a) == FirstMatch(items, b)
  {
    hide Matches;
    if items != [] {
      RecasedMatches(items[0], a, b);
      LookupIgnoresCase(items[1..], a, b);
    }
  }

  /** And only then: two long names match one another if they differ in case alone. */
  lemma MatchesLong(item: Item, name: seq<byte>)
    requires item.hasLong && name != []
    ensures Recased(item.longName, name) ==> Matches(item, name)
    ensures Matches(item, name) ==> Recased(item.longName, name) || Recased(ShortText(item.entry), name)
  {
    hide ShortText;
  }

  // ---------------------------------------------------------------- letters and digits

  /** Capital letters and digits; letters of either case and digits. */
  ghost predicate Capitals(s: seq<byte>) {
    forall i :: 0 <= i < |s| ==> 0x41 <= s[i] <= 0x5A || 0x30 <= s[i] <= 0x39
  }

  ghost predicate Alnum(s: seq<byte>) {
    forall i :: 0 <= i < |s| ==> 0x41 <= s[i] <= 0x5A || 0x61 <= s[i] <= 0x7A || 0x30 <= s[i] <= 0x39
  }

  function Dotted(base: seq<byte>, ext: seq<byte>): seq<byte> { if ext == [] then base else base + [DOT] + ext }

  lemma DottedParts(base: seq<byte>, ext: seq<byte>)
    requires Alnum(base) && Alnum(ext)
    ensures Base(Dotted(base, ext)) == base && Ext(Dotted(base, ext)) == ext
    ensures LastDot(Dotted(base, ext)) < |Dotted(base, ext)| <==> ext != []
  {
    var name := Dotted(base, ext);
    LastDotIs(name, if ext == [] then |name| else |base|);
  }

  lemma LastDotIs(s: seq<byte>, d: nat)
    requires d <= |s| && (d < |s| ==> s[d] == DOT) && (forall i :: d < i < |s| ==> s[i] != DOT)
    requires d == |s| ==> DOT !in s
    ensures LastDot(s) == d
  {
    hide LastDot;
    var r := LastDot(s);
    if r < |s| { assert s[r] in s; }
  }

  /** A name of up to eight and up to three capitals and digits needs no long entry, and its short name is
      those, padded with blanks. */
  lemma CapitalsAreShort(base: seq<byte>, ext: seq<byte>)
    requires Capitals(base) && Capitals(ext) && 1 <= |base| <= 8 && |ext| <= 3
    ensures var name := Dotted(base, ext);
            && !NeedsLong(name) && Findable(name)
            && (forall i :: 0 <= i < 8 ==> Format83(name)[i] == if i < |base| then base[i] else 0x20)
            && (forall i :: 0 <= i < 3 ==> Format83(name)[8 + i] == if i < |ext| then ext[i] else 0x20)
  {
    CapitalsOk(base, ext);
    DottedParts(base, ext);
    hide LastDot, NeedsLong, MakeShort, Base, Ext, UpAll;
    NoLowerSame(base);
    NoLowerSame(ext);
    MadeShort(base, ext);
  }

  lemma CapitalsOk(base: seq<byte>, ext: seq<byte>)
    requires Capitals(base) && Capitals(ext) && 1 <= |base| <= 8 && |ext| <= 3
    ensures !NeedsLong(Dotted(base, ext))
  {
    hide LastDot, Base, Ext;
    DottedParts(base, ext);
  }

  /** A lower-case letter, a base of more than eight or an extension of more than three calls for a long
      entry. */
  lemma OthersAreLong(base: seq<byte>, ext: seq<byte>)
    requires Alnum(base) && Alnum(ext) && base != []
    requires !Capitals(base) || !Capitals(ext) || |base| > 8 || |ext| > 3
    ensures NeedsLong(Dotted(base, ext))
  {
    hide LastDot;
    DottedParts(base, ext);
    var name := Dotted(base, ext);
    if !Capitals(base) {
      var i :| 0 <= i < |base| && !(0x41 <= base[i] <= 0x5A || 0x30 <= base[i] <= 0x39);
      assert IsLower(name[i]);
    } else if !Capitals(ext) {
      var i :| 0 <= i < |ext| && !(0x41 <= ext[i] <= 0x5A || 0x30 <= ext[i] <= 0x39);
      assert IsLower(name[|base| + 1 + i]);
    }
  }

  lemma AlnumKept(c: byte)
    requires 0x41 <= c <= 0x5A || 0x61 <= c <= 0x7A || 0x30 <= c <= 0x39
    ensures 0x20 < Up(c) <= 0x7E && Up(c) !in [0x2B, 0x2C, 0x3B, 0x3D, 0x5B, 0x5D, 0x3A]
  {
  }

  lemma UpFirst(s: seq<byte>, n: nat)
    requires 0 < n <= |s|
    ensures UpAll(s[..n]) == [Up(s[0])] + UpAll(s[1..][..n - 1])
  {
    hide Up;
  }

  lemma {:induction false} SanitizeAlnum(s: seq<byte>, cap: nat)
    requires Alnum(s)
    ensures Sanitize(s, cap) == UpAll(s[..Min(|s|, cap)])
  {
    if s != [] && cap > 0 {
      AlnumKept(s[0]);
      hide UpAll, Up;
      SanitizeAlnum(s[1..], cap - 1);
      UpFirst(s, Min(|s|, cap));
    } else {
      assert s[..Min(|s|, cap)] == [];
    }
  }

  lemma MadeShort(b: seq<byte>, x: seq<byte>)
    ensures forall i :: 0 <= i < 8 ==> MakeShort(b, x)[i] == if i < |b| then b[i] else SPACE
    ensures forall i :: 0 <= i < 3 ==> MakeShort(b, x)[8 + i] == if i < |x| then x[i] else SPACE
  {
    hide Pad;
  }

  /** The first alias of a name of letters and digits is the first eight and three of its capitals; the next
      is the first six, a tilde and a percent sign. */
  lemma AliasBytes(base: seq<byte>, ext: seq<byte>)
    requires Alnum(base) && Alnum(ext) && 6 <= |base| <= 31 && |ext| <= 7
    ensures var a, b := Candidate(Dotted(base, ext), 0), Candidate(Dotted(base, ext), 1);
            && (forall i :: 0 <= i < 8 ==> a[i] == if i < |base| then Up(base[i]) else 0x20)
            && (forall i :: 0 <= i < 6 ==> b[i] == Up(base[i])) && b[6] == 0x7E && b[7] == 0x25
            && (forall i :: 0 <= i < 3 ==> a[8 + i] == b[8 + i] == if i < |ext| then Up(ext[i]) else 0x20)
  {
    hide LastDot, Sanitize;
    DottedParts(base, ext);
    SanitizeAlnum(base, 31);
    SanitizeAlnum(ext, 7);
    assert base[..|base|] == base && ext[..|ext|] == ext;
    DigitsOf(1);
    hide MakeShort, Up, Base, Ext;
    var b, x := UpAll(base), UpAll(ext);
    MadeShort(b, x);
    MadeShort(Tilde(b[..6]), x);
  }

  // ---------------------------------------------------------------- blanks and dots around a name

  ghost predicate Blanks(s: seq<byte>) { forall i :: 0 <= i < |s| ==> s[i] == 0x20 }

  ghost predicate BlanksOrDots(s: seq<byte>) { forall i :: 0 <= i < |s| ==> s[i] == 0x20 || s[i] == 0x2E }

  /** Preparation takes off blanks in front and blanks and dots behind, and nothing else. */
  lemma PrepareTrims(front: seq<byte>, t: seq<byte>, back: seq<byte>)
    requires Blanks(front) && BlanksOrDots(back) && 1 <= |t| <= 255
    requires t[0] != 0x20 && t[|t| - 1] != 0x20 && t[|t| - 1] != 0x2E
    requires forall i :: 0 <= i < |t| ==>
               t[i] >= 0x20 && t[i] != 0x7F && t[i] !in {0x22, 0x2A, 0x2F, 0x3A, 0x3C, 0x3E, 0x3F, 0x5C, 0x7C}
    ensures Prepare(front + t + back) == Some(t)
  {
    hide TrimEnd, TrimStart;
    var s := front + t + back;
    TrimsBack(s, |front| + |t|, |s|);
    TrimsFront(s, 0, |front|, |front| + |t|);
    assert s[|front|..|front| + |t|] == t;
    forall k | 0 <= k < |t|
      ensures LongChar(t[k])
    {
    }
  }

  lemma {:induction false} TrimsBack(s: seq<byte>, end: nat, n: nat)
    requires 0 < end <= n <= |s| && s[end - 1] != SPACE && s[end - 1] != DOT
    requires forall i :: end <= i < n ==> s[i] == SPACE || s[i] == DOT
    ensures TrimEnd(s, n) == end
    decreases n
  {
    if n > end { TrimsBack(s, end, n - 1); }
  }

  lemma {:induction false} TrimsFront(s: seq<byte>, i: nat, start: nat, n: nat)
    requires i <= start < n <= |s| && s[start] != SPACE && forall k :: i <= k < start ==> s[k] == SPACE
    ensures TrimStart(s, i, n) == start
    decreases start - i
  {
    if i < start { TrimsFront(s, i + 1, start, n); }
  }

  predicate Forbidden(c: byte) {
    c < 0x20 || c == 0x7F || c in {0x22, 0x2A, 0x2F, 0x3A, 0x3C, 0x3E, 0x3F, 0x5C, 0x7C}
  }

  /** A name with nothing to take off is refused for any character no long name may hold. */
  lemma PrepareRefuses(s: seq<byte>, i: nat)
    requires i < |s| && Forbidden(s[i]) && s[0] != 0x20 && s[|s| - 1] != 0x20 && s[|s| - 1] != 0x2E
    ensures Prepare(s).None?
  {
    hide TrimEnd, TrimStart;
    TrimsBack(s, |s|, |s|);
    TrimsFront(s, 0, 0, |s|);
    assert !LongChar(s[0..|s|][i]);
  }

  /** So is a name of which nothing is left. */
  lemma PrepareEmpty(s: seq<byte>)
    requires BlanksOrDots(s)
    ensures Prepare(s).None?
  {
    hide TrimEnd;
    TrimsAll(s, |s|);
  }

  lemma {:induction false} TrimsAll(s: seq<byte>, n: nat)
    requires n <= |s| && BlanksOrDots(s)
    ensures TrimEnd(s, n) == 0
  {
    if n > 0 { TrimsAll(s, n - 1); }
  }

  // ---------------------------------------------------------------- characters no short name holds

  /** Blanks and control characters, bytes above 0x7E, and + , ; = [ ] : */
  predicate Dropped(c: byte) { c <= 0x20 || c > 0x7E || c in {0x2B, 0x2C, 0x3B, 0x3D, 0x5B, 0x5D, 0x3A} }

  /** An alias leaves those out and keeps every other character, as a capital. */
  lemma SanitizeDrops(c: byte, s: seq<byte>, cap: nat)
    requires cap > 0
    ensures Sanitize([c] + s, cap) == if Dropped(c) then Sanitize(s, cap) else [Up(c)] + Sanitize(s, cap - 1)
  {
    assert ([c] + s)[1..] == s;
  }

  /** A name that holds one of them needs a long entry. */
  lemma DroppedNeedLong(s: seq<byte>, i: nat)
    requires i < |s| && Dropped(s[i])
    ensures NeedsLong(s)
  {
    hide LastDot;
    var d := LastDot(s);
    if ShortOk(s) {
      if i < d {
        assert ShortChar(Base(s)[i]);
      } else if i > d {
        assert ShortChar(Ext(s)[i - d - 1]);
      }
    }
  }

  /** No entry is made without a name, under the two special names, or under a name that is found. */
  lemma RefusedNames(root: seq<Slot>, name: seq<byte>)
    requires name in {[], [0x2E], [0x2E, 0x2E]} || FirstMatch(Items(root), name).Some?
    ensures FindSpot(root, name).None? && Settle(root, name).None?
  {
    hide Items, FirstMatch, NeedsLong, Prepare, Generate, FindRun;
  }
}
