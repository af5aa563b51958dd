/** Looking a name up after creating it: exactly which names come back. */
module FatLookup {
  import opened Bytes
  import opened FatChains
  import opened FatDisk
  import opened FatLfn
  import opened FatDir
  import opened FatNames
  import opened FatRoot
  import opened FatRuns

  ghost predicate SevenBit(s: seq<byte>) { forall i :: 0 <= i < |s| ==> s[i] <= 0x7F }

  // ---------------------------------------------------------------- short text is short and 7-bit

  lemma {:induction false} CStringPrefix(s: seq<byte>)
    ensures CString(s) <= s
  {
    if s != [] && s[0] != 0 { CStringPrefix(s[1..]); }
  }

  lemma FieldBounds(s: seq<byte>)
    ensures |Field(s)| <= |s| && (SevenBit(s) ==> SevenBit(Field(s)))
  {
    CStringPrefix(s[..TrimBlanks(s, |s|)]);
  }

  lemma ShortTextBounds(e: Slot)
    ensures |ShortText(e)| <= 12 && (SevenBit(e[..11]) ==> SevenBit(ShortText(e)))
  {
    hide Field;
    FieldBounds(e[..8]);
    FieldBounds(e[8..11]);
    assert SevenBit(e[..11]) ==> SevenBit(e[..8]) && SevenBit(e[8..11]) by {
      if SevenBit(e[..11]) {
        assert forall i :: 0 <= i < 8 ==> e[..8][i] == e[..11][i];
        assert forall i :: 0 <= i < 3 ==> e[8..11][i] == e[..11][8 + i];
      }
    }
  }

  lemma CandidateSevenBit(name: seq<byte>, n: nat)
    requires n < 10000
    ensures SevenBit(Candidate(name, n))
  {
    hide AliasBase, Sanitize;
    if n > 0 { DigitsOf(n); }
  }

  lemma GeneratedSevenBit(root: seq<Slot>, name: seq<byte>)
    ensures Generate(root, name).Some? ==> SevenBit(Generate(root, name).value)
  {
    hide Candidate, Taken, SevenBit;
    GenerateFromMeans(root, name, 0);
    var r := Generate(root, name);
    if r.Some? {
      var k :| 0 <= k < 10000 && r.value == Candidate(name, k);
      CandidateSevenBit(name, k);
    }
  }

  // ---------------------------------------------------------------- no listing shows more than 247 characters

  ghost predicate ShortBuffer(st: LfnState) {
    st.Collecting? ==> forall p {:trigger st.name[p]} :: 247 <= p < NAME_BUFFER ==> st.name[p] == 0
  }

  lemma PushShort(st: LfnState, s: Slot, idx: nat)
    requires ShortBuffer(st)
    ensures ShortBuffer(Push(st, s, idx))
  {
    hide Decode;
  }

  lemma {:induction false} CStringStops(s: seq<byte>, n: nat)
    requires n < |s| && s[n] == 0
    ensures |CString(s)| <= n
  {
    if n > 0 && s[0] != 0 { CStringStops(s[1..], n - 1); }
  }

  ghost predicate ShortNames(items: seq<Item>) {
    forall i :: 0 <= i < |items| ==> |items[i].longName| <= 247
  }

  lemma StepShort(st: LfnState, s: Slot, idx: nat)
    requires ShortBuffer(st)
    ensures ShortNames(Yield(st, s, idx)) && ShortBuffer(Next(st, s, idx))
  {
    hide Push, Checksum, CString;
    if s[0] != DELETED && IsLfn(s) { PushShort(st, s, idx); }
    if st.Collecting? {
      assert st.name[..255][247] == st.name[247];
      CStringStops(st.name[..255], 247);
    }
  }

  lemma {:induction false} ScanShort(root: seq<Slot>, i: nat, st: LfnState)
    requires ShortBuffer(st)
    ensures ShortNames(Scan(root, i, st))
    decreases |root| - i
  {
    if i < |root| && root[i][0] != 0 {
      hide Yield, Next, ShortBuffer;
      StepShort(st, root[i], i);
      ScanShort(root, i + 1, Next(st, root[i], i));
    }
  }

  /** A name of more than 247 characters is found in no directory whatever. */
  lemma LongNameNeverFound(root: seq<Slot>, name: seq<byte>)
    requires |name| > 247
    ensures FirstMatch(Items(root), name).None?
  {
    hide Scan, ShortText;
    ScanShort(root, 0, Idle);
    forall item | item in Items(root)
      ensures !Matches(item, name)
    {
      ShortTextBounds(item.entry);
    }
  }

  // ---------------------------------------------------------------- created, then looked up

  /** The names a create can be followed by a successful lookup of. */
  ghost predicate Findable(name: seq<byte>) {
    !NeedsLong(name) || (Prepare(name) == Some(name) && |name| <= 247 && SevenBit(name))
  }

  lemma WrittenMatches(root: seq<Slot>, name: seq<byte>, e: Slot)
    requires ZeroSuffix(root) && FindSpot(root, name).Some?
    requires var s := FindSpot(root, name).value;
             e[..11] == s.short && s.at + s.count < |root| && s.count <= MAX_ENTRIES
    ensures var s := FindSpot(root, name).value;
            Matches(Written(root, s.at, s.long, s.count, e), name) <==> Findable(name)
  {
    hide FindSpot, Written, Items, Taken, Prepare, FreeRun, NoZeroBefore, ShortText, ZeroSuffix, Format83, NeedsLong,
         ShortOk;
    SpotMeans(root, name);
    var s := FindSpot(root, name).value;
    var w := Written(root, s.at, s.long, s.count, e);
    if NeedsLong(name) {
      PreparedIsString(name);
      LongNameRoundTrip(root, s.at, s.long, e);
      SpotSevenBit(root, name);
      ShortTextBounds(e);
      if s.long != name {
        ChangedName(name);
        SpotText(root, name, e);
        NoMatchChanged(w, name, s.long, e);
      } else if !(|name| <= 247 && SevenBit(name)) {
        NoMatch(w, name, e);
      }
    } else {
      NoLongIsShort(name);
      ShortTextOf(name, e);
      WrittenEntry(root, s.at, s.long, s.count, e);
      UpTwice(name);
    }
  }

  lemma NoLongIsShort(name: seq<byte>)
    requires !NeedsLong(name)
    ensures ShortOk(name)
  {
  }

  lemma WrittenEntry(root: seq<Slot>, a: nat, name: seq<byte>, count: nat, e: Slot)
    requires a + count < |root| && count <= MAX_ENTRIES
    ensures Written(root, a, name, count, e).entry == e && Written(root, a, name, count, e).idx == a + count
  {
    hide PushRun, Checksum, StateAt, LongName;
  }

  lemma PreparedIsString(name: seq<byte>)
    requires Prepare(name).Some?
    ensures var long := Prepare(name).value; IsString(long) && 1 <= |long| <= 255
  {
    hide TrimEnd, TrimStart;
    var long := Prepare(name).value;
    forall i | 0 <= i < |long|
      ensures long[i] != 0
    {
      assert LongChar(long[i]);
    }
  }

  // ---------------------------------------------------------------- names that preparation changes

  lemma {:induction false} TrimEndCuts(s: seq<byte>, n: nat)
    requires n <= |s|
    ensures TrimEnd(s, n) < n ==> s[n - 1] == SPACE || s[n - 1] == DOT
  {
  }

  lemma TrimStartCuts(s: seq<byte>, n: nat)
    requires n <= |s|
    ensures TrimStart(s, 0, n) > 0 ==> n > 0 && s[0] == SPACE
  {
  }

  /** A name that preparation changes gets shorter, and starts with a blank or ends with a blank or a
      dot. */
  lemma ChangedName(name: seq<byte>)
    requires Prepare(name).Some? && Prepare(name).value != name
    ensures |Prepare(name).value| < |name|
    ensures name[0] == SPACE || name[|name| - 1] == SPACE || name[|name| - 1] == DOT
  {
    hide TrimEnd, TrimStart;
    var n := TrimEnd(name, |name|);
    TrimEndCuts(name, |name|);
    TrimStartCuts(name, n);
    assert name[0..|name|] == name;
  }

  lemma {:induction false} SanitizeShorter(s: seq<byte>, cap: nat)
    ensures |Sanitize(s, cap)| <= |s|
    ensures DOT !in s ==> DOT !in Sanitize(s, cap)
  {
    if s != [] && cap > 0 {
      SanitizeShorter(s[1..], cap - 1);
      SanitizeShorter(s[1..], cap);
      assert DOT !in s ==> DOT !in s[1..] && Up(s[0]) != DOT;
    }
  }

  /** Printable, and nothing of it is blank. */
  ghost predicate Visible(s: seq<byte>) { forall i :: 0 <= i < |s| ==> 0x20 < s[i] <= 0x7E }

  /** How an alias reads: the two fields cut to size, a dot between them if there is a second. */
  lemma AliasText(b: seq<byte>, x: seq<byte>, e: Slot)
    requires Visible(b) && Visible(x) && e[..11] == MakeShort(b, x)
    ensures var b8, x3 := b[..Min(|b|, 8)], x[..Min(|x|, 3)];
            ShortText(e) == if x3 != [] then b8 + [DOT] + x3 else b8
  {
    var b8, x3 := b[..Min(|b|, 8)], x[..Min(|x|, 3)];
    assert Pad(b, 8) == Pad(b8, 8) && Pad(x, 3) == Pad(x3, 3);
    ShortTextParts(b8, x3, e);
  }

  /** What an alias of `long` looks like: it has no blank at either end, and if it ends with a dot it is
      no longer than `long`. */
  ghost predicate AliasLike(t: seq<byte>, long: seq<byte>) {
    t != [] && t[0] != SPACE && t[|t| - 1] != SPACE && (t[|t| - 1] == DOT ==> |t| <= |long|)
  }

  lemma ExtNoDot(name: seq<byte>)
    ensures DOT !in Ext(name)
  {
    hide LastDot;
    var d, x := LastDot(name), Ext(name);
    forall i | 0 <= i < |x|
      ensures x[i] != DOT
    {
      assert x[i] == name[d + 1 + i];
    }
  }

  lemma JoinedLike(b: seq<byte>, x: seq<byte>, long: seq<byte>, e: Slot)
    requires b != [] && Visible(b) && Visible(x) && DOT !in x && e[..11] == MakeShort(b, x)
    requires b[Min(|b|, 8) - 1] == DOT ==> Min(|b|, 8) <= |long|
    ensures AliasLike(ShortText(e), long)
  {
    hide ShortText, MakeShort;
    AliasText(b, x, e);
    var b8, x3 := b[..Min(|b|, 8)], x[..Min(|x|, 3)];
    if x3 != [] {
      var t := b8 + [DOT] + x3;
      assert t[|t| - 1] == x3[|x3| - 1] && t[0] == b8[0];
    }
  }

  lemma ExtSanitized(long: seq<byte>)
    ensures Visible(AliasExt(long)) && DOT !in AliasExt(long)
  {
    hide Sanitize;
    ExtNoDot(long);
    SanitizeShorter(Ext(long), 7);
  }

  lemma CandidateText(long: seq<byte>, n: nat, e: Slot)
    requires n < 10000 && e[..11] == Candidate(long, n)
    ensures AliasLike(ShortText(e), long)
  {
    hide AliasBase, AliasExt, ShortText, Digits, MakeShort, Tilde, AliasLike;
    var b, x := AliasBase(long), AliasExt(long);
    ExtSanitized(long);
    if n == 0 {
      BaseEnds(long);
      JoinedLike(b, x, long, e);
    } else {
      DigitsOf(n);
      var prefix := b[..Min(|b|, 7 - Min(Digits(n), 6))];
      TildeEnds(prefix);
      JoinedLike(Tilde(prefix), x, long, e);
    }
  }

  lemma BaseEnds(long: seq<byte>)
    ensures var b := AliasBase(long); b[Min(|b|, 8) - 1] == DOT ==> Min(|b|, 8) <= |long|
  {
    hide Sanitize, LastDot;
    SanitizeShorter(Base(long), 31);
  }

  lemma TildeEnds(prefix: seq<byte>)
    requires |prefix| <= 6 && Visible(prefix)
    ensures var t := Tilde(prefix); Visible(t) && 1 <= |t| <= 8 && t[|t| - 1] != DOT
  {
  }

  lemma SpotText(root: seq<Slot>, name: seq<byte>, e: Slot)
    requires FindSpot(root, name).Some? && NeedsLong(name) && e[..11] == FindSpot(root, name).value.short
    ensures AliasLike(ShortText(e), FindSpot(root, name).value.long)
  {
    hide Items, Prepare, NeedsLong, FindRun, Candidate, Taken, ShortText, AliasLike;
    var long := FindSpot(root, name).value.long;
    GenerateFromMeans(root, long, 0);
    var k :| 0 <= k < 10000 && FindSpot(root, name).value.short == Candidate(long, k);
    CandidateText(long, k, e);
  }

  lemma NoMatchChanged(w: Item, name: seq<byte>, long: seq<byte>, e: Slot)
    requires w.entry == e && AliasLike(ShortText(e), long) && |long| < |name|
    requires name[0] == SPACE || name[|name| - 1] == SPACE || name[|name| - 1] == DOT
    requires w.hasLong ==> |w.longName| == |long|
    ensures !Matches(w, name)
  {
    hide ShortText;
  }

  lemma SpotSevenBit(root: seq<Slot>, name: seq<byte>)
    requires FindSpot(root, name).Some? && NeedsLong(name)
    ensures SevenBit(FindSpot(root, name).value.short)
  {
    hide Items, Prepare, Generate, NeedsLong, FindRun, SevenBit;
    GeneratedSevenBit(root, FindSpot(root, name).value.long);
  }

  lemma NoMatch(w: Item, name: seq<byte>, e: Slot)
    requires w.entry == e && |ShortText(e)| <= 12 && SevenBit(ShortText(e)) && |name| > 0
    requires !(|name| <= 247 && SevenBit(name))
    requires w.hasLong ==> w.longName == AsciiName(name) && |name| <= 247
    ensures !Matches(w, name)
  {
    hide ShortText;
    if |name| <= 247 {
      var i :| 0 <= i < |name| && name[i] > 0x7F;
      assert Up(name[i]) == name[i];
      if w.hasLong { assert AsciiName(name)[i] == QUESTION; }
    }
  }

  /** The exact law of lookup after create, for every name that can be created: it is found again if and
      only if it needs no long entry, or preparation leaves it as it is and it has at most 247
      characters, all 7-bit. What is found is the entry just written. */
  lemma CreatedIsFound(root: seq<Slot>, name: seq<byte>, e: Slot)
    requires ZeroSuffix(root) && FindSpot(root, name).Some? && IsLive(e)
    requires var s := FindSpot(root, name).value;
             e[..11] == s.short && s.at + s.count < |root| && s.count <= MAX_ENTRIES
    ensures var s := FindSpot(root, name).value;
            FirstMatch(Items(Place(root, s.at, s.long, s.count, e)), name) ==
            if Findable(name) then Some(Written(root, s.at, s.long, s.count, e)) else None
  {
    hide FindSpot, Written, Items, Taken, Findable, Place, Format83, Matches, ItemsBefore, Scan, StateAt, NeedsLong,
         Prepare;
    SpotMeans(root, name);
    var s := FindSpot(root, name).value;
    var w := Written(root, s.at, s.long, s.count, e);
    WrittenMatches(root, name, e);
    PlaceInserts(root, s.at, s.long, s.count, e);
    var before, after := ItemsBefore(root, s.at), Scan(root, s.at, StateAt(root, s.at));
    if Findable(name) {
      FirstMatchInserted(before, w, after, name);
    } else {
      FirstMatchNone(before, w, after, name);
    }
  }

  lemma {:induction false} FirstMatchNone(before: seq<Item>, w: Item, after: seq<Item>, name: seq<byte>)
    requires FirstMatch(before + after, name).None? && !Matches(w, name)
    ensures FirstMatch(before + [w] + after, name).None?
  {
    hide Matches;
    var all := before + [w] + after;
    forall i | 0 <= i < |all|
      ensures !Matches(all[i], name)
    {
      if i < |before| {
        assert all[i] == (before + after)[i];
      } else if i > |before| {
        assert all[i] == (before + after)[i - 1];
      }
    }
  }

  // ---------------------------------------------------------------- names that cannot be written

  lemma CreatedStaysUnfound(v: Vol, cb: nat, name: seq<byte>)
    requires cb > 0 && WellFormed(v.store, cb) && ZeroSuffix(v.root) && !Findable(name)
    requires CreateFile(v, cb, name, 0, NoScratch).Some?
    ensures FirstMatch(Items(CreateFile(v, cb, name, 0, NoScratch).value.root), name).None?
  {
    hide FindSpot, Items, ZeroSuffix, Place, Findable, NeedsLong, Prepare, Reserve, Taken, FirstMatch, Written;
    SpotMeans(v.root, name);
    var s, cs := FindSpot(v.root, name).value, Reserve(v.store, cb, CreateCount(0, cb), 0, NoScratch).1;
    var e := ShortEntry(s.short, ATTR_FILE, cs[0], 0);
    assert e[0] == e[..11][0];
    CreatedIsFound(v.root, name, e);
  }

  /** A name that lookup cannot find again and that is not in the directory can never be written: each
      retry creates one more entry that the next lookup misses, until creating fails. */
  lemma {:induction false} UnfoundNeverWritten(v: Vol, cb: nat, name: seq<byte>, buf: seq<byte>)
    requires cb > 0 && cb % 512 == 0 && WellFormed(v.store, cb) && ZeroSuffix(v.root) && Unique(v.root)
    requires !Findable(name) && FirstMatch(Items(v.root), name).None?
    ensures WriteFile(v, cb, name, buf).None?
    decreases |FreeSlots(v.root)|
  {
    hide Unique, ZeroSuffix, Items, FreeSlots, CreateFile, WellFormed, Findable;
    var made := CreateFile(v, cb, name, 0, NoScratch);
    if made.Some? {
      WriteFileRetries(v, cb, name, buf, made.value);
      CreatedStaysUnfound(v, cb, name);
      UnfoundNeverWritten(made.value, cb, name, buf);
    }
  }

  /** Names of more than 247 characters are written in no directory whatever. */
  lemma LongNameNeverWritten(v: Vol, cb: nat, name: seq<byte>, buf: seq<byte>)
    requires cb > 0 && cb % 512 == 0 && WellFormed(v.store, cb) && ZeroSuffix(v.root) && Unique(v.root)
    requires |name| > 247
    ensures WriteFile(v, cb, name, buf).None?
  {
    hide Unique, ZeroSuffix, Items, WellFormed, WriteFile;
    LongNameNeverFound(v.root, name);
    LongNeedsLong(name);
    UnfoundNeverWritten(v, cb, name, buf);
  }

  lemma LongNeedsLong(name: seq<byte>)
    requires |name| > 12
    ensures NeedsLong(name)
  {
    hide LastDot;
  }

  /** Any directory of slots never used has a spot for a name whose prepared form takes one fragment. */
  lemma UnusedHasSpot(room: nat, name: seq<byte>)
    requires room >= 2 && name != [] && !IsDots(name) && NeedsLong(name)
    requires Prepare(name).Some? && FragmentCount(Prepare(name).value) == 1
    ensures FindSpot(Followed([], room), name).Some?
  {
    hide Prepare, NeedsLong, Candidate;
    var root := Followed([], room);
    assert Items(root) == [];
    assert !Taken(root, Candidate(Prepare(name).value, 0));
    assert Generate(root, Prepare(name).value).Some?;
  }

  /** "A." is 7-bit and short, is stored as "A", and is not found again: an empty directory has a spot for
      it, no entry written there matches it, and no write under it succeeds. */
  lemma TrailingDotLost(v: Vol, cb: nat, room: nat, e: Slot)
    requires cb > 0 && cb % 512 == 0 && WellFormed(v.store, cb) && room >= 2 && v.root == Followed([], room)
    ensures var name := [0x41, DOT];
            && FindSpot(v.root, name).Some? && Prepare(name) == Some([0x41]) && !Findable(name)
            && (forall buf :: ZeroSuffix(v.root) && Unique(v.root) && WriteFile(v, cb, name, buf).None?)
            && var s := FindSpot(v.root, name).value;
               IsLive(e) && e[..11] == s.short && s.at + s.count < room && s.count <= MAX_ENTRIES ==>
                 FirstMatch(Items(Place(v.root, s.at, s.long, s.count, e)), name).None?
  {
    hide FindSpot, Place, Items, WriteFile, Generate, ZeroSuffix, Unique;
    var name := [0x41, DOT];
    TrailingDotPrepared();
    UnusedHasSpot(room, name);
    UnusedOrdered(room, name);
    var s := FindSpot(v.root, name).value;
    if IsLive(e) && e[..11] == s.short && s.at + s.count < room && s.count <= MAX_ENTRIES {
      CreatedIsFound(v.root, name, e);
    }
    forall buf
      ensures WriteFile(v, cb, name, buf).None?
    {
      UnfoundNeverWritten(v, cb, name, buf);
    }
  }

  lemma TrailingDotPrepared()
    ensures Prepare([0x41, DOT]) == Some([0x41]) && NeedsLong([0x41, DOT]) && FragmentCount([0x41]) == 1
  {
    var name: seq<byte> := [0x41, DOT];
    assert TrimEnd(name, 1) == 1 && TrimEnd(name, 2) == 1 && TrimStart(name, 0, 1) == 0;
    assert name[0..1] == [0x41] && LongChar(0x41);
    assert LastDot(name) == 1;
  }

  lemma UnusedOrdered(room: nat, name: seq<byte>)
    requires room > 0
    ensures ZeroSuffix(Followed([], room)) && Unique(Followed([], room))
    ensures FirstMatch(Items(Followed([], room)), name).None?
  {
    assert Items(Followed([], room)) == [];
  }
}
