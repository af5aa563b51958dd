/** Names: which need a long entry, what a long name may hold, how a short name is formed and
    compared, and how an alias is generated. Names are byte strings without the terminator. */
module FatNames {
  import opened Bytes
  import opened FatDisk
  import opened FatLfn
  import opened FatDir

  type Short = s: seq<byte> | |s| == 11 witness Fill(11, 0x20)

  datatype Option<+T> = None | Some(value: T)

  const SPACE: byte := 0x20
  const DOT: byte := 0x2E

  predicate IsLower(c: byte) { 0x61 <= c <= 0x7A }

  function Up(c: byte): byte { if IsLower(c) then c - 32 else c }

  function UpAll(s: seq<byte>): (r: seq<byte>)
    ensures |r| == |s| && forall i :: 0 <= i < |s| ==> r[i] == Up(s[i])
  {
    seq(|s|, i requires 0 <= i < |s| => Up(s[i]))
  }

  /** `fat16_strcasecmp(a, b) == 0` */
  predicate CaseEq(a: seq<byte>, b: seq<byte>) {
    |a| == |b| && forall i :: 0 <= i < |a| ==> Up(a[i]) == Up(b[i])
  }

  predicate IsDots(name: seq<byte>) { name == [DOT] || name == [DOT, DOT] }

  // ---------------------------------------------------------------- long names

  predicate LongChar(c: byte) {
    c >= 0x20 && c != 0x7F && c !in [0x22, 0x2A, 0x2F, 0x3A, 0x3C, 0x3E, 0x3F, 0x5C, 0x7C]
  }

  /** The length of `s[..n]` without trailing blanks and dots. */
  function TrimEnd(s: seq<byte>, n: nat): (r: nat)
    requires n <= |s|
    ensures r <= n
  {
    if n > 0 && (s[n - 1] == SPACE || s[n - 1] == DOT) then TrimEnd(s, n - 1) else n
  }

  function TrimStart(s: seq<byte>, i: nat, n: nat): (r: nat)
    requires i <= n <= |s|
    ensures i <= r <= n
    decreases n - i
  {
    if i < n && s[i] == SPACE then TrimStart(s, i + 1, n) else i
  }

  /** `fat16_lfn_prepare_name`: the name with blanks and trailing dots cut, if it is acceptable. */
  function Prepare(s: seq<byte>): (r: Option<seq<byte>>)
    ensures r.Some? ==> 1 <= |r.value| <= 255 && forall i :: 0 <= i < |r.value| ==> LongChar(r.value[i])
  {
    var n := TrimEnd(s, |s|);
    var i := TrimStart(s, 0, n);
    var t := s[i..n];
    if t == [] || |t| > 255 || IsDots(t) || (exists k :: 0 <= k < |t| && !LongChar(t[k])) then None else Some(t)
  }

  // ---------------------------------------------------------------- short names

  predicate ShortChar(c: byte) {
    0x20 < Up(c) <= 0x7E && Up(c) !in [0x2B, 0x2C, 0x3B, 0x3D, 0x5B, 0x5D, 0x3A, DOT]
  }

  /** Position of the last dot, or the length. */
  function LastDot(s: seq<byte>): (r: nat)
    ensures r <= |s| && (r < |s| ==> s[r] == DOT)
    ensures forall i :: r < i < |s| ==> s[i] != DOT
    ensures r == |s| ==> DOT !in s
  {
    if s == [] then 0
    else if s[|s| - 1] == DOT then |s| - 1
    else
      var r := LastDot(s[..|s| - 1]);
      if r == |s| - 1 then |s| else r
  }

  function Base(s: seq<byte>): seq<byte> { s[..LastDot(s)] }

  function Ext(s: seq<byte>): seq<byte> {
    if LastDot(s) < |s| then s[LastDot(s) + 1..] else []
  }

  /** `fat16_is_valid_short_name`, the special names aside. */
  predicate ShortOk(s: seq<byte>) {
    && 1 <= |Base(s)| <= 8 && |Ext(s)| <= 3
    && (LastDot(s) < |s| ==> 1 <= |Ext(s)|)
    && (forall i :: 0 <= i < |Base(s)| ==> ShortChar(Base(s)[i]))
    && (forall i :: 0 <= i < |Ext(s)| ==> ShortChar(Ext(s)[i]))
  }

  /** `fat16_name_needs_lfn` for names other than the two special ones. */
  predicate NeedsLong(s: seq<byte>) {
    !ShortOk(s) || exists i :: 0 <= i < |s| && IsLower(s[i])
  }

  function Pad(s: seq<byte>, n: nat): (r: seq<byte>)
    ensures |r| == n
    ensures forall i :: 0 <= i < n ==> r[i] == if i < |s| then s[i] else SPACE
  {
    if |s| >= n then s[..n] else s + Fill(n - |s|, SPACE)
  }

  /** `fat16_make_short_name_from_base_ext`, and `_format_83` of a valid short name. */
  function MakeShort(base: seq<byte>, ext: seq<byte>): (r: Short) { Pad(base, 8) + Pad(ext, 3) }

  function Format83(s: seq<byte>): Short { MakeShort(UpAll(Base(s)), UpAll(Ext(s))) }

  /** A field without its trailing blanks, cut at a zero byte. */
  function Field(s: seq<byte>): (r: seq<byte>) { CString(s[..TrimBlanks(s, |s|)]) }

  function TrimBlanks(s: seq<byte>, n: nat): (r: nat)
    requires n <= |s|
    ensures r <= n
  {
    if n > 0 && s[n - 1] == SPACE then TrimBlanks(s, n - 1) else n
  }

  /** `fat16_build_short_name_str` */
  function ShortText(e: Slot): (r: seq<byte>) {
    var name, ext := Field(e[..8]), Field(e[8..11]);
    if ext != [] then name + [DOT] + ext else name
  }

  /** `fat16_dir_item_matches` */
  predicate Matches(item: Item, name: seq<byte>) {
    name != [] && ((item.hasLong && CaseEq(item.longName, name)) || CaseEq(ShortText(item.entry), name))
  }

  /** `fat16_find_entry_slot`: the first match of the listing. */
  function FirstMatch(items: seq<Item>, name: seq<byte>): (r: Option<Item>)
    ensures r.Some? ==> r.value in items && Matches(r.value, name)
    ensures r.None? ==> forall i :: 0 <= i < |items| ==> !Matches(items[i], name)
  {
    if items == [] then None
    else if Matches(items[0], name) then Some(items[0])
    else FirstMatch(items[1..], name)
  }

  lemma {:induction false} FirstMatchInserted(before: seq<Item>, w: Item, after: seq<Item>, name: seq<byte>)
    requires FirstMatch(before + after, name).None? && Matches(w, name)
    ensures FirstMatch(before + [w] + after, name) == Some(w)
  {
    var all := before + [w] + after;
    if before != [] {
      assert (before + after)[0] == before[0] == all[0];
      assert (before + after)[1..] == before[1..] + after;
      assert all[1..] == before[1..] + [w] + after;
      FirstMatchInserted(before[1..], w, after, name);
    }
  }

  // ---------------------------------------------------------------- a short name written and read

  lemma {:induction false} TrimPadded(s: seq<byte>, n: nat, m: nat)
    requires |s| <= m <= n && (forall i :: 0 <= i < |s| ==> s[i] != SPACE)
    ensures TrimBlanks(Pad(s, n), m) == |s|
    decreases m
  {
    if m > |s| { TrimPadded(s, n, m - 1); }
  }

  lemma {:induction false} CStringWhole(s: seq<byte>)
    requires IsString(s)
    ensures CString(s) == s
  {
    if s != [] { CStringWhole(s[1..]); }
  }

  lemma FieldOfPad(s: seq<byte>, n: nat)
    requires |s| <= n && (forall i :: 0 <= i < |s| ==> s[i] != SPACE && s[i] != 0)
    ensures Field(Pad(s, n)) == s
  {
    TrimPadded(s, n, n);
    assert Pad(s, n)[..|s|] == s;
    CStringWhole(s);
  }

  ghost predicate Plain(s: seq<byte>) {
    forall i :: 0 <= i < |s| ==> s[i] != SPACE && s[i] != 0
  }

  lemma ShortTextParts(b: seq<byte>, x: seq<byte>, e: Slot)
    requires |b| <= 8 && |x| <= 3 && Plain(b) && Plain(x) && e[..11] == MakeShort(b, x)
    ensures ShortText(e) == if x != [] then b + [DOT] + x else b
  {
    hide Field;
    FieldOfPad(b, 8);
    FieldOfPad(x, 3);
    assert e[..8] == e[..11][..8] == Pad(b, 8);
    assert e[8..11] == e[..11][8..] == Pad(x, 3);
  }

  lemma UpAllParts(name: seq<byte>)
    ensures UpAll(name) ==
            if LastDot(name) < |name| then UpAll(Base(name)) + [DOT] + UpAll(Ext(name)) else UpAll(Base(name))
  {
    hide LastDot;
    if LastDot(name) < |name| {
      NameParts(name, LastDot(name));
      UpConcat(Base(name) + [DOT], Ext(name));
      UpConcat(Base(name), [DOT]);
      assert UpAll([DOT]) == [DOT];
    } else {
      assert name == Base(name);
    }
  }

  lemma NameParts(name: seq<byte>, d: nat)
    requires d < |name|
    ensures name == name[..d] + [name[d]] + name[d + 1..]
  {
  }

  lemma UpConcat(a: seq<byte>, b: seq<byte>)
    ensures UpAll(a + b) == UpAll(a) + UpAll(b)
  {
  }

  lemma UpPlain(s: seq<byte>)
    requires forall i :: 0 <= i < |s| ==> ShortChar(s[i])
    ensures Plain(UpAll(s))
  {
    forall i | 0 <= i < |s|
      ensures UpAll(s)[i] != SPACE && UpAll(s)[i] != 0
    {
      assert ShortChar(s[i]);
    }
  }

  /** An entry carrying the short form of a valid name reads back as that name in upper case. */
  lemma ShortTextOf(name: seq<byte>, e: Slot)
    requires ShortOk(name) && e[..11] == Format83(name)
    ensures ShortText(e) == UpAll(name)
  {
    hide ShortText, MakeShort, LastDot, ShortChar;
    UpPlain(Base(name));
    UpPlain(Ext(name));
    ShortTextParts(UpAll(Base(name)), UpAll(Ext(name)), e);
    UpAllParts(name);
  }

  lemma UpTwice(s: seq<byte>)
    ensures CaseEq(UpAll(s), s)
  {
  }
}
