/** Long file names: the 32-byte fragments `fat16_write_lfn_entries` writes and the streaming
    decoder (`fat16_lfn_push`, `fat16_iterate_dir`) that reads them back. */
module FatLfn {
  import opened Bytes
  import opened FatDisk

  const LFN_ATTR: byte := 0x0F
  const CHARS := 13
  const MAX_ENTRIES := 20
  const NAME_BUFFER := 256
  const DELETED: byte := 0xE5
  const QUESTION: byte := 0x3F

  /** A C string: any bytes but the terminator. */
  ghost predicate IsString(s: seq<byte>) {
    forall i :: 0 <= i < |s| ==> s[i] != 0
  }

  // ---------------------------------------------------------------- the writer

  /** Byte offset of the `j`-th 16-bit character inside a fragment (Name1, Name2, Name3). */
  function UnitOffset(j: nat): (o: nat)
    requires j < CHARS
  {
    if j < 5 then 1 + 2 * j else if j < 11 then 14 + 2 * (j - 5) else 28 + 2 * (j - 11)
  }

  /** The `j`-th character of the fragment starting at `start`: text, one terminator, filler. */
  function Unit(name: seq<byte>, start: nat, j: nat): (u: nat)
    ensures u < TWO16
  {
    if start + j < |name| then name[start + j]
    else if start + j == |name| || (start > |name| && j == 0) then 0x0000
    else 0xFFFF
  }

  /** Byte `k` of a fragment. */
  function FragmentByte(name: seq<byte>, start: nat, ord: byte, checksum: byte, k: nat): byte
    requires k < 32
  {
    if k == 0 then ord
    else if k < 11 then Half(Unit(name, start, (k - 1) / 2), (k - 1) % 2)
    else if k == 11 then LFN_ATTR
    else if k == 12 then 0
    else if k == 13 then checksum
    else if k < 26 then Half(Unit(name, start, 5 + (k - 14) / 2), k % 2)
    else if k < 28 then 0
    else Half(Unit(name, start, 11 + (k - 28) / 2), k % 2)
  }

  function Half(u: nat, h: nat): byte
    requires u < TWO16
  {
    if h == 0 then u % 256 else u / 256
  }

  function FragmentUpTo(name: seq<byte>, start: nat, ord: byte, checksum: byte, n: nat): (s: seq<byte>)
    requires n <= 32
    ensures |s| == n
  {
    if n == 0 then []
    else FragmentUpTo(name, start, ord, checksum, n - 1) + [FragmentByte(name, start, ord, checksum, n - 1)]
  }

  lemma {:induction false} FragmentUpToAt(name: seq<byte>, start: nat, ord: byte, checksum: byte, n: nat, k: nat)
    requires k < n <= 32
    ensures FragmentUpTo(name, start, ord, checksum, n)[k] == FragmentByte(name, start, ord, checksum, k)
  {
    if k < n - 1 { FragmentUpToAt(name, start, ord, checksum, n - 1, k); }
  }

  /** The `i`-th of `count` fragments of `name`; fragments are stored last part first. */
  function Fragment(name: seq<byte>, count: nat, i: nat, checksum: byte): (s: Slot)
    requires i < count <= MAX_ENTRIES
  {
    FragmentUpTo(name, (count - i - 1) * 13, Ord(count, i), checksum, 32)
  }

  lemma FragmentAt(name: seq<byte>, count: nat, i: nat, checksum: byte, k: nat)
    requires i < count <= MAX_ENTRIES && k < 32
    ensures Fragment(name, count, i, checksum)[k] ==
            FragmentByte(name, (count - i - 1) * 13, Ord(count, i), checksum, k)
  {
    FragmentUpToAt(name, (count - i - 1) * 13, Ord(count, i), checksum, 32, k);
  }

  /** The ordinal byte: parts count down, the first stored carries the last-part flag. */
  function Ord(count: nat, i: nat): byte
    requires i < count <= MAX_ENTRIES
  {
    count - i + if i == 0 then 0x40 else 0
  }

  function FragmentCount(name: seq<byte>): nat { (|name| + 12) / 13 }

  // ---------------------------------------------------------------- the reader

  /** The decoder between two slots. Outside a run nothing of its buffers is ever read. */
  datatype LfnState = Idle | Collecting(checksum: byte, expected: nat, name: NameBuffer, slots: seq<nat>)

  type NameBuffer = s: seq<byte> | |s| == NAME_BUFFER witness Fill(NAME_BUFFER, 0)

  function UnitAt(s: Slot, j: nat): (u: nat)
    requires j < CHARS
  {
    Le16(s, UnitOffset(j))
  }

  /** `fat16_lfn_copy_chars` from character `j` on. */
  function Decode(s: Slot, j: nat, ended: bool): (r: seq<byte>)
    requires j <= CHARS
    ensures |r| == CHARS - j
    decreases |s| - j
  {
    if j == CHARS then []
    else
      var u := UnitAt(s, j);
      if u == 0x0000 then [0] + Decode(s, j + 1, true)
      else if u == 0xFFFF || ended then [0] + Decode(s, j + 1, ended)
      else [if u <= 0x7F then u else QUESTION] + Decode(s, j + 1, ended)
  }

  /** `fat16_lfn_push` */
  function Push(st: LfnState, s: Slot, idx: nat): (r: LfnState) {
    var ord, part := s[0] as int, s[0] as int % 32;
    var st1 := if ord / 0x40 % 2 == 1 then Collecting(s[13], part, Fill(NAME_BUFFER, 0), []) else st;
    if st1.Idle? || part == 0 || part > MAX_ENTRIES || part != st1.expected then Idle
    else if (part - 1) * 13 + 13 > NAME_BUFFER then Idle
    else Accept(st1, part - 1, s, idx)
  }

  function Accept(st: LfnState, part: nat, s: Slot, idx: nat): (r: LfnState)
    requires st.Collecting? && part * 13 + 13 <= NAME_BUFFER
  {
    Collecting(st.checksum, part, Splice(st.name, part * 13, Decode(s, 0, false)),
               if |st.slots| < MAX_ENTRIES then st.slots + [idx] else st.slots)
  }

  /** The checksum a fragment carries of its short name. */
  function Checksum(short: seq<byte>): (r: byte) {
    if short == [] then 0
    else
      var sum := Checksum(short[..|short| - 1]) as int;
      ((if sum % 2 == 1 then 0x80 else 0) + sum / 2 + short[|short| - 1] as int) % 256
  }

  /** The part of a buffer before its first zero byte. */
  function CString(s: seq<byte>): (r: seq<byte>) {
    if s == [] || s[0] == 0 then [] else [s[0]] + CString(s[1..])
  }

  // ---------------------------------------------------------------- one name, written and read

  lemma FragmentUnit(name: seq<byte>, count: nat, i: nat, checksum: byte, j: nat)
    requires i < count <= MAX_ENTRIES && j < CHARS
    ensures UnitAt(Fragment(name, count, i, checksum), j) == Unit(name, (count - i - 1) * 13, j)
  {
    hide Fragment, FragmentByte, Unit, Half, UnitOffset;
    OffsetFits(j);
    var start := (count - i - 1) * 13;
    FragmentAt(name, count, i, checksum, UnitOffset(j));
    FragmentAt(name, count, i, checksum, UnitOffset(j) + 1);
    UnitBytes(name, start, Ord(count, i), checksum, j);
    Halves(Unit(name, start, j));
  }

  lemma OffsetFits(j: nat)
    requires j < CHARS
    ensures UnitOffset(j) + 1 < 32
  {
  }

  lemma Halves(u: nat)
    requires u < TWO16
    ensures Half(u, 0) as int + 256 * Half(u, 1) as int == u
  {
  }

  /** The two bytes of character `j`. */
  lemma UnitBytes(name: seq<byte>, start: nat, ord: byte, checksum: byte, j: nat)
    requires j < CHARS
    ensures UnitOffset(j) + 1 < 32
    ensures FragmentByte(name, start, ord, checksum, UnitOffset(j)) == Half(Unit(name, start, j), 0)
    ensures FragmentByte(name, start, ord, checksum, UnitOffset(j) + 1) == Half(Unit(name, start, j), 1)
  {
    hide Unit, Half;
    if j < 5 {
      assert (2 * j) / 2 == j && (2 * j + 1) / 2 == j && (2 * j) % 2 == 0 && (2 * j + 1) % 2 == 1;
    } else if j < 11 {
      var m := j - 5;
      assert (2 * m) / 2 == m && (2 * m + 1) / 2 == m && (14 + 2 * m) % 2 == 0 && (15 + 2 * m) % 2 == 1;
    } else {
      var m := j - 11;
      assert (2 * m) / 2 == m && (2 * m + 1) / 2 == m && (28 + 2 * m) % 2 == 0 && (29 + 2 * m) % 2 == 1;
    }
  }

  /** The character the reader makes of a written byte. */
  function Ascii(c: byte): byte { if c <= 0x7F then c else QUESTION }

  function AsciiName(name: seq<byte>): (r: seq<byte>)
    ensures |r| == |name| && forall i :: 0 <= i < |name| ==> r[i] == Ascii(name[i])
  {
    seq(|name|, i requires 0 <= i < |name| => Ascii(name[i]))
  }

  /** The text of `name` at position `p`, zero behind its end. */
  function TextAt(name: seq<byte>, p: nat): byte {
    if p < |name| then Ascii(name[p]) else 0
  }

  /** `n` characters of the text from position `p` on. */
  function Text(name: seq<byte>, p: nat, n: nat): (r: seq<byte>)
    ensures |r| == n
    decreases n, name
  {
    if n == 0 then [] else [TextAt(name, p)] + Text(name, p + 1, n - 1)
  }

  lemma {:induction false} TextIndex(name: seq<byte>, p: nat, n: nat, k: nat)
    requires k < n
    ensures Text(name, p, n)[k] == TextAt(name, p + k)
    decreases n
  {
    if k > 0 { TextIndex(name, p + 1, n - 1, k - 1); }
  }

  /** One turn of the reader over a character of the text, its terminator or the filler behind it. */
  lemma DecodeTurn(s: Slot, name: seq<byte>, start: nat, j: nat)
    requires IsString(name) && j < CHARS && UnitAt(s, j) == Unit(name, start, j)
    ensures Decode(s, j, start + j > |name|) == [TextAt(name, start + j)] + Decode(s, j + 1, start + j + 1 > |name|)
  {
    hide UnitAt;
  }

  lemma {:induction false} DecodeFrom(s: Slot, name: seq<byte>, start: nat, j: nat)
    requires IsString(name) && j <= CHARS && forall k :: 0 <= k < CHARS ==> UnitAt(s, k) == Unit(name, start, k)
    ensures Decode(s, j, start + j > |name|) == Text(name, start + j, CHARS - j)
    decreases CHARS - j
  {
    hide UnitAt, Unit, TextAt, Decode;
    if j < CHARS {
      DecodeTurn(s, name, start, j);
      DecodeFrom(s, name, start, j + 1);
      TextStep(name, start + j, CHARS - j);
    } else {
      DecodeEnd(s, start + j > |name|);
    }
  }

  lemma DecodeEnd(s: Slot, ended: bool)
    ensures Decode(s, CHARS, ended) == []
  {
  }

  lemma TextStep(name: seq<byte>, p: nat, n: nat)
    requires n > 0
    ensures Text(name, p, n) == [TextAt(name, p)] + Text(name, p + 1, n - 1)
  {
  }

  /** A fragment is read back as the text it was written from. */
  lemma DecodeFragment(name: seq<byte>, count: nat, i: nat, checksum: byte)
    requires IsString(name) && i < count <= MAX_ENTRIES && (count - i - 1) * 13 < |name|
    ensures Decode(Fragment(name, count, i, checksum), 0, false) == Text(name, (count - i - 1) * 13, CHARS)
  {
    hide Fragment, UnitAt, Unit, Decode, Text;
    var s, start := Fragment(name, count, i, checksum), (count - i - 1) * 13;
    forall j | 0 <= j < CHARS
      ensures UnitAt(s, j) == Unit(name, start, j)
    {
      FragmentUnit(name, count, i, checksum, j);
    }
    DecodeFrom(s, name, start, 0);
  }

  /** The name buffer when the parts from `part` up are in it. */
  ghost predicate Holds(buf: NameBuffer, name: seq<byte>, part: nat) {
    forall p {:trigger buf[p]} :: part * 13 <= p < NAME_BUFFER ==> buf[p] == TextAt(name, p)
  }

  /** Reading the first `i` of the fragments written at slots `at, at + 1, ...`. */
  function PushRun(st: LfnState, name: seq<byte>, count: nat, checksum: byte, at: nat, i: nat): (r: LfnState)
    requires i <= count <= MAX_ENTRIES
  {
    if i == 0 then st
    else Push(PushRun(st, name, count, checksum, at, i - 1), Fragment(name, count, i - 1, checksum), at + i - 1)
  }

  /** The slots `a, a + 1, ..., a + n - 1`. */
  function Range(a: nat, n: nat): (r: seq<nat>)
    ensures |r| == n
  {
    if n == 0 then [] else Range(a, n - 1) + [a + n - 1]
  }

  /** The buffer with part number `part` of the text in place. */
  function Overlay(buf: NameBuffer, name: seq<byte>, part: nat): (r: NameBuffer)
    requires part + 1 < MAX_ENTRIES
  {
    Splice(buf, part * 13, Text(name, part * 13, 13))
  }

  lemma SpliceHolds(buf: NameBuffer, name: seq<byte>, part: nat)
    requires part + 1 < MAX_ENTRIES && Holds(buf, name, part + 1)
    ensures Holds(Overlay(buf, name, part), name, part)
  {
    forall p | part * 13 <= p < NAME_BUFFER
      ensures Overlay(buf, name, part)[p] == TextAt(name, p)
    {
      if p < part * 13 + 13 { TextIndex(name, part * 13, 13, p - part * 13); }
    }
  }

  /** The name buffer after `i` fragments. */
  function BufferAfter(name: seq<byte>, count: nat, i: nat): (r: NameBuffer)
    requires i <= count < MAX_ENTRIES
  {
    if i == 0 then Fill(NAME_BUFFER, 0) else Overlay(BufferAfter(name, count, i - 1), name, count - i)
  }

  lemma {:induction false} BufferHolds(name: seq<byte>, count: nat, i: nat)
    requires i <= count == FragmentCount(name) < MAX_ENTRIES
    ensures Holds(BufferAfter(name, count, i), name, count - i)
  {
    if i > 0 {
      BufferHolds(name, count, i - 1);
      SpliceHolds(BufferAfter(name, count, i - 1), name, count - i);
    }
  }

  /** The decoder after `i` fragments of a name of at most 19: it holds the last `i` parts. */
  function Collected(name: seq<byte>, count: nat, checksum: byte, at: nat, i: nat): (r: LfnState)
    requires 1 <= i <= count < MAX_ENTRIES
  {
    Collecting(checksum, count - i, BufferAfter(name, count, i), Range(at, i))
  }

  /** The decoder takes a slot whose ordinal names the part it expects. */
  lemma PushAccepts(st: LfnState, s: Slot, idx: nat, part: nat)
    requires part + 1 < MAX_ENTRIES && s[0] as int == part + 1 && st.Collecting? && st.expected == part + 1
    ensures Push(st, s, idx) == Accept(st, part, s, idx)
  {
    hide Accept;
  }

  lemma PushStarts(st: LfnState, s: Slot, idx: nat, part: nat)
    requires part + 1 < MAX_ENTRIES && s[0] as int == 0x40 + part + 1
    ensures Push(st, s, idx) == Accept(Collecting(s[13], part + 1, Fill(NAME_BUFFER, 0), []), part, s, idx)
  {
    hide Accept;
  }

  lemma PushFirst(st: LfnState, name: seq<byte>, count: nat, checksum: byte, at: nat)
    requires IsString(name) && 1 <= count == FragmentCount(name) < MAX_ENTRIES
    ensures Push(st, Fragment(name, count, 0, checksum), at) == Collected(name, count, checksum, at, 1)
  {
    var s := Fragment(name, count, 0, checksum);
    FragmentAt(name, count, 0, checksum, 0);
    FragmentAt(name, count, 0, checksum, 13);
    PushStarts(st, s, at, count - 1);
    DecodeFragment(name, count, 0, checksum);
    assert BufferAfter(name, count, 0) == Fill(NAME_BUFFER, 0);
  }

  lemma PushNext(name: seq<byte>, count: nat, checksum: byte, at: nat, i: nat)
    requires IsString(name) && 1 <= i < count == FragmentCount(name) < MAX_ENTRIES
    ensures Push(Collected(name, count, checksum, at, i), Fragment(name, count, i, checksum), at + i) ==
            Collected(name, count, checksum, at, i + 1)
  {
    var st, s := Collected(name, count, checksum, at, i), Fragment(name, count, i, checksum);
    assert count - (i + 1) == count - i - 1 && at + (i + 1) - 1 == at + i && (i + 1) - 1 == i;
    FragmentAt(name, count, i, checksum, 0);
    PushAccepts(st, s, at + i, count - i - 1);
    DecodeFragment(name, count, i, checksum);
    assert BufferAfter(name, count, i + 1) == Overlay(BufferAfter(name, count, i), name, count - i - 1);
  }

  lemma {:induction false} PushRunOne(st: LfnState, name: seq<byte>, count: nat, checksum: byte, at: nat)
    requires IsString(name) && 1 <= count == FragmentCount(name) < MAX_ENTRIES
    ensures PushRun(st, name, count, checksum, at, 1) == Collected(name, count, checksum, at, 1)
  {
    PushFirst(st, name, count, checksum, at);
    assert PushRun(st, name, count, checksum, at, 0) == st && at + 1 - 1 == at;
  }

  lemma {:induction false} PushRunMore(st: LfnState, name: seq<byte>, count: nat, checksum: byte, at: nat, i: nat)
    requires IsString(name) && 1 <= i < count == FragmentCount(name) < MAX_ENTRIES
    requires PushRun(st, name, count, checksum, at, i) == Collected(name, count, checksum, at, i)
    ensures PushRun(st, name, count, checksum, at, i + 1) == Collected(name, count, checksum, at, i + 1)
  {
    PushNext(name, count, checksum, at, i);
    assert at + (i + 1) - 1 == at + i && (i + 1) - 1 == i;
  }

  lemma PushRunCollects(st: LfnState, name: seq<byte>, count: nat, checksum: byte, at: nat)
    requires IsString(name) && 1 <= count == FragmentCount(name) < MAX_ENTRIES
    ensures PushRun(st, name, count, checksum, at, count) == Collected(name, count, checksum, at, count)
  {
    hide PushRun, Collected;
    PushRunOne(st, name, count, checksum, at);
    var i := 1;
    while i < count
      invariant 1 <= i <= count
      invariant PushRun(st, name, count, checksum, at, i) == Collected(name, count, checksum, at, i)
    {
      PushRunMore(st, name, count, checksum, at, i);
      i := i + 1;
    }
  }

  lemma {:induction false} CStringOf(buf: seq<byte>, s: seq<byte>)
    requires IsString(s) && |s| < |buf| && s <= buf && buf[|s|] == 0
    ensures CString(buf) == s
  {
    if s != [] {
      assert buf[1..][|s| - 1] == 0;
      CStringOf(buf[1..], s[1..]);
    }
  }

  /** What the reader copies out of its buffer: at most 255 characters, up to the terminator. */
  function LongName(buf: NameBuffer): (r: seq<byte>) { CString(buf[..255]) }

  lemma HeldText(buf: NameBuffer, name: seq<byte>)
    requires IsString(name) && |name| < 255 && Holds(buf, name, 0)
    ensures LongName(buf) == AsciiName(name)
  {
    CStringOf(buf[..255], AsciiName(name));
  }

  /** With twenty fragments (more than 247 characters) the reader gives the run up. */
  lemma {:induction false} PushRunGivesUp(st: LfnState, name: seq<byte>, checksum: byte, at: nat, i: nat)
    requires 1 <= i <= MAX_ENTRIES
    ensures PushRun(st, name, MAX_ENTRIES, checksum, at, i) == Idle
    decreases i
  {
    if i > 1 { PushRunGivesUp(st, name, checksum, at, i - 1); }
    PushTooFar(PushRun(st, name, MAX_ENTRIES, checksum, at, i - 1), name, i - 1, checksum, at + i - 1);
  }

  lemma PushTooFar(st: LfnState, name: seq<byte>, i: nat, checksum: byte, idx: nat)
    requires i < MAX_ENTRIES && (i > 0 ==> st.Idle?)
    ensures Push(st, Fragment(name, MAX_ENTRIES, i, checksum), idx) == Idle
  {
    FragmentAt(name, MAX_ENTRIES, i, checksum, 0);
  }

  /** Reading back the whole run of a name, from any decoder state. */
  lemma RunReadsBack(st: LfnState, name: seq<byte>, checksum: byte, at: nat)
    requires IsString(name) && 1 <= |name| <= 255
    ensures 1 <= FragmentCount(name) <= MAX_ENTRIES
    ensures var r := PushRun(st, name, FragmentCount(name), checksum, at, FragmentCount(name));
            if |name| <= 247 then
              && r.Collecting? && r.checksum == checksum && r.expected == 0
              && LongName(r.name) == AsciiName(name)
              && r.slots == Range(at, FragmentCount(name))
            else r == Idle
  {
    var n := FragmentCount(name);
    if |name| <= 247 {
      PushRunCollects(st, name, n, checksum, at);
      BufferHolds(name, n, n);
      HeldText(PushRun(st, name, n, checksum, at, n).name, name);
    } else {
      PushRunGivesUp(st, name, checksum, at, n);
    }
  }

  /** The name comes back unchanged exactly when it is 7-bit. */
  lemma AsciiExact(name: seq<byte>)
    ensures AsciiName(name) == name <==> forall i :: 0 <= i < |name| ==> name[i] <= 0x7F
  {
    if AsciiName(name) == name {
      forall i | 0 <= i < |name|
        ensures name[i] <= 0x7F
      {
        assert AsciiName(name)[i] == Ascii(name[i]);
      }
    }
  }
}
