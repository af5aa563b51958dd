/** What the codec answers and what the driver makes of it: packed connection lists read into
    plain ones, and the scores that rank output pins. */
module HdaCodec {
  import opened Arith
  import opened Bytes
  import opened HdaRoute

  function Min(a: nat, b: nat): nat { if a < b then a else b }

  // ---------------------------------------------------------------- connection lists

  /** Entry `k` of a response word: 16-bit entries in the long form (of which the low byte is the
      widget), bytes in the short form. */
  function EntryIn(long: bool, word: nat, k: nat): (r: byte) {
    if long then (if k % 2 == 0 then word % 256 else word / 0x1_0000 % 256)
    else if k % 4 == 0 then word % 256
    else if k % 4 == 1 then word / 0x100 % 256
    else if k % 4 == 2 then word / 0x1_0000 % 256
    else word / 0x100_0000 % 256
  }

  function Step(long: bool): nat { if long then 2 else 4 }

  /** The index asked for to get entry `k`: responses start at multiples of 2 or 4. */
  function WordOf(long: bool, k: nat): (r: nat)
    ensures r <= k < r + Step(long) && r % Step(long) == 0
  {
    if long then k / 2 * 2 else k / 4 * 4
  }

  /** A response starts at `idx`. */
  predicate AtWord(long: bool, idx: nat) { idx % Step(long) == 0 }

  lemma NextWord(long: bool, idx: nat)
    requires AtWord(long, idx)
    ensures AtWord(long, idx + Step(long))
  {
  }

  // ---------------------------------------------------------------- pin scores

  /** `hda_score_output_pin` */
  function Score(nid: byte, pincap: nat, cfg: nat): (r: int)
    ensures -5 <= r <= 190
  {
    var out, in_ := pincap / 16 % 2 == 1, pincap / 32 % 2 == 1;
    var dev := cfg / 0x10_0000 % 16;
    (if out then 100 else if in_ then -10 else 0)
    + (if cfg != 0 then 5 else 0)
    + (if cfg / 0x4000_0000 % 4 == 0 then -5 else 5)
    + (if dev == 0 then 50 else if dev == 1 then 45 else if dev == 2 then 40 else 10)
    + (if nid == 0x14 then 30 else 0)
  }

  /** A pin that can drive an output outranks every pin that cannot. */
  lemma OutputPinsFirst(nid: byte, pincap: nat, cfg: nat, nid': byte, pincap': nat, cfg': nat)
    requires pincap / 16 % 2 == 1 && pincap' / 16 % 2 == 0
    ensures Score(nid, pincap, cfg) > Score(nid', pincap', cfg')
  {
  }

  /** Pins alike but for the device they name rank line out, speaker, headphone, anything else. */
  lemma DevicesRanked(nid: byte, pincap: nat, cfg: nat, cfg': nat)
    requires cfg != 0 && cfg' != 0 && (cfg / 0x4000_0000 % 4 == 0 <==> cfg' / 0x4000_0000 % 4 == 0)
    ensures var dev, dev' := cfg / 0x10_0000 % 16, cfg' / 0x10_0000 % 16;
            Score(nid, pincap, cfg) > Score(nid, pincap, cfg') <==> dev < 3 && dev < dev'
  {
  }

  /** Of two pins alike but for the port connectivity, the top two bits of the word, the connected one
      outranks the other. */
  lemma ConnectedFirst(nid: byte, pincap: nat, cfg: nat, cfg': nat)
    requires cfg < TWO32 && cfg' < TWO32 && cfg' != 0 && cfg % 0x4000_0000 == cfg' % 0x4000_0000
    requires cfg >= 0x4000_0000 && cfg' < 0x4000_0000
    ensures Score(nid, pincap, cfg) == Score(nid, pincap, cfg') + 10
  {
    assert cfg / 0x4000_0000 % 4 != 0 && cfg' / 0x4000_0000 % 4 == 0;
    SameDevice(cfg, cfg');
  }

  lemma SameDevice(cfg: nat, cfg': nat)
    requires cfg % 0x4000_0000 == cfg' % 0x4000_0000
    ensures cfg / 0x10_0000 % 16 == cfg' / 0x10_0000 % 16
  {
    DeviceOf(cfg);
    DeviceOf(cfg');
  }

  lemma DeviceOf(cfg: nat)
    ensures cfg / 0x10_0000 % 16 == cfg % 0x4000_0000 / 0x10_0000 % 16
  {
    var q, r := cfg / 0x4000_0000, cfg % 0x4000_0000;
    var s := r / 0x10_0000;
    DivUnique(cfg, 0x10_0000, 1024 * q + s);
    DivUnique(1024 * q + s, 16, 64 * q + s / 16);
  }

  /** A configuration word that is not zero counts for something by itself. */
  lemma ConfiguredFirst(nid: byte, pincap: nat, cfg: nat)
    requires 0 < cfg < 0x10_0000
    ensures Score(nid, pincap, cfg) == Score(nid, pincap, 0) + 5
  {
  }

  /** The preferred pin outranks another pin that answers the same. */
  lemma PreferredFirst(nid: byte, pincap: nat, cfg: nat)
    requires nid != 0x14
    ensures Score(0x14, pincap, cfg) == Score(nid, pincap, cfg) + 30
  {
  }

  /** A pin that can only be an input ranks below one that can be neither. */
  lemma InputsLast(nid: byte, pincap: nat, pincap': nat, cfg: nat)
    requires pincap / 16 % 2 == 0 && pincap / 32 % 2 == 1 && pincap' / 16 % 2 == 0 && pincap' / 32 % 2 == 0
    ensures Score(nid, pincap, cfg) == Score(nid, pincap', cfg) - 10
  {
  }

  /** The entries of a response word are its bytes: all four in the short form, the first and the third in
      the long form. */
  lemma EntryBytes(b0: byte, b1: byte, b2: byte, b3: byte)
    ensures var word := b0 as int + 0x100 * b1 as int + 0x1_0000 * b2 as int + 0x100_0000 * b3 as int;
            && EntryIn(false, word, 0) == b0 && EntryIn(false, word, 1) == b1
            && EntryIn(false, word, 2) == b2 && EntryIn(false, word, 3) == b3
            && EntryIn(true, word, 0) == b0 && EntryIn(true, word, 1) == b2
  {
    var w3 := b3 as int;
    var w2 := b2 as int + 0x100 * w3;
    var w1 := b1 as int + 0x100 * w2;
    var word := b0 as int + 0x100 * w1;
    DivUnique(word, 0x100, w1);
    DivUnique(word, 0x1_0000, w2);
    DivUnique(word, 0x100_0000, w3);
    DivUnique(w1, 0x100, w2);
    DivUnique(w2, 0x100, w3);
  }

  /** What the hardware answers to every read; a missing key is a failed read. */
  datatype Answers = Answers(
    kind: map<byte, nat>,               // widget type
    listLen: map<byte, nat>,            // connection list length word
    listWord: map<(byte, nat), nat>,    // connection list responses
    pincap: map<byte, nat>,
    cfg: map<byte, nat>,
    nodes: map<byte, nat>)              // subordinate node range
  {
    function Len(n: byte): nat
      requires n in listLen
    {
      listLen[n] % 128
    }

    predicate Long(n: byte)
      requires n in listLen
    {
      listLen[n] / 128 % 2 == 1
    }

    /** Every response needed for the first 32 entries can be read. */
    ghost predicate Listed(n: byte) {
      n in listLen && forall k :: 0 <= k < Min(Len(n), 32) ==> (n, WordOf(Long(n), k)) in listWord
    }

    ghost function Entry(n: byte, k: nat): byte
      requires Listed(n) && k < Min(Len(n), 32)
    {
      EntryIn(Long(n), listWord[(n, WordOf(Long(n), k))], k)
    }

    ghost function List(n: byte): (r: seq<byte>)
      requires Listed(n)
      ensures |r| == Min(Len(n), 32) && forall k :: 0 <= k < |r| ==> r[k] == Entry(n, k)
    {
      seq(Min(Len(n), 32), k requires 0 <= k < Min(Len(n), 32) => Entry(n, k))
    }

    ghost function Graph(): Codec { Codec(kind, map n: byte | Listed(n) :: List(n)) }

    function ScoreOf(n: byte): int {
      Score(n, if n in pincap then pincap[n] else 0, if n in cfg then cfg[n] else 0)
    }
  }

  /** The length word: seven bits of length, and the form of the entries above them. */
  lemma LengthBits(a: Answers, n: byte, len: nat, long: bool, high: nat)
    requires n in a.listLen && len < 128 && a.listLen[n] == len + (if long then 128 else 0) + 256 * high
    ensures a.Len(n) == len && a.Long(n) == long
  {
  }

  /** The entries read so far are those of the list. */
  ghost predicate Reading(a: Answers, nid: byte, list: seq<byte>) {
    && nid in a.listLen && |list| <= Min(a.Len(nid), 32)
    && forall k :: 0 <= k < |list| ==>
         (nid, WordOf(a.Long(nid), k)) in a.listWord &&
         list[k] == EntryIn(a.Long(nid), a.listWord[(nid, WordOf(a.Long(nid), k))], k)
  }

  lemma ReadingDone(a: Answers, nid: byte, list: seq<byte>)
    requires Reading(a, nid, list) && |list| == Min(a.Len(nid), 32)
    ensures a.Listed(nid) && list == a.List(nid)
  {
    assert a.Listed(nid);
    var want := a.List(nid);
    forall k | 0 <= k < |list|
      ensures list[k] == want[k]
    {
      assert want[k] == a.Entry(nid, k);
    }
  }

  lemma SameWord(long: bool, idx: nat, j: nat)
    requires AtWord(long, idx) && j < Step(long)
    ensures WordOf(long, idx + j) == idx
    ensures forall word :: EntryIn(long, word, idx + j) == EntryIn(long, word, j)
  {
    if long {
      var q := idx / 2;
      assert idx == 2 * q && (idx + j) / 2 == q && (idx + j) % 2 == j % 2;
    } else {
      var q := idx / 4;
      assert idx == 4 * q && (idx + j) / 4 == q && (idx + j) % 4 == j % 4;
    }
  }

  lemma UnreadWord(a: Answers, nid: byte, idx: nat)
    requires nid in a.listLen && idx < Min(a.Len(nid), 32) && AtWord(a.Long(nid), idx)
    requires (nid, idx) !in a.listWord
    ensures !a.Listed(nid)
  {
    SameWord(a.Long(nid), idx, 0);
    assert WordOf(a.Long(nid), idx + 0) == WordOf(a.Long(nid), idx);
  }

  /** Entry `j` of the response at `idx`, when the list is that long and there is room. */
  method PushEntry(a: Answers, nid: byte, idx: nat, j: nat, list: seq<byte>) returns (r: seq<byte>)
    requires Reading(a, nid, list) && (nid, idx) in a.listWord
    requires AtWord(a.Long(nid), idx) && j < Step(a.Long(nid)) && |list| == Min(idx + j, Min(a.Len(nid), 32))
    ensures Reading(a, nid, r) && |r| == Min(idx + j + 1, Min(a.Len(nid), 32))
  {
    r := list;
    if idx + j < a.Len(nid) && |list| < 32 {
      SameWord(a.Long(nid), idx, j);
      r := list + [EntryIn(a.Long(nid), a.listWord[(nid, idx)], j)];
    }
  }

  /** One turn of the read loop: the two or four entries of the response at `idx`. */
  method ReadResponse(a: Answers, nid: byte, idx: nat, list: seq<byte>) returns (r: seq<byte>)
    requires Reading(a, nid, list) && (nid, idx) in a.listWord
    requires AtWord(a.Long(nid), idx) && |list| == Min(idx, Min(a.Len(nid), 32))
    ensures Reading(a, nid, r) && |r| == Min(idx + Step(a.Long(nid)), Min(a.Len(nid), 32))
  {
    hide EntryIn, WordOf, AtWord;
    ReadingKnows(a, nid, list);
    hide Reading;
    r := PushEntry(a, nid, idx, 0, list);
    r := PushEntry(a, nid, idx, 1, r);
    if !a.Long(nid) {
      r := PushEntry(a, nid, idx, 2, r);
      r := PushEntry(a, nid, idx, 3, r);
    }
  }

  lemma ReadingKnows(a: Answers, nid: byte, list: seq<byte>)
    requires Reading(a, nid, list)
    ensures nid in a.listLen
  {
  }

  /** `hda_get_connections`: the first 32 entries, or failure when a response is missing. */
  method GetConnections(a: Answers, nid: byte) returns (ok: bool, list: seq<byte>)
    ensures ok <==> a.Listed(nid)
    ensures ok ==> list == a.List(nid)
  {
    list := [];
    if nid !in a.listLen { return false, []; }
    var len, long := a.Len(nid), a.Long(nid);
    var idx: nat := 0;
    ghost var all := Min(len, 32);
    while idx < len && |list| < 32
      invariant AtWord(long, idx) && |list| == Min(idx, all)
      invariant Reading(a, nid, list)
      decreases len - idx
    {
      hide Reading, a.Listed, EntryIn, WordOf, AtWord;
      if (nid, idx) !in a.listWord {
        UnreadWord(a, nid, idx);
        return false, [];
      }
      list := ReadResponse(a, nid, idx, list);
      NextWord(long, idx);
      idx := idx + Step(long);
    }
    ReadingDone(a, nid, list);
    return true, list;
  }
}
