/** Driving the codec: the search with its path buffer and selector verbs, and the choice of the
    output pin. */
module HdaSelect {
  import opened Bytes
  import opened HdaRoute
  import opened HdaCodec

  // ---------------------------------------------------------------- candidates

  /** First node and number of nodes of a function group. */
  function FirstNode(word: nat): byte { word / 0x1_0000 % 256 }

  function NodeCount(word: nat): byte { word % 256 }

  /** They are the third and the first byte of the answer. */
  lemma NodeBytes(b0: byte, b1: byte, b2: byte, b3: byte)
    ensures var word := b0 as int + 0x100 * b1 as int + 0x1_0000 * b2 as int + 0x100_0000 * b3 as int;
            FirstNode(word) == b2 && NodeCount(word) == b0
  {
    EntryBytes(b0, b1, b2, b3);
  }

  /** The widgets among the first `k` nodes from `start` that are pins (only the forced one, if a
      pin is forced), in node order. */
  function Pins(a: Answers, start: byte, k: nat, forced: byte): (r: seq<byte>)
    ensures |r| <= k
    ensures forall p :: p in r ==> p in a.kind && a.kind[p] == PIN && (forced != 0 ==> p == forced)
  {
    if k == 0 then []
    else
      var nid: byte := (start + k - 1) % 256;
      var before := Pins(a, start, k - 1, forced);
      if nid in a.kind && a.kind[nid] == PIN && (forced == 0 || nid == forced) then before + [nid] else before
  }

  /** Only the first 32 are kept. */
  function Kept(pins: seq<byte>): (r: seq<byte>)
    ensures forall p :: p in r ==> p in pins
  {
    if |pins| <= 32 then pins else pins[..32]
  }

  function Scores(a: Answers, pins: seq<byte>): (r: seq<int>)
    ensures |r| == |pins| && forall i :: 0 <= i < |r| ==> r[i] == a.ScoreOf(pins[i])
  {
    seq(|pins|, i requires 0 <= i < |pins| => a.ScoreOf(pins[i]))
  }

  /** Every pin of the function group is a candidate as long as they are at most 32. */
  lemma {:induction false} AllPinsListed(a: Answers, start: byte, k: nat, i: nat)
    requires i < k
    ensures var nid: byte := (start + i) % 256;
            nid in Pins(a, start, k, 0) <==> nid in a.kind && a.kind[nid] == PIN
    decreases k
  {
    if i < k - 1 { AllPinsListed(a, start, k - 1, i); }
  }

  ghost predicate Routable(c: Codec, pin: byte) { exists q :: Route(c, q) && q[0] == pin }

  /** The pin the driver should settle on: the preferred one if it can be routed, otherwise the first
      of the best-scored ones that can. */
  ghost predicate Best(a: Answers, pins: seq<byte>, pin: byte) {
    && pin in pins && Routable(a.Graph(), pin)
    && if 0x14 in pins && Routable(a.Graph(), 0x14) then pin == 0x14
       else exists b :: 0 <= b < |pins| && pins[b] == pin && Top(a, pins, b)
  }

  ghost predicate Top(a: Answers, pins: seq<byte>, b: int)
    requires 0 <= b < |pins|
  {
    forall i :: 0 <= i < |pins| && Routable(a.Graph(), pins[i]) ==>
      a.ScoreOf(pins[i]) < a.ScoreOf(pins[b]) || (a.ScoreOf(pins[i]) == a.ScoreOf(pins[b]) && b <= i)
  }

  /** The first index of the largest score above the mark for used ones, or -1. */
  method BestScore(scores: seq<int>) returns (best: int)
    ensures -1 <= best < |scores|
    ensures best == -1 ==> forall i :: 0 <= i < |scores| ==> scores[i] <= -100000
    ensures best >= 0 ==> scores[best] > -100000
    ensures best >= 0 ==>
              forall i :: 0 <= i < |scores| ==> scores[i] < scores[best] || (scores[i] == scores[best] && best <= i)
  {
    best := -1;
    var top := -100000;
    for i := 0 to |scores|
      invariant -1 <= best < i && top >= -100000
      invariant top == if best < 0 then -100000 else scores[best]
      invariant best >= 0 ==> top > -100000
      invariant forall k :: 0 <= k < i ==> scores[k] < top || (scores[k] == top && (best < 0 || best <= k))
    {
      if scores[i] > top { best, top := i, scores[i]; }
    }
  }

  /** Scores with some candidates struck out: a struck one cannot be routed. */
  ghost predicate Struck(a: Answers, pins: seq<byte>, scores: seq<int>) {
    && |scores| == |pins|
    && forall i :: 0 <= i < |pins| ==>
         scores[i] == a.ScoreOf(pins[i]) || (scores[i] == -100000 && !Routable(a.Graph(), pins[i]))
  }

  /** How many candidates are left. */
  ghost function Left(scores: seq<int>): nat {
    if scores == [] then 0 else Left(scores[..|scores| - 1]) + if scores[|scores| - 1] > -100000 then 1 else 0
  }

  lemma {:induction false} LeftDrops(scores: seq<int>, i: nat)
    requires i < |scores| && scores[i] > -100000
    ensures Left(scores) == Left(scores[i := -100000]) + 1
    decreases |scores|
  {
    var n := |scores| - 1;
    if i < n {
      LeftDrops(scores[..n], i);
      assert scores[i := -100000][..n] == scores[..n][i := -100000];
    } else {
      assert scores[i := -100000][..n] == scores[..n];
    }
  }

  lemma {:induction false} NoneLeft(scores: seq<int>)
    requires Left(scores) == 0
    ensures forall i :: 0 <= i < |scores| ==> scores[i] <= -100000
    decreases |scores|
  {
    if scores != [] {
      var n := |scores| - 1;
      NoneLeft(scores[..n]);
      forall i | 0 <= i < n
        ensures scores[i] <= -100000
      {
        assert scores[..n][i] == scores[i];
      }
    }
  }

  lemma {:induction false} LeftBound(scores: seq<int>)
    ensures Left(scores) <= |scores|
    decreases |scores|
  {
    if scores != [] { LeftBound(scores[..|scores| - 1]); }
  }

  lemma StrikeOut(a: Answers, pins: seq<byte>, scores: seq<int>, i: nat)
    requires Struck(a, pins, scores) && i < |pins| && !Routable(a.Graph(), pins[i])
    ensures Struck(a, pins, scores[i := -100000])
  {
  }

  lemma StruckTop(a: Answers, pins: seq<byte>, scores: seq<int>, b: nat)
    requires Struck(a, pins, scores) && b < |pins| && scores[b] > -100000
    requires forall i :: 0 <= i < |scores| ==> scores[i] < scores[b] || (scores[i] == scores[b] && b <= i)
    ensures Top(a, pins, b)
  {
    hide Routable;
    forall i | 0 <= i < |pins| && Routable(a.Graph(), pins[i])
      ensures a.ScoreOf(pins[i]) < a.ScoreOf(pins[b]) || (a.ScoreOf(pins[i]) == a.ScoreOf(pins[b]) && b <= i)
    {
      assert scores[i] == a.ScoreOf(pins[i]);
    }
  }

  lemma AllStruck(a: Answers, pins: seq<byte>, scores: seq<int>)
    requires Struck(a, pins, scores) && forall i :: 0 <= i < |scores| ==> scores[i] <= -100000
    ensures forall i :: 0 <= i < |pins| ==> !Routable(a.Graph(), pins[i])
  {
    hide Routable;
    forall i | 0 <= i < |pins|
      ensures !Routable(a.Graph(), pins[i])
    {
      assert scores[i] <= -100000 < a.ScoreOf(pins[i]);
    }
  }

  /** What a successful call leaves: a route from `pin` in the buffer, ending at `dac`, with every
      selector on it set. */
  ghost predicate Connects(c: Codec, sel: Selection, path: seq<byte>, len: int, pin: byte, dac: byte) {
    && 0 < len <= |path| && Route(c, path[..len]) && path[0] == pin && path[len - 1] == dac
    && Routed(c, sel, path[..len])
  }

  class Driver {
    const hw: Answers
    var sel: Selection
    var forced: byte

    constructor (hw: Answers, sel: Selection, forced: byte)
      ensures this.hw == hw && this.sel == sel && this.forced == forced
    {
      this.hw, this.sel, this.forced := hw, sel, forced;
    }

    /** `hda_dfs_to_dac`, the widgets of the path so far in the buffer. */
    method DfsToDac(nid: byte, path: array<byte>, depth: nat) returns (ok: bool, dac: byte, len: nat)
      requires path.Length >= 10 && depth <= 10
      modifies path, `sel
      ensures path[..depth] == old(path[..depth])
      ensures var r := Search(hw.Graph(), old(sel), old(path[..depth]), nid);
              sel == r.sel && Written(path[..], old(path[..depth]), r.path, ok, dac, len)
      decreases 10 - depth, 1
    {
      hide hw.Graph, Written;
      ghost var c, prefix := hw.Graph(), path[..depth];
      dac, len := 0, 0;
      NothingWritten(path[..], prefix);
      if depth >= 10 { return false, 0, 0; }
      var seen := OnPath(nid, path, depth);
      if seen { return false, 0, 0; }
      path[depth] := nid;
      assert path[..depth] == prefix && path[..depth + 1] == prefix + [nid];
      NothingWritten(path[..], prefix);
      GraphKind(hw, nid);
      if nid !in hw.kind { return false, 0, 0; }
      if hw.kind[nid] == AUDIO_OUT {
        LastWritten(path[..], prefix, nid);
        return true, nid, depth + 1;
      }
      var read, conns := GetConnections(hw, nid);
      if !read || |conns| == 0 { return false, 0, 0; }
      ok, dac, len := TryInputs(nid, conns, path, depth);
    }

    /** The loop over the connection list. */
    method TryInputs(nid: byte, conns: seq<byte>, path: array<byte>, depth: nat) returns (ok: bool, dac: byte, len: nat)
      requires path.Length >= 10 && depth < 10 && path[depth] == nid
      requires nid in hw.kind && nid in hw.Graph().links && hw.Graph().links[nid] == conns
      modifies path, `sel
      ensures path[..depth] == old(path[..depth])
      ensures var r := TryLinks(hw.Graph(), old(sel), old(path[..depth]), nid, 0);
              sel == r.sel && Written(path[..], old(path[..depth]), r.path, ok, dac, len)
      decreases 10 - depth, 0
    {
      hide hw.Graph, Written;
      ghost var c, prefix := hw.Graph(), path[..depth];
      GraphKind(hw, nid);
      for idx := 0 to |conns|
        invariant path[..depth + 1] == prefix + [nid]
        invariant TryLinks(c, old(sel), prefix, nid, 0) == TryLinks(c, sel, prefix, nid, idx)
      {
        var next := conns[idx];
        if next != 0 {
          if hw.kind[nid] == SELECTOR || hw.kind[nid] == PIN { sel := sel[nid := idx]; }
          ghost var r := Search(c, sel, prefix + [nid], next);
          ok, dac, len := DfsToDac(next, path, depth + 1);
          StepWritten(path[..], prefix, nid, r.path, ok, dac, len);
          if ok {
            PrefixKept(path[..], prefix, nid);
            return;
          }
        }
      }
      PrefixKept(path[..], prefix, nid);
      NothingWritten(path[..], prefix);
      return false, 0, 0;
    }

    /** `hda_follow_to_dac`: succeeds exactly when some route starts at the pin. */
    method FollowToDac(pin: byte, path: array<byte>) returns (ok: bool, dac: byte, len: nat)
      requires path.Length >= 10
      modifies path, `sel
      ensures ok <==> Routable(hw.Graph(), pin)
      ensures ok ==> Connects(hw.Graph(), sel, path[..], len, pin, dac)
    {
      hide hw.Graph, Search, Route, Routed;
      ghost var c, was := hw.Graph(), sel;
      SearchDecides(c, was, pin);
      assert path[..0] == [];
      ok, dac, len := DfsToDac(pin, path, 0);
      ghost var q := Search(c, was, [], pin).path;
      assert [] + q == q;
      if ok { assert path[..len] == q && path[..][..len] == q; }
    }

    /** The pins and their scores, at most 32 of them. */
    method ListPins(start: byte, count: byte) returns (pins: seq<byte>, scores: seq<int>)
      ensures pins == Kept(Pins(hw, start, count, forced)) && scores == Scores(hw, pins)
    {
      pins, scores := [], [];
      ghost var all: seq<byte> := [];
      for i := 0 to count
        invariant all == Pins(hw, start, i, forced) && pins == Kept(all)
        invariant |scores| == |pins| && forall k :: 0 <= k < |pins| ==> scores[k] == hw.ScoreOf(pins[k])
      {
        var nid: byte := (start + i) % 256;
        all := Pins(hw, start, i + 1, forced);
        if nid in hw.kind && hw.kind[nid] == PIN && (forced == 0 || nid == forced) {
          if |pins| < 32 { pins, scores := pins + [nid], scores + [hw.ScoreOf(nid)]; }
        }
      }
    }

    ghost function Candidates(afg: byte): seq<byte>
      reads this
    {
      if afg in hw.nodes then Kept(Pins(hw, FirstNode(hw.nodes[afg]), NodeCount(hw.nodes[afg]), forced)) else []
    }

    /** `hda_select_output_path`: the forced pin or none; otherwise the best candidate that can be
        routed, and failure only when none can. */
    method SelectOutputPath(afg: byte, path: array<byte>) returns (ok: bool, pin: byte, dac: byte, len: nat)
      requires path.Length >= 10
      modifies path, `sel
      ensures var pins := Candidates(afg);
              && (ok <==> exists p :: p in pins && Routable(hw.Graph(), p))
              && (ok ==> Connects(hw.Graph(), sel, path[..], len, pin, dac) && pin in pins)
              && (ok && forced == 0 ==> Best(hw, pins, pin))
    {
      hide hw.Graph, Routable, Connects, Pins, Kept, Best;
      pin, dac, len := 0, 0, 0;
      if afg !in hw.nodes { return false, 0, 0, 0; }
      var pins, scores := ListPins(FirstNode(hw.nodes[afg]), NodeCount(hw.nodes[afg]));
      if |pins| == 0 { return false, 0, 0, 0; }
      if forced != 0 {
        ForcedSame(hw, FirstNode(hw.nodes[afg]), NodeCount(hw.nodes[afg]), forced);
        pin := pins[0];
        assert pin in pins && forall p :: p in pins ==> p == pin;
        ok, dac, len := FollowToDac(pin, path);
        assert ok <==> exists p :: p in pins && Routable(hw.Graph(), p);
        return;
      }
      AllUnstruck(hw, pins, scores);
      ok, scores, dac, len := TryPreferred(pins, scores, path);
      if ok { return true, 0x14, dac, len; }
      ok, pin, dac, len := TryByScore(pins, scores, path);
    }

    /** The preferred pin is tried first; if it has no route it is struck out. */
    method TryPreferred(pins: seq<byte>, scores: seq<int>, path: array<byte>)
      returns (ok: bool, scores': seq<int>, dac: byte, len: nat)
      requires path.Length >= 10 && Struck(hw, pins, scores)
      modifies path, `sel
      ensures Struck(hw, pins, scores')
      ensures ok <==> 0x14 in pins && Routable(hw.Graph(), 0x14)
      ensures ok ==> Connects(hw.Graph(), sel, path[..], len, 0x14, dac) && Best(hw, pins, 0x14)
    {
      hide hw.Graph, Routable, Connects, Struck;
      scores', dac, len := scores, 0, 0;
      for i := 0 to |pins|
        invariant 0x14 !in pins[..i] && scores' == scores
      {
        if pins[i] == 0x14 {
          ok, dac, len := FollowToDac(pins[i], path);
          if ok { return; }
          StruckSize(hw, pins, scores);
          StrikeOut(hw, pins, scores, i);
          scores' := scores[i := -100000];
          return;
        }
      }
      return false, scores, 0, 0;
    }

    /** Best score first, striking out what has no route. */
    method TryByScore(pins: seq<byte>, scores0: seq<int>, path: array<byte>)
      returns (ok: bool, pin: byte, dac: byte, len: nat)
      requires path.Length >= 10 && Struck(hw, pins, scores0)
      requires !(0x14 in pins && Routable(hw.Graph(), 0x14))
      modifies path, `sel
      ensures ok <==> exists p :: p in pins && Routable(hw.Graph(), p)
      ensures ok ==> Connects(hw.Graph(), sel, path[..], len, pin, dac) && pin in pins && Best(hw, pins, pin)
    {
      hide hw.Graph, Routable, Connects, Struck, Left, Top;
      pin, dac, len := 0, 0, 0;
      var scores := scores0;
      StruckSize(hw, pins, scores);
      LeftBound(scores);
      for attempt := 0 to |pins|
        invariant Struck(hw, pins, scores) && |scores| == |pins| && Left(scores) <= |pins| - attempt
      {
        var best := BestScore(scores);
        if best < 0 {
          AllStruck(hw, pins, scores);
          return false, 0, 0, 0;
        }
        StruckTop(hw, pins, scores, best);
        LeftDrops(scores, best);
        pin := pins[best];
        ok, dac, len := FollowToDac(pin, path);
        if ok { return; }
        StrikeOut(hw, pins, scores, best);
        scores := scores[best := -100000];
      }
      NoneLeft(scores);
      AllStruck(hw, pins, scores);
      return false, 0, 0, 0;
    }
  }

  /** A forced pin leaves no other candidate. */
  lemma ForcedSame(a: Answers, start: byte, k: nat, forced: byte)
    requires forced != 0
    ensures forall p :: p in Kept(Pins(a, start, k, forced)) ==> p == forced
  {
  }

  lemma AllUnstruck(a: Answers, pins: seq<byte>, scores: seq<int>)
    requires scores == Scores(a, pins)
    ensures Struck(a, pins, scores)
  {
  }

  lemma StruckSize(a: Answers, pins: seq<byte>, scores: seq<int>)
    requires Struck(a, pins, scores)
    ensures |scores| == |pins|
  {
  }

  method OnPath(nid: byte, path: array<byte>, depth: nat) returns (seen: bool)
    requires depth <= path.Length
    ensures seen <==> nid in path[..depth]
  {
    for i := 0 to depth
      invariant nid !in path[..i]
    {
      if path[i] == nid { return true; }
    }
    return false;
  }

  /** The buffer holds the prefix and then the path found, whose last widget is `dac`. */
  ghost predicate Written(buf: seq<byte>, prefix: seq<byte>, q: seq<byte>, ok: bool, dac: byte, len: int) {
    && (ok <==> q != [])
    && (ok ==> len == |prefix| + |q| && prefix + q <= buf && dac == q[|q| - 1])
  }

  lemma NothingWritten(buf: seq<byte>, prefix: seq<byte>)
    ensures Written(buf, prefix, [], false, 0, 0)
  {
  }

  lemma LastWritten(buf: seq<byte>, prefix: seq<byte>, nid: byte)
    requires prefix + [nid] <= buf
    ensures Written(buf, prefix, [nid], true, nid, |prefix| + 1)
  {
  }

  lemma StepWritten(buf: seq<byte>, prefix: seq<byte>, nid: byte, q: seq<byte>, ok: bool, dac: byte, len: int)
    requires Written(buf, prefix + [nid], q, ok, dac, len)
    ensures ok <==> q != []
    ensures ok ==> Written(buf, prefix, [nid] + q, ok, dac, len)
  {
    assert prefix + [nid] + q == prefix + ([nid] + q);
  }

  lemma PrefixKept(buf: seq<byte>, prefix: seq<byte>, nid: byte)
    requires |prefix| < |buf| && buf[..|prefix| + 1] == prefix + [nid]
    ensures buf[..|prefix|] == prefix
  {
    assert buf[..|prefix|] == buf[..|prefix| + 1][..|prefix|];
  }

  lemma GraphKind(hw: Answers, nid: byte)
    ensures hw.Graph().kind == hw.kind
    ensures nid in hw.Graph().links <==> hw.Listed(nid)
    ensures hw.Listed(nid) ==> hw.Graph().links[nid] == hw.List(nid)
  {
  }
}
