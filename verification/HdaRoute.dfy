/** The HD Audio codec as a widget graph, the depth-bounded search for a converter that programs
    selectors as it goes, and what it leaves behind. */
module HdaRoute {
  import opened Bytes

  const AUDIO_OUT := 0
  const SELECTOR := 3
  const PIN := 4

  /** What the codec answers: the type of every widget whose capabilities can be read, and the
      connection list (at most 32 entries) of every widget whose list can be read. */
  datatype Codec = Codec(kind: map<byte, nat>, links: map<byte, seq<byte>>)

  type Selection = map<byte, nat>

  /** The path found, empty if none, and the selector settings left behind. */
  datatype Outcome = Outcome(sel: Selection, path: seq<byte>)

  predicate Selects(c: Codec, n: byte) { n in c.kind && c.kind[n] in {SELECTOR, PIN} }

  /** `hda_dfs_to_dac` at depth `|prefix|`, with the widgets already on the path. */
  function Search(c: Codec, sel: Selection, prefix: seq<byte>, nid: byte): (r: Outcome)
    decreases 2 * (10 - |prefix|) + 1, 0
  {
    if |prefix| >= 10 || nid in prefix || nid !in c.kind then Outcome(sel, [])
    else if c.kind[nid] == AUDIO_OUT then Outcome(sel, [nid])
    else if nid !in c.links then Outcome(sel, [])
    else TryLinks(c, sel, prefix, nid, 0)
  }

  /** Its loop over the connection list of `nid`, from entry `idx` on. */
  function TryLinks(c: Codec, sel: Selection, prefix: seq<byte>, nid: byte, idx: nat): (r: Outcome)
    requires |prefix| < 10 && nid in c.links && idx <= |c.links[nid]|
    decreases 2 * (10 - |prefix|), |c.links[nid]| - idx
  {
    if idx == |c.links[nid]| then Outcome(sel, [])
    else if c.links[nid][idx] == 0 then TryLinks(c, sel, prefix, nid, idx + 1)
    else
      var chosen := if Selects(c, nid) then sel[nid := idx] else sel;
      var r := Search(c, chosen, prefix + [nid], c.links[nid][idx]);
      if r.path != [] then Outcome(r.sel, [nid] + r.path) else TryLinks(c, r.sel, prefix, nid, idx + 1)
  }

  // ---------------------------------------------------------------- what a route is

  ghost predicate NoRepeats(p: seq<byte>) { forall i, j :: 0 <= i < j < |p| ==> p[i] != p[j] }

  /** `b` is a non-null entry of the connection list of `a`. */
  ghost predicate Connected(c: Codec, a: byte, b: byte) {
    a in c.kind && a in c.links && b in c.links[a] && b != 0
  }

  ghost predicate Steps(c: Codec, p: seq<byte>) { forall k :: 0 < k < |p| ==> Connected(c, p[k - 1], p[k]) }

  ghost predicate EndsAtDac(c: Codec, p: seq<byte>) {
    p != [] && p[|p| - 1] in c.kind && c.kind[p[|p| - 1]] == 0
  }

  /** A repetition-free connection path of at most 10 widgets to an audio output. */
  ghost predicate Route(c: Codec, p: seq<byte>) {
    |p| <= 10 && NoRepeats(p) && Steps(c, p) && EndsAtDac(c, p)
  }

  /** `q` goes on from the widgets `prefix` to a converter. */
  ghost predicate Onward(c: Codec, prefix: seq<byte>, q: seq<byte>) {
    |prefix| + |q| <= 10 && NoRepeats(prefix + q) && Steps(c, q) && EndsAtDac(c, q)
  }

  // ---------------------------------------------------------------- soundness

  lemma OnwardStep(c: Codec, prefix: seq<byte>, nid: byte, q: seq<byte>)
    requires Onward(c, prefix + [nid], q) && Connected(c, nid, q[0])
    ensures Onward(c, prefix, [nid] + q)
  {
    assert prefix + [nid] + q == prefix + ([nid] + q);
    var p := [nid] + q;
    forall k | 0 < k < |p|
      ensures Connected(c, p[k - 1], p[k])
    {
      if k > 1 { assert Connected(c, q[k - 1 - 1], q[k - 1]); }
    }
  }

  lemma {:induction false} SearchSound(c: Codec, sel: Selection, prefix: seq<byte>, nid: byte)
    requires NoRepeats(prefix)
    ensures var p := Search(c, sel, prefix, nid).path; p != [] ==> p[0] == nid && Onward(c, prefix, p)
    decreases 2 * (10 - |prefix|) + 1, 0
  {
    if |prefix| < 10 && nid !in prefix && nid in c.kind {
      if c.kind[nid] != AUDIO_OUT && nid in c.links { TrySound(c, sel, prefix, nid, 0); }
    }
  }

  lemma {:induction false} TrySound(c: Codec, sel: Selection, prefix: seq<byte>, nid: byte, idx: nat)
    requires |prefix| < 10 && nid in c.links && idx <= |c.links[nid]|
    requires NoRepeats(prefix) && nid !in prefix && nid in c.kind
    ensures var p := TryLinks(c, sel, prefix, nid, idx).path; p != [] ==> p[0] == nid && Onward(c, prefix, p)
    decreases 2 * (10 - |prefix|), |c.links[nid]| - idx
  {
    hide Onward;
    if idx < |c.links[nid]| {
      var next := c.links[nid][idx];
      if next == 0 {
        TrySound(c, sel, prefix, nid, idx + 1);
      } else {
        var chosen := if Selects(c, nid) then sel[nid := idx] else sel;
        var r := Search(c, chosen, prefix + [nid], next);
        SearchSound(c, chosen, prefix + [nid], next);
        if r.path != [] { OnwardStep(c, prefix, nid, r.path); } else { TrySound(c, r.sel, prefix, nid, idx + 1); }
      }
    }
  }

  // ---------------------------------------------------------------- completeness

  lemma OnwardRest(c: Codec, prefix: seq<byte>, q: seq<byte>)
    requires Onward(c, prefix, q)
    ensures q != [] && |prefix| < 10 && q[0] !in prefix && q[0] in c.kind
    ensures c.kind[q[0]] != 0 ==> |q| > 1 && q[0] in c.links && q[1] in c.links[q[0]] && q[1] != 0
    ensures c.kind[q[0]] != 0 ==> Onward(c, prefix + [q[0]], q[1..])
  {
    assert (prefix + q)[|prefix|] == q[0];
    forall i | 0 <= i < |prefix|
      ensures prefix[i] != q[0]
    {
      assert (prefix + q)[i] == prefix[i];
    }
    if |q| > 1 {
      assert Connected(c, q[1 - 1], q[1]);
      RestSteps(c, q);
      assert prefix + [q[0]] + q[1..] == prefix + q;
    }
  }

  lemma RestSteps(c: Codec, q: seq<byte>)
    requires Steps(c, q) && q != []
    ensures Steps(c, q[1..])
  {
    var p := q[1..];
    forall k | 0 < k < |p|
      ensures Connected(c, p[k - 1], p[k])
    {
      var n := k + 1;
      assert Connected(c, q[n - 1], q[n]);
    }
  }

  /** Every way on to a converter is found, whatever the selectors were. */
  lemma {:induction false} SearchComplete(c: Codec, sel: Selection, prefix: seq<byte>, q: seq<byte>)
    requires Onward(c, prefix, q)
    ensures Search(c, sel, prefix, q[0]).path != []
    decreases 2 * (10 - |prefix|) + 1, 0
  {
    hide Onward;
    OnwardRest(c, prefix, q);
    if c.kind[q[0]] != 0 {
      var j :| 0 <= j < |c.links[q[0]]| && c.links[q[0]][j] == q[1];
      TryComplete(c, sel, prefix, q, 0, j);
    }
  }

  lemma {:induction false} TryComplete(c: Codec, sel: Selection, prefix: seq<byte>, q: seq<byte>, idx: nat, j: nat)
    requires |prefix| < 10 && |q| > 1 && q[0] in c.links && idx <= j < |c.links[q[0]]|
    requires c.links[q[0]][j] == q[1] != 0 && Onward(c, prefix + [q[0]], q[1..])
    ensures TryLinks(c, sel, prefix, q[0], idx).path != []
    decreases 2 * (10 - |prefix|), |c.links[q[0]]| - idx
  {
    hide Onward;
    var nid, next := q[0], c.links[q[0]][idx];
    if next == 0 {
      TryComplete(c, sel, prefix, q, idx + 1, j);
    } else {
      var chosen := if Selects(c, nid) then sel[nid := idx] else sel;
      var r := Search(c, chosen, prefix + [nid], next);
      if idx == j {
        SearchComplete(c, chosen, prefix + [nid], q[1..]);
      } else if r.path == [] {
        TryComplete(c, r.sel, prefix, q, idx + 1, j);
      }
    }
  }

  // ---------------------------------------------------------------- the selectors left behind

  ghost predicate SameOn(sel: Selection, sel': Selection, ns: seq<byte>) {
    forall n :: n in ns ==> (n in sel <==> n in sel') && (n in sel ==> sel'[n] == sel[n])
  }

  /** Widget `a` of the path is set to the entry that leads to `b`. */
  ghost predicate Leads(c: Codec, sel: Selection, a: byte, b: byte) {
    Selects(c, a) && a in c.links ==> a in sel && sel[a] < |c.links[a]| && c.links[a][sel[a]] == b
  }

  ghost predicate Routed(c: Codec, sel: Selection, p: seq<byte>) {
    forall k :: 0 < k < |p| ==> Leads(c, sel, p[k - 1], p[k])
  }

  /** The search never touches a selector of a widget already on the path. */
  lemma {:induction false} SearchFrame(c: Codec, sel: Selection, prefix: seq<byte>, nid: byte)
    ensures SameOn(sel, Search(c, sel, prefix, nid).sel, prefix)
    decreases 2 * (10 - |prefix|) + 1, 0
  {
    if |prefix| < 10 && nid !in prefix && nid in c.kind && c.kind[nid] != AUDIO_OUT && nid in c.links {
      TryFrame(c, sel, prefix, nid, 0);
    }
  }

  lemma {:induction false} TryFrame(c: Codec, sel: Selection, prefix: seq<byte>, nid: byte, idx: nat)
    requires |prefix| < 10 && nid in c.links && idx <= |c.links[nid]| && nid !in prefix
    ensures SameOn(sel, TryLinks(c, sel, prefix, nid, idx).sel, prefix)
    decreases 2 * (10 - |prefix|), |c.links[nid]| - idx
  {
    if idx < |c.links[nid]| {
      var next := c.links[nid][idx];
      if next == 0 {
        TryFrame(c, sel, prefix, nid, idx + 1);
      } else {
        var chosen := if Selects(c, nid) then sel[nid := idx] else sel;
        var r := Search(c, chosen, prefix + [nid], next);
        SearchFrame(c, chosen, prefix + [nid], next);
        FramePrefix(sel, chosen, r.sel, prefix, nid);
        if r.path == [] { TryFrame(c, r.sel, prefix, nid, idx + 1); }
      }
    }
  }

  lemma FramePrefix(sel: Selection, chosen: Selection, after: Selection, prefix: seq<byte>, nid: byte)
    requires SameOn(chosen, after, prefix + [nid]) && SameOn(sel, chosen, prefix)
    ensures SameOn(sel, after, prefix)
  {
    forall n | n in prefix
      ensures (n in sel <==> n in after) && (n in sel ==> after[n] == sel[n])
    {
      assert n in prefix + [nid];
    }
  }

  lemma {:induction false} SearchRoutes(c: Codec, sel: Selection, prefix: seq<byte>, nid: byte)
    requires NoRepeats(prefix)
    ensures var r := Search(c, sel, prefix, nid); Routed(c, r.sel, r.path)
    decreases 2 * (10 - |prefix|) + 1, 0
  {
    if |prefix| < 10 && nid !in prefix && nid in c.kind && c.kind[nid] != AUDIO_OUT && nid in c.links {
      TryRoutes(c, sel, prefix, nid, 0);
    }
  }

  lemma {:induction false} TryRoutes(c: Codec, sel: Selection, prefix: seq<byte>, nid: byte, idx: nat)
    requires |prefix| < 10 && nid in c.links && idx <= |c.links[nid]| && nid !in prefix && NoRepeats(prefix)
    ensures var r := TryLinks(c, sel, prefix, nid, idx); Routed(c, r.sel, r.path)
    decreases 2 * (10 - |prefix|), |c.links[nid]| - idx
  {
    if idx < |c.links[nid]| {
      var next := c.links[nid][idx];
      if next == 0 {
        TryRoutes(c, sel, prefix, nid, idx + 1);
      } else {
        hide Routed, Leads, NoRepeats, SameOn;
        var chosen := if Selects(c, nid) then sel[nid := idx] else sel;
        var here := prefix + [nid];
        HereFresh(prefix, nid);
        var r := Search(c, chosen, here, next);
        SearchRoutes(c, chosen, here, next);
        SearchSound(c, chosen, here, next);
        SearchFrame(c, chosen, here, next);
        if r.path != [] {
          ChosenLeads(c, sel, chosen, r.sel, here, nid, idx);
          RoutedStep(c, r.sel, nid, r.path);
        } else {
          TryRoutes(c, r.sel, prefix, nid, idx + 1);
        }
      }
    }
  }

  lemma HereFresh(prefix: seq<byte>, nid: byte)
    requires NoRepeats(prefix) && nid !in prefix
    ensures NoRepeats(prefix + [nid])
  {
  }

  lemma ChosenLeads(c: Codec, sel: Selection, chosen: Selection, after: Selection, here: seq<byte>, nid: byte, idx: nat)
    requires nid in c.links && idx < |c.links[nid]| && nid in here && SameOn(chosen, after, here)
    requires chosen == if Selects(c, nid) then sel[nid := idx] else sel
    ensures Leads(c, after, nid, c.links[nid][idx])
  {
  }

  lemma RoutedStep(c: Codec, sel: Selection, nid: byte, p: seq<byte>)
    requires p != [] && Routed(c, sel, p) && Leads(c, sel, nid, p[0])
    ensures Routed(c, sel, [nid] + p)
  {
    var q := [nid] + p;
    forall k | 0 < k < |q|
      ensures Leads(c, sel, q[k - 1], q[k])
    {
      if k > 1 { assert Leads(c, sel, p[k - 1 - 1], p[k - 1]); }
    }
  }

  /** The search from a pin succeeds exactly when a route starts there; what it returns is one, and
      every selector on it is left pointing at the next widget. */
  lemma SearchDecides(c: Codec, sel: Selection, pin: byte)
    ensures var r := Search(c, sel, [], pin);
            && (r.path != [] <==> exists q :: Route(c, q) && q[0] == pin)
            && (r.path != [] ==> Route(c, r.path) && r.path[0] == pin && Routed(c, r.sel, r.path))
  {
    hide Search, NoRepeats, Steps, Routed;
    var r := Search(c, sel, [], pin);
    StartFresh();
    SearchSound(c, sel, [], pin);
    SearchRoutes(c, sel, [], pin);
    assert [] + r.path == r.path;
    if q :| Route(c, q) && q[0] == pin {
      assert [] + q == q;
      SearchComplete(c, sel, [], q);
    }
  }

  lemma StartFresh()
    ensures NoRepeats([])
  {
  }
}
