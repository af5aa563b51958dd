/** The disk rescan protocol: requesters and workers interleave at every critical section over two
    flags. One token of work exists while `pending` is set, and no request is forgotten unless the
    work queue refused the token. */
module Rescan {

  /** Flags; how many requesters are about to enqueue or to take back `pending`; how many rescans are
      queued, taken from the queue, scanning, or past the scan and about to decide. For the claims:
      requests made, requests made before the last scan began, and whether the queue has refused
      a rescan since then. */
  datatype State = State(
    pending: bool, again: bool,
    enqueuing: nat, undoing: nat, queued: nat, ready: nat, scanning: nat, deciding: nat,
    asked: nat, covered: nat, refused: bool)

  const START := State(false, false, 0, 0, 0, 0, 0, 0, 0, 0, false)

  datatype Step = Request | Enqueued | EnqueueFails | Undo | Dequeue | BeginScan | EndScan | Decide

  predicate Enabled(s: State, a: Step) {
    match a
    case Request => true
    case Enqueued => s.enqueuing > 0
    case EnqueueFails => s.enqueuing > 0
    case Undo => s.undoing > 0
    case Dequeue => s.queued > 0
    case BeginScan => s.ready > 0
    case EndScan => s.scanning > 0
    case Decide => s.deciding > 0
  }

  /** One atomic step of some thread. */
  function Next(s: State, a: Step): (r: State)
    requires Enabled(s, a)
  {
    match a
    case Request =>
      if !s.pending then s.(pending := true, enqueuing := s.enqueuing + 1, asked := s.asked + 1)
      else s.(again := true, asked := s.asked + 1)
    case Enqueued => s.(enqueuing := s.enqueuing - 1, queued := s.queued + 1)
    case EnqueueFails => s.(enqueuing := s.enqueuing - 1, undoing := s.undoing + 1, refused := true)
    case Undo => s.(undoing := s.undoing - 1, pending := false)
    case Dequeue => s.(queued := s.queued - 1, ready := s.ready + 1)
    case BeginScan => s.(ready := s.ready - 1, scanning := s.scanning + 1, covered := s.asked, refused := false)
    case EndScan => s.(scanning := s.scanning - 1, deciding := s.deciding + 1)
    case Decide =>
      if s.again then s.(deciding := s.deciding - 1, again := false, ready := s.ready + 1)
      else s.(deciding := s.deciding - 1, pending := false)
  }

  function Tokens(s: State): nat {
    s.enqueuing + s.undoing + s.queued + s.ready + s.scanning + s.deciding
  }

  /** What every reachable state satisfies. */
  ghost predicate Inv(s: State) {
    && Tokens(s) == (if s.pending then 1 else 0)
    && s.covered <= s.asked
    && (s.enqueuing + s.undoing > 0 ==> s.covered < s.asked)
    && (s.undoing > 0 ==> s.refused)
    && (s.refused ==> s.covered < s.asked)
    && (s.again && !s.pending ==> s.refused)
    && (s.covered < s.asked ==>
          s.refused || s.enqueuing + s.queued + s.ready > 0 || (s.again && s.scanning + s.deciding > 0))
  }

  ghost predicate Run(trace: seq<State>, steps: seq<Step>) {
    && |trace| == |steps| + 1
    && forall k :: 0 <= k < |steps| ==> Enabled(trace[k], steps[k]) && trace[k + 1] == Next(trace[k], steps[k])
  }

  lemma StepKeepsInv(s: State, a: Step)
    requires Inv(s) && Enabled(s, a)
    ensures Inv(Next(s, a))
  {
  }

  lemma {:induction false} RunKeepsInv(trace: seq<State>, steps: seq<Step>, k: nat)
    requires Run(trace, steps) && trace[0] == START && k < |trace|
    ensures Inv(trace[k])
    decreases k
  {
    hide Inv, Next;
    StartInv();
    if k > 0 {
      RunKeepsInv(trace, steps, k - 1);
      assert trace[k - 1 + 1] == Next(trace[k - 1], steps[k - 1]);
      StepKeepsInv(trace[k - 1], steps[k - 1]);
    }
  }

  lemma StartInv()
    ensures Inv(START)
  {
  }

  /** In every interleaving the tokens number exactly one while `pending` is set and none otherwise;
      so there is never a second scan, nor one while a rescan waits. */
  lemma ScansNeverOverlap(trace: seq<State>, steps: seq<Step>, k: nat)
    requires Run(trace, steps) && trace[0] == START && k < |trace|
    ensures Tokens(trace[k]) == if trace[k].pending then 1 else 0
    ensures trace[k].scanning <= 1
    ensures trace[k].scanning == 1 ==> trace[k].queued + trace[k].ready + trace[k].enqueuing == 0
  {
    RunKeepsInv(trace, steps, k);
  }

  /** In a quiet state a request is unserved exactly when the queue refused a rescan after the last
      scan began; otherwise `again` is clear too. */
  lemma QuietMeansServed(trace: seq<State>, steps: seq<Step>, k: nat)
    requires Run(trace, steps) && trace[0] == START && k < |trace| && Tokens(trace[k]) == 0
    ensures trace[k].covered < trace[k].asked <==> trace[k].refused
    ensures !trace[k].pending && (trace[k].again ==> trace[k].refused)
  {
    RunKeepsInv(trace, steps, k);
  }

  /** The counter of covered requests moves only when a scan begins. */
  lemma {:induction false} CoverNeedsScan(trace: seq<State>, steps: seq<Step>, k: nat, m: nat, n: nat)
    requires Run(trace, steps) && k <= m < |trace| && trace[k].covered < n <= trace[m].covered
    ensures exists j :: k <= j < m && steps[j] == BeginScan
    decreases m - k
  {
    assert k < m;
    if steps[k] != BeginScan {
      assert trace[k + 1] == Next(trace[k], steps[k]);
      assert trace[k + 1].covered == trace[k].covered;
      CoverNeedsScan(trace, steps, k + 1, m, n);
    }
  }

  lemma {:induction false} AskedGrows(trace: seq<State>, steps: seq<Step>, k: nat, m: nat)
    requires Run(trace, steps) && k <= m < |trace|
    ensures trace[k].asked <= trace[m].asked
    decreases m - k
  {
    if k < m {
      assert trace[k + 1] == Next(trace[k], steps[k]);
      AskedGrows(trace, steps, k + 1, m);
    }
  }

  // ---------------------------------------------------------------- every request is served

  /** A scan is on its way: some rescan has yet to begin, or a running one will go round again. No
      requester is about to take `pending` back. */
  ghost predicate Coming(s: State) {
    && s.undoing == 0
    && (s.enqueuing + s.queued + s.ready > 0 || (s.again && s.scanning + s.deciding > 0))
  }

  /** How many steps other than requests it takes to begin. */
  function Distance(s: State): nat {
    3 * s.enqueuing + 2 * s.queued + s.ready + if s.again then 3 * s.scanning + 2 * s.deciding else 0
  }

  lemma RequestBringsScan(s: State)
    requires Inv(s) && s.undoing == 0
    ensures Coming(Next(s, Request)) && 1 <= Distance(Next(s, Request)) <= 3
  {
  }

  lemma ScanComesCloser(s: State, a: Step)
    requires Inv(s) && Coming(s) && Enabled(s, a) && a != EnqueueFails && a != BeginScan
    ensures Coming(Next(s, a)) && Distance(Next(s, a)) == Distance(s) - if a == Request then 0 else 1
  {
  }

  lemma ComingIsNear(s: State)
    requires Inv(s) && Coming(s)
    ensures 1 <= Distance(s) <= 3
  {
  }

  /** The steps of a stretch that are not requests. */
  function Others(steps: seq<Step>, a: nat, b: nat): nat
    requires a <= b <= |steps|
    decreases b - a
  {
    if a == b then 0 else (if steps[a] == Request then 0 else 1) + Others(steps, a + 1, b)
  }

  ghost predicate NoneRefused(steps: seq<Step>, a: nat, b: nat)
    requires a <= b <= |steps|
  {
    forall j :: a <= j < b ==> steps[j] != EnqueueFails
  }

  lemma {:induction false} ScanBegins(trace: seq<State>, steps: seq<Step>, k: nat, m: nat)
    requires Run(trace, steps) && trace[0] == START && k <= m < |trace| && NoneRefused(steps, k, m)
    requires Coming(trace[k]) && Others(steps, k, m) >= Distance(trace[k])
    ensures exists j :: k <= j < m && steps[j] == BeginScan
    decreases m - k
  {
    hide Inv, Coming, Distance, Next;
    RunKeepsInv(trace, steps, k);
    ComingIsNear(trace[k]);
    if steps[k] != BeginScan {
      assert trace[k + 1] == Next(trace[k], steps[k]);
      ScanComesCloser(trace[k], steps[k]);
      ScanBegins(trace, steps, k + 1, m);
    }
  }

  /** Every request is served, in runs that never rest too: if no requester is taking `pending` back
      when it is made and no enqueue fails after it, a scan begins after it within three steps that
      are not themselves requests. */
  lemma EveryRequestServed(trace: seq<State>, steps: seq<Step>, k: nat, m: nat)
    requires Run(trace, steps) && trace[0] == START && k < m < |trace| && steps[k] == Request
    requires trace[k].undoing == 0 && NoneRefused(steps, k + 1, m) && Others(steps, k + 1, m) >= 3
    ensures exists j :: k < j < m && steps[j] == BeginScan
  {
    hide Inv, Coming, Distance, Next;
    RunKeepsInv(trace, steps, k);
    assert trace[k + 1] == Next(trace[k], steps[k]);
    RequestBringsScan(trace[k]);
    ScanBegins(trace, steps, k + 1, m);
  }

  /** In particular when enqueues succeed throughout. */
  lemma ServedWhenAccepted(trace: seq<State>, steps: seq<Step>, k: nat, m: nat)
    requires Run(trace, steps) && trace[0] == START && k < m < |trace| && steps[k] == Request
    requires EnqueueFails !in steps && Others(steps, k + 1, m) >= 3
    ensures exists j :: k < j < m && steps[j] == BeginScan
  {
    hide Inv, Next;
    RunKeepsInv(trace, steps, k);
    NoRefusal(trace, steps, k);
    NotUndoing(trace[k]);
    EveryRequestServed(trace, steps, k, m);
  }

  lemma NotUndoing(s: State)
    requires Inv(s) && !s.refused
    ensures s.undoing == 0
  {
  }

  /** A requester taking `pending` back loses a request made meanwhile: the state it leaves is quiet,
      with that request unserved. */
  lemma UndoLosesRequest(s: State)
    requires Inv(s) && s.undoing > 0
    ensures var t := Next(Next(s, Request), Undo); Tokens(t) == 0 && t.covered < t.asked
  {
  }

  /** At rest: without a refusal since the last scan began, every request was followed by a scan. */
  lemma ServedAtRest(trace: seq<State>, steps: seq<Step>, k: nat, m: nat)
    requires Run(trace, steps) && trace[0] == START && k < m < |trace| && steps[k] == Request
    requires Tokens(trace[m]) == 0 && !trace[m].refused
    ensures exists j :: k < j < m && steps[j] == BeginScan
  {
    RunKeepsInv(trace, steps, k);
    RunKeepsInv(trace, steps, m);
    assert trace[k + 1] == Next(trace[k], steps[k]);
    AskedGrows(trace, steps, k + 1, m);
    CoverNeedsScan(trace, steps, k + 1, m, trace[k].asked + 1);
  }

  /** With no refusals at all, no state is ever marked refused. */
  lemma {:induction false} NoRefusal(trace: seq<State>, steps: seq<Step>, k: nat)
    requires Run(trace, steps) && trace[0] == START && k < |trace| && EnqueueFails !in steps
    ensures !trace[k].refused
    decreases k
  {
    if k > 0 {
      NoRefusal(trace, steps, k - 1);
      assert steps[k - 1] in steps;
      assert trace[k - 1 + 1] == Next(trace[k - 1], steps[k - 1]);
    }
  }

  // ---------------------------------------------------------------- progress

  /** Work left to the steps that are not new requests. */
  function Work(s: State): nat {
    (if s.again then 10 else 0)
    + 6 * s.enqueuing + 5 * s.queued + 4 * s.ready + 3 * s.scanning + 2 * s.deciding + s.undoing
  }

  /** Until the state is quiet some step is possible, and every step but a request uses up work: with
      no further requests every run comes to rest. */
  lemma ComesToRest(s: State, a: Step)
    requires Inv(s)
    ensures Tokens(s) > 0 ==> exists b :: b != Request && Enabled(s, b)
    ensures a != Request && Enabled(s, a) ==> Work(Next(s, a)) < Work(s)
  {
    if Tokens(s) > 0 {
      assert Enabled(s, Enqueued) || Enabled(s, Undo) || Enabled(s, Dequeue) || Enabled(s, BeginScan)
          || Enabled(s, EndScan) || Enabled(s, Decide);
    }
  }

  /** Hence a stretch without requests is no longer than the work at its start. */
  lemma {:induction false} RestBound(trace: seq<State>, steps: seq<Step>, k: nat, m: nat)
    requires Run(trace, steps) && trace[0] == START && k <= m < |trace|
    requires forall j :: k <= j < m ==> steps[j] != Request
    ensures m - k + Work(trace[m]) <= Work(trace[k])
    decreases m - k
  {
    if k < m {
      hide Inv, Work;
      RunKeepsInv(trace, steps, k);
      ComesToRest(trace[k], steps[k]);
      assert trace[k + 1] == Next(trace[k], steps[k]);
      RestBound(trace, steps, k + 1, m);
    }
  }

  // ---------------------------------------------------------------- a refused rescan

  /** One step taken from `s` to `t`. */
  ghost predicate Takes(s: State, a: Step, t: State) { Enabled(s, a) && Next(s, a) == t }

  lemma FirstRequest(t: State)
    ensures Takes(START, Request, t) <==> t == START.(pending := true, enqueuing := 1, asked := 1)
  {
  }

  lemma LaterRequest(s: State, t: State)
    requires s.pending
    ensures Takes(s, Request, t) <==> t == s.(again := true, asked := s.asked + 1)
  {
  }

  lemma Refused(s: State, t: State)
    requires s.enqueuing > 0
    ensures Takes(s, EnqueueFails, t) <==>
            t == s.(enqueuing := s.enqueuing - 1, undoing := s.undoing + 1, refused := true)
  {
  }

  lemma Undone(s: State, t: State)
    requires s.undoing > 0
    ensures Takes(s, Undo, t) <==> t == s.(undoing := s.undoing - 1, pending := false)
  {
  }

  /** A queue that refuses loses requests: from the start, two requests, the enqueue that fails and its
      undoing lead to a quiet state with both requests unserved and `again` left set. */
  lemma RefusalLosesRequests() returns (s1: State, s2: State, s3: State, s4: State)
    ensures Takes(START, Request, s1) && Takes(s1, Request, s2) && Takes(s2, EnqueueFails, s3) && Takes(s3, Undo, s4)
    ensures Tokens(s4) == 0 && s4.again && !s4.pending && s4.asked == 2 && s4.covered == 0
  {
    hide Takes;
    s1 := START.(pending := true, enqueuing := 1, asked := 1);
    FirstRequest(s1);
    s2 := s1.(again := true, asked := 2);
    LaterRequest(s1, s2);
    s3 := s2.(enqueuing := 0, undoing := 1, refused := true);
    Refused(s2, s3);
    s4 := s3.(undoing := 0, pending := false);
    Undone(s3, s4);
  }
}
