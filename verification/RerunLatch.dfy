/** The compare-and-swap guard with a rerun flag that Backfill, BackfillOCR,
    BackfillDocVerdicts, BackfillAesthetic and the caption feeder all repeat. */
module RerunLatch {

  /** Where a caller is. A winner goes round AboutToRun, Running, Checking until it releases. */
  datatype Caller =
    | Arriving     // before running.CompareAndSwap(false, true)
    | Losing       // the swap failed; before rerunPending.Store(true)
    | AboutToRun   // holder, before the next pass queries its targets
    | Running      // holder, inside a pass
    | Checking     // holder, before rerunPending.CompareAndSwap(true, false)
    | Releasing    // holder, before the deferred running.Store(false)
    | Returned

  predicate Holds(c: Caller) {
    c.AboutToRun? || c.Running? || c.Checking? || c.Releasing?
  }

  /** A holder that will still look at the flag, unless its pass fails. */
  predicate WillCheck(c: Caller) {
    c.AboutToRun? || c.Running? || c.Checking?
  }

  /** A store of the rerun flag: how many passes had queried and how many callers had won by then, and whether
      it landed when no holder was going to look at the flag any more. */
  datatype Landing = Landing(passes: nat, wins: nat, late: bool)

  /** The two atomics, the callers, and counts of what has happened. */
  datatype Latch = Latch(running: bool, rerun: bool, callers: seq<Caller>,
                         wins: nat, passes: nat, consumed: nat, failures: nat,
                         landed: seq<Landing>, unseen: bool)

  datatype Event = Arrive | Act(i: nat) | FailPass(i: nat)

  ghost predicate SomeWillCheck(s: Latch) {
    exists i :: 0 <= i < |s.callers| && WillCheck(s.callers[i])
  }

  ghost predicate Init(s: Latch) {
    s == Latch(false, false, [], 0, 0, 0, 0, [], false)
  }

  /** One atomic action. `unseen` says that the flag was last raised, or left, with nobody going to look at it. */
  ghost predicate Step(s: Latch, e: Event, t: Latch) {
    match e
    case Arrive => t == s.(callers := s.callers + [Arriving])
    case FailPass(i) =>
      i < |s.callers| && s.callers[i] == Running &&
      t == s.(callers := s.callers[i := Releasing], failures := s.failures + 1, unseen := s.unseen || s.rerun)
    case Act(i) =>
      i < |s.callers| &&
      match s.callers[i]
      case Arriving =>
        t == if s.running then s.(callers := s.callers[i := Losing])
             else s.(running := true, wins := s.wins + 1, callers := s.callers[i := AboutToRun])
      case Losing =>
        t == s.(rerun := true, callers := s.callers[i := Returned],
                landed := s.landed + [Landing(s.passes, s.wins, !SomeWillCheck(s))], unseen := s.unseen || !SomeWillCheck(s))
      case AboutToRun => t == s.(passes := s.passes + 1, callers := s.callers[i := Running])
      case Running => t == s.(callers := s.callers[i := Checking])
      case Checking =>
        t == if s.rerun then s.(rerun := false, consumed := s.consumed + 1, unseen := false, callers := s.callers[i := AboutToRun])
             else s.(callers := s.callers[i := Releasing])
      case Releasing => t == s.(running := false, callers := s.callers[i := Returned])
      case Returned => false
  }

  ghost predicate Moves(s: Latch, t: Latch) {
    exists e :: Step(s, e, t)
  }

  ghost predicate MovesAt(trace: seq<Latch>, k: nat) {
    0 < k < |trace| ==> Moves(trace[k - 1], trace[k])
  }

  ghost predicate Run(trace: seq<Latch>) {
    |trace| > 0 && Init(trace[0]) && forall k :: MovesAt(trace, k)
  }

  // ---------------------------------------------------------------- invariant

  function Ready(cs: seq<Caller>): nat {
    if cs == [] then 0 else Ready(cs[..|cs| - 1]) + if cs[|cs| - 1].AboutToRun? then 1 else 0
  }

  lemma {:induction false} ReadyUpdate(cs: seq<Caller>, i: nat, c: Caller)
    requires i < |cs|
    ensures Ready(cs[i := c]) == Ready(cs) - (if cs[i].AboutToRun? then 1 else 0) + (if c.AboutToRun? then 1 else 0)
  {
    var last := |cs| - 1;
    if i == last {
      assert cs[i := c][..last] == cs[..last];
    } else {
      assert cs[i := c][..last] == cs[..last][i := c];
      ReadyUpdate(cs[..last], i, c);
    }
  }

  lemma {:induction false} ReadyOne(cs: seq<Caller>, i: nat)
    requires i < |cs| && cs[i].AboutToRun?
    ensures Ready(cs) >= 1
  {
    var last := |cs| - 1;
    if i < last { ReadyOne(cs[..last], i); }
  }

  /** The running flag is up exactly while one caller holds the latch. */
  ghost predicate Exclusive(s: Latch) {
    && (forall i, j :: 0 <= i < j < |s.callers| ==> !(Holds(s.callers[i]) && Holds(s.callers[j])))
    && (s.running <==> exists i :: 0 <= i < |s.callers| && Holds(s.callers[i]))
  }

  /** A landed store is still flagged, or a later query has been or is about to be made for it. */
  ghost predicate Covered(s: Latch, l: Landing) {
    s.rerun || s.passes > l.passes || Ready(s.callers) > 0
  }

  ghost predicate Counted(s: Latch) {
    && s.passes + Ready(s.callers) == s.wins + s.consumed
    && s.consumed + (if s.rerun then 1 else 0) <= |s.landed|
  }

  /** The flag is up with nobody to look at it exactly when it was raised too late or a pass failed under it. */
  ghost predicate Watched(s: Latch) {
    && (s.rerun ==> s.unseen || SomeWillCheck(s))
    && (s.unseen ==> s.rerun)
    && (s.failures == 0 ==>
          forall k :: 0 <= k < |s.landed| && !s.landed[k].late ==>
            s.passes > s.landed[k].passes || (SomeWillCheck(s) && (s.rerun || Ready(s.callers) > 0)))
  }

  ghost predicate Inv(s: Latch) {
    && Exclusive(s) && Counted(s) && Watched(s)
    && (forall k :: 0 <= k < |s.landed| ==> s.landed[k].passes <= s.passes && Covered(s, s.landed[k]))
  }

  lemma HolderMoves(s: Latch, i: nat, c: Caller, t: Latch)
    requires Exclusive(s) && i < |s.callers| && Holds(s.callers[i]) && t.callers == s.callers[i := c]
    ensures SomeWillCheck(s) <==> WillCheck(s.callers[i])
    ensures SomeWillCheck(t) <==> WillCheck(c)
    ensures (Holds(c) && t.running) || (!Holds(c) && !t.running) ==> Exclusive(t)
  {
    assert t.callers[i] == c;
    forall j | 0 <= j < |t.callers| && j != i ensures t.callers[j] == s.callers[j] && !Holds(t.callers[j]) {
    }
  }

  lemma OtherMoves(s: Latch, i: nat, c: Caller, t: Latch)
    requires Exclusive(s) && i < |s.callers| && !Holds(s.callers[i]) && !Holds(c) && t.callers == s.callers[i := c] && t.running == s.running
    ensures SomeWillCheck(s) <==> SomeWillCheck(t)
    ensures Exclusive(t)
  {
    forall j | 0 <= j < |s.callers| && j != i ensures t.callers[j] == s.callers[j] {
    }
    if SomeWillCheck(s) {
      var j :| 0 <= j < |s.callers| && WillCheck(s.callers[j]);
      assert WillCheck(t.callers[j]);
    }
    if s.running {
      var j :| 0 <= j < |s.callers| && Holds(s.callers[j]);
      assert Holds(t.callers[j]);
    }
  }

  lemma ArriveKeeps(s: Latch, t: Latch)
    requires Inv(s) && Step(s, Arrive, t)
    ensures Inv(t)
  {
    assert t.callers[..|s.callers|] == s.callers;
    forall i | 0 <= i < |s.callers| ensures t.callers[i] == s.callers[i] {
    }
    if s.running {
      var i :| 0 <= i < |s.callers| && Holds(s.callers[i]);
      assert Holds(t.callers[i]);
    }
    if SomeWillCheck(s) {
      var i :| 0 <= i < |s.callers| && WillCheck(s.callers[i]);
      assert WillCheck(t.callers[i]);
    }
  }

  lemma FailKeeps(s: Latch, i: nat, t: Latch)
    requires Inv(s) && Step(s, FailPass(i), t)
    ensures Inv(t)
  {
    HolderMoves(s, i, Releasing, t);
    ReadyUpdate(s.callers, i, Releasing);
  }

  lemma WinKeeps(s: Latch, i: nat, t: Latch)
    requires Inv(s) && Step(s, Act(i), t) && s.callers[i].Arriving? && !s.running
    ensures Inv(t)
  {
    ReadyUpdate(s.callers, i, AboutToRun);
    assert t.callers[i] == AboutToRun;
    forall j | 0 <= j < |t.callers| && j != i ensures t.callers[j] == s.callers[j] && !Holds(t.callers[j]) {
    }
    assert SomeWillCheck(t);
  }

  lemma LoseKeeps(s: Latch, i: nat, t: Latch)
    requires Inv(s) && Step(s, Act(i), t) && s.callers[i].Arriving? && s.running
    ensures Inv(t)
  {
    ReadyUpdate(s.callers, i, Losing);
    OtherMoves(s, i, Losing, t);
  }

  lemma StoreKeeps(s: Latch, i: nat, t: Latch)
    requires Inv(s) && Step(s, Act(i), t) && s.callers[i].Losing?
    ensures Inv(t)
  {
    ReadyUpdate(s.callers, i, Returned);
    OtherMoves(s, i, Returned, t);
  }

  lemma HolderKeeps(s: Latch, i: nat, t: Latch)
    requires Inv(s) && Step(s, Act(i), t) && Holds(s.callers[i])
    ensures Inv(t)
  {
    var c := t.callers[i];
    assert t.callers == s.callers[i := c];
    HolderMoves(s, i, c, t);
    NoReadyButHolder(s, i);
    NoReadyButHolder(t, i);
  }

  /** Only the holder can be about to run. */
  lemma NoReadyButHolder(s: Latch, i: nat)
    requires i < |s.callers| && forall j :: 0 <= j < |s.callers| && j != i ==> !Holds(s.callers[j])
    ensures Ready(s.callers) == if s.callers[i].AboutToRun? then 1 else 0
  {
    ReadyAlone(s.callers, i);
  }

  lemma {:induction false} ReadyAlone(cs: seq<Caller>, i: nat)
    requires forall j :: 0 <= j < |cs| && j != i ==> !Holds(cs[j])
    ensures Ready(cs) == if i < |cs| && cs[i].AboutToRun? then 1 else 0
  {
    if cs != [] { ReadyAlone(cs[..|cs| - 1], i); }
  }

  lemma StepKeeps(s: Latch, e: Event, t: Latch)
    requires Inv(s) && Step(s, e, t)
    ensures Inv(t)
  {
    match e
    case Arrive => ArriveKeeps(s, t);
    case FailPass(i) => FailKeeps(s, i, t);
    case Act(i) =>
      if Holds(s.callers[i]) { HolderKeeps(s, i, t); }
      else if s.callers[i].Losing? { StoreKeeps(s, i, t); }
      else if s.running { LoseKeeps(s, i, t); }
      else { WinKeeps(s, i, t); }
  }

  lemma {:induction false} RunKeeps(trace: seq<Latch>, k: nat)
    requires Run(trace) && k < |trace|
    ensures Inv(trace[k])
  {
    if k > 0 {
      RunKeeps(trace, k - 1);
      assert MovesAt(trace, k);
      var e :| Step(trace[k - 1], e, trace[k]);
      StepKeeps(trace[k - 1], e, trace[k]);
    }
  }

  // ---------------------------------------------------------------- what holds in every reachable state

  ghost predicate InPass(s: Latch, i: nat) {
    i < |s.callers| && s.callers[i].Running?
  }

  /** At most one pass runs at a time, and nobody else is past the guard meanwhile. */
  lemma OnePassAtATime(trace: seq<Latch>, k: nat, i: nat, j: nat)
    requires Run(trace) && k < |trace| && InPass(trace[k], i) && j < |trace[k].callers| && Holds(trace[k].callers[j])
    ensures i == j && trace[k].running
  {
    RunKeeps(trace, k);
  }

  /** Once a losing caller's store has landed, the flag is still up, or a pass queried after it, or the holder is about to. */
  lemma StoreIsNotForgotten(trace: seq<Latch>, k: nat, n: nat)
    requires Run(trace) && k < |trace| && n < |trace[k].landed|
    ensures var s := trace[k];
            s.rerun || s.passes > s.landed[n].passes || exists i :: 0 <= i < |s.callers| && s.callers[i].AboutToRun?
  {
    RunKeeps(trace, k);
    if forall i :: 0 <= i < |trace[k].callers| ==> !trace[k].callers[i].AboutToRun? {
      ReadyNone(trace[k].callers);
    }
  }

  lemma {:induction false} ReadyNone(cs: seq<Caller>)
    requires forall i :: 0 <= i < |cs| ==> !cs[i].AboutToRun?
    ensures Ready(cs) == 0
  {
    if cs != [] { ReadyNone(cs[..|cs| - 1]); }
  }

  /** Passes never exceed winning callers plus flag stores. */
  lemma PassesAreBounded(trace: seq<Latch>, k: nat)
    requires Run(trace) && k < |trace|
    ensures trace[k].passes <= trace[k].wins + |trace[k].landed|
  {
    RunKeeps(trace, k);
  }

  ghost predicate Idle(s: Latch) {
    forall i :: 0 <= i < |s.callers| ==> s.callers[i].Returned?
  }

  /** When every caller has returned, a trigger is left over exactly when the flag was raised after the
      holder's last look at it, or a pass failed while it was up. */
  lemma LeftOverTriggers(trace: seq<Latch>, k: nat)
    requires Run(trace) && k < |trace| && Idle(trace[k])
    ensures trace[k].rerun <==> trace[k].unseen
    ensures !trace[k].running
  {
    RunKeeps(trace, k);
  }

  /** As long as no pass fails, a store that landed before the holder's last look has been served when the latch is released. */
  lemma TimelyStoresAreServed(trace: seq<Latch>, k: nat, n: nat)
    requires Run(trace) && k < |trace| && n < |trace[k].landed| && trace[k].failures == 0
    requires !trace[k].running && !trace[k].landed[n].late
    ensures trace[k].passes > trace[k].landed[n].passes
  {
    RunKeeps(trace, k);
  }

  // ---------------------------------------------------------------- which stores stay unserved

  /** A late store waits for the next winner: until there is one no pass queries, and a winner makes one query. */
  ghost predicate Waits(s: Latch, l: Landing) {
    && l.wins <= s.wins && l.passes <= s.passes
    && (l.late && s.wins == l.wins ==> s.passes == l.passes && !SomeWillCheck(s))
    && (l.late && s.wins > l.wins ==> s.passes > l.passes || Ready(s.callers) > 0)
  }

  ghost predicate AllWait(s: Latch) {
    forall k :: 0 <= k < |s.landed| ==> Waits(s, s.landed[k])
  }

  /** The holder moves on. */
  lemma HolderWaits(s: Latch, i: nat, t: Latch)
    requires Exclusive(s) && AllWait(s) && i < |s.callers| && Holds(s.callers[i]) && (Step(s, Act(i), t) || Step(s, FailPass(i), t))
    ensures AllWait(t)
  {
    var c := t.callers[i];
    assert t.callers == s.callers[i := c] && t.landed == s.landed;
    HolderMoves(s, i, c, t);
    NoReadyButHolder(s, i);
    NoReadyButHolder(t, i);
    forall k | 0 <= k < |t.landed| ensures Waits(t, t.landed[k]) {
      assert Waits(s, s.landed[k]);
    }
  }

  /** Somebody else does. */
  lemma OtherWaits(s: Latch, e: Event, t: Latch)
    requires Exclusive(s) && AllWait(s) && Step(s, e, t) && !e.FailPass? && (e.Act? ==> !Holds(s.callers[e.i]))
    ensures AllWait(t)
  {
    if e.Arrive? {
      assert t.callers[..|s.callers|] == s.callers;
      if SomeWillCheck(t) {
        var j :| 0 <= j < |t.callers| && WillCheck(t.callers[j]);
        assert j < |s.callers| && t.callers[j] == s.callers[j];
      }
    } else {
      var c := t.callers[e.i];
      ReadyUpdate(s.callers, e.i, c);
      if !Holds(c) { OtherMoves(s, e.i, c, t); }
    }
    forall k | 0 <= k < |t.landed| ensures Waits(t, t.landed[k]) {
      if k < |s.landed| { assert t.landed[k] == s.landed[k] && Waits(s, s.landed[k]); }
    }
  }

  lemma {:induction false} WaitUpTo(trace: seq<Latch>, k: nat)
    requires Run(trace) && k < |trace|
    ensures AllWait(trace[k])
  {
    if k > 0 {
      WaitUpTo(trace, k - 1);
      RunKeeps(trace, k - 1);
      assert MovesAt(trace, k);
      var e :| Step(trace[k - 1], e, trace[k]);
      if e.Arrive? || (e.Act? && !Holds(trace[k - 1].callers[e.i])) { OtherWaits(trace[k - 1], e, trace[k]); }
      else { HolderWaits(trace[k - 1], e.i, trace[k]); }
    }
  }

  /** With the latch released and no pass having failed, a store has been served by no later pass exactly when it landed late
      and no caller has won since. */
  lemma UnservedStores(trace: seq<Latch>, k: nat, n: nat)
    requires Run(trace) && k < |trace| && n < |trace[k].landed| && trace[k].failures == 0 && !trace[k].running
    ensures var s, l := trace[k], trace[k].landed[n]; s.passes == l.passes <==> l.late && s.wins == l.wins
  {
    RunKeeps(trace, k);
    WaitUpTo(trace, k);
    assert Waits(trace[k], trace[k].landed[n]);
    if !trace[k].landed[n].late { TimelyStoresAreServed(trace, k, n); }
    ReadyNone(trace[k].callers);
  }

  lemma Extend(trace: seq<Latch>, e: Event, t: Latch)
    requires Run(trace) && Step(trace[|trace| - 1], e, t)
    ensures Run(trace + [t])
  {
    forall k: nat ensures MovesAt(trace + [t], k) {
      if 0 < k < |trace| {
        assert MovesAt(trace, k);
      } else if k == |trace| {
        assert Moves(trace[k - 1], t);
      }
    }
  }

  /** A first caller in its pass while a second one has just lost the race. */
  lemma LosingWhileRunning() returns (trace: seq<Latch>)
    ensures Run(trace)
    ensures trace[|trace| - 1] == Latch(true, false, [Running, Losing], 1, 1, 0, 0, [], false)
  {
    trace := [Latch(false, false, [], 0, 0, 0, 0, [], false)];
    assert forall k: nat :: MovesAt(trace, k);
    var s := Latch(false, false, [Arriving], 0, 0, 0, 0, [], false);
    Extend(trace, Arrive, s);
    trace := trace + [s];
    s := s.(callers := [Arriving, Arriving]);
    Extend(trace, Arrive, s);
    trace := trace + [s];
    s := s.(running := true, wins := 1, callers := [AboutToRun, Arriving]);
    Extend(trace, Act(0), s);
    trace := trace + [s];
    s := s.(passes := 1, callers := [Running, Arriving]);
    Extend(trace, Act(0), s);
    trace := trace + [s];
    s := s.(callers := [Running, Losing]);
    Extend(trace, Act(1), s);
    trace := trace + [s];
  }

  /** The documented narrow window is real: the second caller's store lands between the last look and the
      release, everybody returns, and no pass follows it. */
  lemma LateStoreIsSwallowed() returns (trace: seq<Latch>)
    ensures Run(trace)
    ensures trace[|trace| - 1] == Latch(false, true, [Returned, Returned], 1, 1, 0, 0, [Landing(1, 1, true)], true)
  {
    trace := LosingWhileRunning();
    var s := trace[|trace| - 1];
    s := s.(callers := [Checking, Losing]);
    Extend(trace, Act(0), s);
    trace := trace + [s];
    s := s.(callers := [Releasing, Losing]);
    Extend(trace, Act(0), s);
    trace := trace + [s];
    s := s.(rerun := true, callers := [Releasing, Returned], landed := [Landing(1, 1, true)], unseen := true);
    Extend(trace, Act(1), s);
    trace := trace + [s];
    s := s.(running := false, callers := [Returned, Returned]);
    Extend(trace, Act(0), s);
    trace := trace + [s];
  }
}
