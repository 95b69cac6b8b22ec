/** backfillGate: per-chain throttling with an immediate leading edge and one
    merged trailing run, under any interleaving of triggers, timers and completions. */
module BackfillGate {
  import opened Options

  /** A submitted function is named by its submission number. */
  type Fn = nat

  /** One gatedChain. `timer` is the time at which the armed callback is due. */
  datatype Chain = Chain(lastRun: Option<int>, pendingFn: Option<Fn>, timer: Option<int>, inFlight: bool)

  const NEW_CHAIN := Chain(None, None, None, false)

  // ---------------------------------------------------------------- the three critical sections

  predicate WithinWindow(c: Chain, min: int, now: int) {
    c.lastRun.Some? && now - c.lastRun.value < min
  }

  predicate MustMerge(c: Chain, min: int, now: int) {
    c.inFlight || c.timer.Some? || WithinWindow(c, min, now)
  }

  /** The chain after a trigger has been through Run's critical section. */
  function Triggered(c: Chain, min: int, fn: Fn, now: int): Chain {
    if !MustMerge(c, min, now) then c.(lastRun := Some(now), inFlight := true)
    else if c.timer.None? && !c.inFlight && WithinWindow(c, min, now) then
      c.(pendingFn := Some(fn), timer := Some(now + (min - (now - c.lastRun.value))))
    else c.(pendingFn := Some(fn))
  }

  function Max(a: int, b: int): int { if a < b then b else a }

  /** The chain after an execution has been through complete's critical section. */
  function Completed(c: Chain, min: int, now: int): Chain {
    var c' := c.(inFlight := false);
    if c.pendingFn.Some? && c.timer.None? then
      c'.(timer := Some(now + if c.lastRun.None? then 0 else Max(min - (now - c.lastRun.value), 0)))
    else c'
  }

  /** The chain after a timer callback has been through firePending's critical section. */
  function Fired(c: Chain, now: int): Chain {
    if c.inFlight then c.(timer := None)
    else if c.pendingFn.None? then c.(timer := None)
    else c.(pendingFn := None, timer := None, lastRun := Some(now), inFlight := true)
  }

  /** The gate object: its mutex-guarded state, one method per critical section. */
  class Gate {
    const min: int
    var chains: map<string, Chain>

    constructor (min: int)
      ensures this.min == min && chains == map[]
    {
      this.min := min;
      chains := map[];
    }

    /** Run up to the unlock: says whether fn is to be executed now, and when a timer was armed for. */
    method Enter(name: string, fn: Fn, now: int) returns (runNow: bool, armed: Option<int>)
      modifies this`chains
      ensures var c := if name in old(chains) then old(chains)[name] else NEW_CHAIN;
              && chains == old(chains)[name := Triggered(c, min, fn, now)]
              && runNow == !MustMerge(c, min, now)
              && armed == if c.timer.None? then chains[name].timer else None
    {
      if name !in chains {
        chains := chains[name := NEW_CHAIN];
      }
      var c := chains[name];
      var withinWindow := c.lastRun.Some? && now - c.lastRun.value < min;
      armed := None;
      if c.inFlight || c.timer.Some? || withinWindow {
        c := c.(pendingFn := Some(fn));
        if c.timer.None? && !c.inFlight && withinWindow {
          armed := Some(now + (min - (now - c.lastRun.value)));
          c := c.(timer := armed);
        }
        chains := chains[name := c];
        return false, armed;
      }
      chains := chains[name := c.(lastRun := Some(now), inFlight := true)];
      runNow := true;
    }

    method Complete(name: string, now: int) returns (armed: Option<int>)
      modifies this`chains
      ensures name !in old(chains) ==> chains == old(chains) && armed == None
      ensures name in old(chains) ==>
                && chains == old(chains)[name := Completed(old(chains)[name], min, now)]
                && armed == if old(chains)[name].timer.None? then chains[name].timer else None
    {
      armed := None;
      if name !in chains { return; }
      var c := chains[name].(inFlight := false);
      if c.pendingFn.Some? && c.timer.None? {
        // a zero lastRun lies so far back that the remaining window is negative
        var delay := if c.lastRun.None? then 0 else min - (now - c.lastRun.value);
        if delay < 0 { delay := 0; }
        armed := Some(now + delay);
        c := c.(timer := armed);
      }
      chains := chains[name := c];
    }

    method FirePending(name: string, now: int) returns (run: Option<Fn>)
      modifies this`chains
      ensures name !in old(chains) ==> chains == old(chains) && run == None
      ensures name in old(chains) ==>
                && chains == old(chains)[name := Fired(old(chains)[name], now)]
                && run == if old(chains)[name].inFlight then None else old(chains)[name].pendingFn
    {
      if name !in chains { return None; }
      var c := chains[name];
      if c.inFlight {
        chains := chains[name := c.(timer := None)];
        return None;
      }
      run := c.pendingFn;
      c := c.(pendingFn := None, timer := None);
      if run.Some? {
        c := c.(lastRun := Some(now), inFlight := true);
      }
      chains := chains[name := c];
    }
  }

  // ---------------------------------------------------------------- the world around one chain

  datatype Start = Start(fn: Fn, at: int)

  /** Everything that can act on the chain: executions not yet past their completion
      section, armed callbacks not yet past their firing section, and the clock.
      `starts` and `submitted` record the history. */
  datatype World = World(chain: Chain, now: int, running: seq<Fn>, timers: seq<int>, submitted: nat, starts: seq<Start>)

  datatype Event = Tick(to: int) | Trigger | Finish(k: nat) | Fire(k: nat)

  function Without<T>(s: seq<T>, k: nat): seq<T>
    requires k < |s|
  {
    s[..k] + s[k + 1..]
  }

  ghost predicate Init(w: World) {
    w.chain == NEW_CHAIN && w.running == [] && w.timers == [] && w.submitted == 0 && w.starts == []
  }

  /** The callbacks that exist after a section that may have armed one. */
  function Armed(before: Chain, after: Chain, timers: seq<int>): seq<int> {
    if before.timer.None? && after.timer.Some? then timers + [after.timer.value] else timers
  }

  ghost predicate Step(min: int, w: World, e: Event, w': World) {
    match e
    case Tick(to) => w.now <= to && w' == w.(now := to)
    case Trigger =>
      var fn := w.submitted;
      var c := Triggered(w.chain, min, fn, w.now);
      var u := w.(chain := c, submitted := fn + 1, timers := Armed(w.chain, c, w.timers));
      w' == if MustMerge(w.chain, min, w.now) then u
            else u.(running := w.running + [fn], starts := w.starts + [Start(fn, w.now)])
    case Finish(k) =>
      k < |w.running| &&
      var c := Completed(w.chain, min, w.now);
      w' == w.(chain := c, running := Without(w.running, k), timers := Armed(w.chain, c, w.timers))
    case Fire(k) =>
      k < |w.timers| && w.timers[k] <= w.now &&
      var u := w.(chain := Fired(w.chain, w.now), timers := Without(w.timers, k));
      w' == if w.chain.inFlight || w.chain.pendingFn.None? then u
            else u.(running := w.running + [w.chain.pendingFn.value], starts := w.starts + [Start(w.chain.pendingFn.value, w.now)])
  }

  ghost predicate Moves(min: int, w: World, w': World) {
    exists e :: Step(min, w, e, w')
  }

  ghost predicate MovesAt(min: int, trace: seq<World>, k: nat) {
    0 < k < |trace| ==> Moves(min, trace[k - 1], trace[k])
  }

  ghost predicate Run(min: int, trace: seq<World>) {
    |trace| > 0 && Init(trace[0]) && forall k :: MovesAt(min, trace, k)
  }

  // ---------------------------------------------------------------- invariant

  ghost predicate Spaced(min: int, starts: seq<Start>) {
    forall i :: 0 < i < |starts| ==> starts[i].at - starts[i - 1].at >= min && starts[i].fn > starts[i - 1].fn
  }

  function LastStart(w: World): Option<Start> {
    if w.starts == [] then None else Some(w.starts[|w.starts| - 1])
  }

  /** The executions and callbacks that exist are exactly those the chain's fields speak of. */
  ghost predicate Accounted(w: World) {
    var c, last := w.chain, LastStart(w);
    && (c.inFlight ==> last.Some?)
    && w.running == (if c.inFlight && last.Some? then [last.value.fn] else [])
    && w.timers == (if c.timer.Some? then [c.timer.value] else [])
    && c.lastRun == (if last.Some? then Some(last.value.at) else None)
  }

  /** A pending trigger is the newest one, and something is going to run it; otherwise the newest has started. */
  ghost predicate Scheduled(w: World) {
    var c, last := w.chain, LastStart(w);
    && (c.timer.Some? ==> !c.inFlight && c.pendingFn.Some?)
    && (c.pendingFn.Some? ==> (c.timer.Some? || c.inFlight) && c.pendingFn.value + 1 == w.submitted)
    && (w.submitted > 0 <==> last.Some?)
    && (last.Some? ==>
          if c.pendingFn.Some? then last.value.fn < c.pendingFn.value else last.value.fn + 1 == w.submitted)
  }

  ghost predicate Timed(min: int, w: World) {
    var c, last := w.chain, LastStart(w);
    && (last.Some? ==> last.value.at <= w.now)
    && (last.Some? && c.timer.Some? ==> last.value.at + min <= c.timer.value <= Max(last.value.at + min, w.now))
    && Spaced(min, w.starts)
  }

  ghost predicate Inv(min: int, w: World) {
    Accounted(w) && Scheduled(w) && Timed(min, w)
  }

  lemma SpacedSnoc(min: int, starts: seq<Start>, s: Start)
    requires Spaced(min, starts)
    requires starts != [] ==> s.at - starts[|starts| - 1].at >= min && s.fn > starts[|starts| - 1].fn
    ensures Spaced(min, starts + [s])
  {
  }

  lemma TriggerKeeps(min: int, w: World, w': World)
    requires Inv(min, w) && Step(min, w, Trigger, w')
    ensures Inv(min, w')
  {
    if !MustMerge(w.chain, min, w.now) {
      SpacedSnoc(min, w.starts, Start(w.submitted, w.now));
      assert LastStart(w') == Some(Start(w.submitted, w.now));
    } else {
      assert w'.starts == w.starts && w'.running == w.running;
      assert LastStart(w') == LastStart(w);
    }
  }

  lemma FinishKeeps(min: int, w: World, k: nat, w': World)
    requires Inv(min, w) && Step(min, w, Finish(k), w')
    ensures Inv(min, w')
  {
    assert Without(w.running, k) == [];
    assert LastStart(w') == LastStart(w);
  }

  lemma FireKeeps(min: int, w: World, k: nat, w': World)
    requires Inv(min, w) && Step(min, w, Fire(k), w')
    ensures Inv(min, w')
  {
    assert Without(w.timers, k) == [];
    assert w.chain.timer.Some? && w.chain.pendingFn.Some?;
    var s := Start(w.chain.pendingFn.value, w.now);
    SpacedSnoc(min, w.starts, s);
    assert LastStart(w') == Some(s);
  }

  lemma StepKeeps(min: int, w: World, e: Event, w': World)
    requires Inv(min, w) && Step(min, w, e, w')
    ensures Inv(min, w')
  {
    match e
    case Tick(_) =>
    case Trigger => TriggerKeeps(min, w, w');
    case Finish(k) => FinishKeeps(min, w, k, w');
    case Fire(k) => FireKeeps(min, w, k, w');
  }

  lemma {:induction false} RunKeeps(min: int, trace: seq<World>, k: nat)
    requires Run(min, trace) && k < |trace|
    ensures Inv(min, trace[k])
  {
    if k > 0 {
      RunKeeps(min, trace, k - 1);
      assert MovesAt(min, trace, k);
      var e :| Step(min, trace[k - 1], e, trace[k]);
      StepKeeps(min, trace[k - 1], e, trace[k]);
    }
  }

  // ---------------------------------------------------------------- what holds in every reachable world

  /** At most one execution per chain, and the gate knows whether there is one. */
  lemma AtMostOneExecution(min: int, trace: seq<World>, k: nat)
    requires Run(min, trace) && k < |trace|
    ensures |trace[k].running| <= 1
    ensures trace[k].chain.inFlight <==> |trace[k].running| == 1
  {
    RunKeeps(min, trace, k);
  }

  /** A pending trigger has either one live callback or a running execution that will arm one, never both;
      without a pending trigger there is no callback. */
  lemma PendingIsScheduled(min: int, trace: seq<World>, k: nat)
    requires Run(min, trace) && k < |trace|
    ensures var w := trace[k];
            && |w.timers| + |w.running| <= 1
            && (w.chain.pendingFn.Some? ==> |w.timers| + |w.running| == 1)
            && (w.chain.pendingFn.None? ==> w.timers == [])
  {
    RunKeeps(min, trace, k);
  }

  /** When the execution of a chain with a pending trigger finishes, exactly one callback is armed for it. */
  lemma CompletionReschedules(min: int, trace: seq<World>, k: nat)
    requires Run(min, trace) && 0 < k < |trace| && Step(min, trace[k - 1], Finish(0), trace[k])
    ensures if trace[k - 1].chain.pendingFn.Some?
            then |trace[k].timers| == 1 && trace[k].chain.pendingFn == trace[k - 1].chain.pendingFn
            else trace[k].timers == [] && trace[k].running == []
  {
    RunKeeps(min, trace, k - 1);
    RunKeeps(min, trace, k);
  }

  /** When a callback enters firePending its two defensive exits are not taken, and it starts the newest trigger. */
  lemma FiringRunsTheNewest(min: int, trace: seq<World>, k: nat, j: nat)
    requires Run(min, trace) && 0 < k < |trace| && Step(min, trace[k - 1], Fire(j), trace[k])
    ensures !trace[k - 1].chain.inFlight && trace[k - 1].chain.pendingFn.Some?
    ensures trace[k - 1].submitted > 0
    ensures trace[k].starts == trace[k - 1].starts + [Start(trace[k - 1].submitted - 1, trace[k - 1].now)]
    ensures trace[k].chain.pendingFn.None?
  {
    RunKeeps(min, trace, k - 1);
  }

  /** A trigger runs at once exactly when nothing runs, no callback is armed and the last start is at least the window ago;
      otherwise it becomes the pending one, and if it arms a callback, that is due when the window ends. */
  lemma LeadingEdge(min: int, trace: seq<World>, k: nat)
    requires Run(min, trace) && 0 < k < |trace| && Step(min, trace[k - 1], Trigger, trace[k])
    ensures var w, v := trace[k - 1], trace[k];
            && v.submitted == w.submitted + 1
            && if w.running == [] && w.timers == [] && (w.starts == [] || w.now - w.starts[|w.starts| - 1].at >= min)
               then v.starts == w.starts + [Start(w.submitted, w.now)] && v.running == [w.submitted] && v.timers == []
               else
                 && v.starts == w.starts && v.running == w.running && v.chain.pendingFn == Some(w.submitted)
                 && v.timers == if w.running == [] && w.timers == [] && w.starts != [] then [w.starts[|w.starts| - 1].at + min] else w.timers
  {
    RunKeeps(min, trace, k - 1);
  }

  /** The callback that a completion arms is due at the end of the window, or at once if that has passed. */
  lemma TrailingRunIsDue(min: int, trace: seq<World>, k: nat)
    requires Run(min, trace) && 0 < k < |trace| && Step(min, trace[k - 1], Finish(0), trace[k]) && trace[k - 1].chain.pendingFn.Some?
    ensures var w := trace[k - 1]; w.starts != [] && trace[k].timers == [Max(w.starts[|w.starts| - 1].at + min, w.now)]
    ensures trace[k].running == [] && trace[k].starts == trace[k - 1].starts
  {
    RunKeeps(min, trace, k - 1);
  }

  ghost predicate Started(w: World, fn: Fn) {
    exists i :: 0 <= i < |w.starts| && w.starts[i].fn == fn
  }

  /** No trigger is lost except to a later one that has started or is still pending. */
  lemma NoTriggerLost(min: int, trace: seq<World>, k: nat, fn: Fn)
    requires Run(min, trace) && k < |trace| && fn < trace[k].submitted
    ensures var w := trace[k];
            Started(w, fn) || exists later: nat :: fn <= later < w.submitted && (Started(w, later) || w.chain.pendingFn == Some(later))
    ensures var w := trace[k];
            w.running == [] && w.timers == [] ==> Started(w, w.submitted - 1)
  {
    RunKeeps(min, trace, k);
    var w := trace[k];
    var newest: nat := w.submitted - 1;
    if w.chain.pendingFn.None? {
      assert w.starts[|w.starts| - 1].fn == newest;
      assert Started(w, newest);
    }
  }

  /** Execution starts are at least the window apart, even when a function outlives it, and run newer triggers each time. */
  lemma StartsAreSpaced(min: int, trace: seq<World>, k: nat, i: nat, j: nat)
    requires Run(min, trace) && k < |trace| && i < j < |trace[k].starts|
    ensures trace[k].starts[i].fn < trace[k].starts[j].fn
    ensures min >= 0 ==> trace[k].starts[j].at - trace[k].starts[i].at >= min
  {
    RunKeeps(min, trace, k);
    SpacedApart(min, trace[k].starts, i, j);
  }

  lemma {:induction false} SpacedApart(min: int, starts: seq<Start>, i: nat, j: nat)
    requires Spaced(min, starts) && i < j < |starts|
    ensures starts[i].fn < starts[j].fn
    ensures min >= 0 ==> starts[j].at - starts[i].at >= min
    decreases j
  {
    if i < j - 1 { SpacedApart(min, starts, i, j - 1); }
  }

  /** The trailing run is due no later than the end of the window, or than the moment it was armed if that is later. */
  lemma TrailingRunIsPrompt(min: int, trace: seq<World>, k: nat)
    requires Run(min, trace) && k < |trace| && trace[k].timers != []
    ensures trace[k].starts != []
    ensures var w := trace[k]; var last := w.starts[|w.starts| - 1];
            last.at + min <= w.timers[0] <= Max(last.at + min, w.now)
  {
    RunKeeps(min, trace, k);
  }
}
