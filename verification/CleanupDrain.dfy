/**
 * The cleanup drain of one job run (scripts/ci-local.ts, runCleanups).
 *
 * Any number of callers share one run: the job's own `finally`, the signal handler, and
 * later calls.  JavaScript runs one piece of code at a time, so what happens between two
 * awaits is one step here, and a behaviour is any interleaving of those steps.
 * Cleanups are named by the order of their registration: 0, 1, 2, ...
 */
module CleanupDrain {
  import opened Common

  datatype Caller =
    | Looking             // about to test `run.draining`
    | Awaiting(drain: nat) // awaiting the promise of that cleanup's drain, its own or another caller's
    | Returned

  /** `cleanups` and `draining` are the two fields of the run; the rest is what the world did. */
  datatype State = State(
    cleanups: seq<nat>,
    draining: Option<nat>,
    registered: nat,
    callers: seq<Caller>,
    started: seq<nat>,     // every start of a cleanup body, in order
    done: set<nat>,        // bodies that finished or threw
    resolved: set<nat>     // drains whose `finally` callback ran, so their promise is settled
  )

  const Initial := State([], None, 0, [], [], {}, {})

  datatype Step =
    | Register
    | Call
    | Look(caller: nat)
    | Finish(cleanup: nat)   // the body returns or throws; the throw is caught and logged
    | Clear(drain: nat)      // the `finally` callback: run.draining = undefined
    | Wake(caller: nat)

  predicate Enabled(s: State, step: Step) {
    match step
    case Register => true
    case Call => true
    case Look(c) => c < |s.callers| && s.callers[c].Looking?
    case Finish(x) => x in s.started && x !in s.done
    case Clear(x) => x in s.done && x !in s.resolved
    case Wake(c) => c < |s.callers| && s.callers[c].Awaiting? && s.callers[c].drain in s.resolved
  }

  /** What one caller does from the loop head to its next await or return. */
  function LookNext(s: State, c: nat): State
    requires c < |s.callers|
  {
    if s.draining.Some? then s.(callers := s.callers[c := Awaiting(s.draining.value)])
    else if s.cleanups == [] then s.(callers := s.callers[c := Returned])
    else
      var x := s.cleanups[|s.cleanups| - 1];
      s.(cleanups := s.cleanups[..|s.cleanups| - 1], started := s.started + [x],
         draining := Some(x), callers := s.callers[c := Awaiting(x)])
  }

  function Next(s: State, step: Step): State
    requires Enabled(s, step)
  {
    match step
    case Register => s.(cleanups := s.cleanups + [s.registered], registered := s.registered + 1)
    case Call => s.(callers := s.callers + [Looking])
    case Look(c) => LookNext(s, c)
    case Finish(x) => s.(done := s.done + {x})
    case Clear(x) => s.(draining := None, resolved := s.resolved + {x})
    case Wake(c) => s.(callers := s.callers[c := Looking])
  }

  /** Takes the steps in order from `s`; every one must be enabled when its turn comes. */
  ghost predicate Runs(s: State, steps: seq<Step>)
    decreases |steps|
  {
    steps == [] || (Enabled(s, steps[0]) && Runs(Next(s, steps[0]), steps[1..]))
  }

  ghost function After(s: State, steps: seq<Step>): State
    requires Runs(s, steps)
    decreases |steps|
  {
    if steps == [] then s else After(Next(s, steps[0]), steps[1..])
  }

  /** The cleanups whose body is running now. */
  function InFlight(s: State): set<nat> {
    ToSet(s.started) - s.done
  }

  // ---------------------------------------------------------------- safety

  /** Registered cleanups are exactly the pending ones, oldest first, and the started ones. */
  ghost predicate Accounted(s: State) {
    && (forall i, j :: 0 <= i < j < |s.cleanups| ==> s.cleanups[i] < s.cleanups[j])
    && Distinct(s.started)
    && (forall x :: x in s.cleanups ==> x !in s.started)
    && (forall x: nat :: x < s.registered <==> x in s.cleanups || x in s.started)
  }

  /** `run.draining` is set exactly while the one unresolved drain is under way. */
  ghost predicate OneDrain(s: State) {
    && s.resolved <= s.done <= ToSet(s.started)
    && (s.draining.Some? ==> s.draining.value in s.started && s.draining.value !in s.resolved)
    && (forall x :: x in s.started && s.draining != Some(x) ==> x in s.resolved)
    && (forall c :: 0 <= c < |s.callers| && s.callers[c].Awaiting? ==> s.callers[c].drain in s.started)
  }

  ghost predicate Valid(s: State) {
    Accounted(s) && OneDrain(s)
  }

  lemma RegisterKeepsAccounted(s: State)
    requires Accounted(s)
    ensures Accounted(Next(s, Register))
  {
    var t := Next(s, Register);
    assert forall i :: 0 <= i < |s.cleanups| ==> s.cleanups[i] in s.cleanups;
    assert forall x :: x in t.cleanups <==> x in s.cleanups || x == s.registered;
  }

  lemma StartKeepsAccounted(s: State, c: nat)
    requires Accounted(s) && Enabled(s, Look(c)) && s.draining.None? && s.cleanups != []
    ensures Accounted(Next(s, Look(c)))
  {
    var t := Next(s, Look(c));
    var x := s.cleanups[|s.cleanups| - 1];
    assert s.cleanups == t.cleanups + [x];
    assert forall y :: y in s.cleanups <==> y in t.cleanups || y == x;
    assert forall y :: y in t.started <==> y in s.started || y == x;
    assert forall i :: 0 <= i < |s.started| ==> s.started[i] in s.started;
    assert x !in t.cleanups;
  }

  lemma StepKeepsValid(s: State, step: Step)
    requires Valid(s) && Enabled(s, step)
    ensures Valid(Next(s, step))
  {
    if step.Register? {
      RegisterKeepsAccounted(s);
    } else if step.Look? && s.draining.None? && s.cleanups != [] {
      StartKeepsAccounted(s, step.caller);
    }
  }

  lemma {:induction false} RunKeepsValid(s: State, steps: seq<Step>)
    requires Valid(s) && Runs(s, steps)
    ensures Valid(After(s, steps))
    decreases |steps|
  {
    if steps != [] {
      StepKeepsValid(s, steps[0]);
      RunKeepsValid(Next(s, steps[0]), steps[1..]);
    }
  }

  /** In every reachable state at most one cleanup body is in flight, and none ever started twice. */
  lemma OneAtATimeAndOnce(steps: seq<Step>)
    requires Runs(Initial, steps)
    ensures var s := After(Initial, steps);
            && (forall x, y :: x in InFlight(s) && y in InFlight(s) ==> x == y)
            && Distinct(s.started)
            && (forall x :: x in s.started ==> x < s.registered)
  {
    RunKeepsValid(Initial, steps);
  }

  /** Whatever starts is the newest registered cleanup that has not started. */
  lemma StartsTheNewest(steps: seq<Step>, step: Step)
    requires Runs(Initial, steps) && Enabled(After(Initial, steps), step)
    requires Next(After(Initial, steps), step).started != After(Initial, steps).started
    ensures var s := After(Initial, steps);
            exists x :: && Next(s, step).started == s.started + [x]
                        && x < s.registered && x !in s.started && InFlight(s) == {}
                        && forall y: nat :: x < y < s.registered ==> y in s.started
  {
    var s := After(Initial, steps);
    RunKeepsValid(Initial, steps);
    var x := s.cleanups[|s.cleanups| - 1];
    assert Next(s, step).started == s.started + [x];
    assert x in s.cleanups;
  }

  /** A caller returns only at an instant when everything registered so far has finished. */
  lemma ReturnsOnlyWhenDrained(steps: seq<Step>, step: Step, c: nat)
    requires Runs(Initial, steps) && Enabled(After(Initial, steps), step)
    requires c < |After(Initial, steps).callers| && !After(Initial, steps).callers[c].Returned?
    requires Next(After(Initial, steps), step).callers[c].Returned?
    ensures var s := After(Initial, steps);
            s.cleanups == [] && InFlight(s) == {} && forall x: nat :: x < s.registered ==> x in s.done
  {
    RunKeepsValid(Initial, steps);
  }

  // -------------------------------------------------------------- progress

  /** Steps the drain takes by itself, as opposed to new registrations and new calls. */
  predicate Internal(step: Step) {
    !step.Register? && !step.Call?
  }

  /** How many of its own steps (start, finish, clear) a registered cleanup still has ahead. */
  function Ahead(s: State, x: nat): nat {
    if x !in s.started then 3 else if x !in s.done then 2 else if x !in s.resolved then 1 else 0
  }

  function CleanupWork(s: State, n: nat): nat {
    if n == 0 then 0 else CleanupWork(s, n - 1) + Ahead(s, n - 1)
  }

  function CallerWork(s: State, c: Caller): nat {
    match c
    case Returned => 0
    case Looking => 2
    case Awaiting(x) => if x in s.resolved then 3 else 1
  }

  function CallersWork(s: State, n: nat): nat
    requires n <= |s.callers|
  {
    if n == 0 then 0 else CallersWork(s, n - 1) + CallerWork(s, s.callers[n - 1])
  }

  /** An upper bound on how many internal steps the run can still take. */
  function Remaining(s: State): nat {
    CleanupWork(s, s.registered) * (3 * |s.callers| + 1) + CallersWork(s, |s.callers|)
  }

  lemma CallersWorkBound(s: State, n: nat)
    requires n <= |s.callers|
    ensures CallersWork(s, n) <= 3 * n
  {}

  lemma CleanupWorkDrops(s: State, t: State, n: nat, x: nat)
    requires forall y: nat :: y < n ==> Ahead(t, y) <= Ahead(s, y)
    ensures CleanupWork(t, n) <= CleanupWork(s, n)
    ensures x < n && Ahead(t, x) < Ahead(s, x) ==> CleanupWork(t, n) < CleanupWork(s, n)
  {}

  lemma CallersWorkDrops(s: State, t: State, n: nat, c: nat)
    requires n <= |s.callers| == |t.callers| && c < |s.callers| && s.resolved == t.resolved
    requires forall i :: 0 <= i < |s.callers| && i != c ==> s.callers[i] == t.callers[i]
    requires CallerWork(t, t.callers[c]) < CallerWork(s, s.callers[c])
    ensures CallersWork(t, n) <= CallersWork(s, n)
    ensures c < n ==> CallersWork(t, n) < CallersWork(s, n)
  {}

  lemma LexicographicDrop(a: nat, b: nat, a': nat, b': nat, w: nat)
    requires a' < a && b' < w
    ensures a' * w + b' < a * w + b
  {
    assert a' * w + w == (a' + 1) * w <= a * w;
  }

  lemma InternalStepDrops(s: State, step: Step)
    requires Valid(s) && Enabled(s, step) && Internal(step)
    ensures Remaining(Next(s, step)) < Remaining(s)
  {
    var t := Next(s, step);
    StepKeepsValid(s, step);
    CallersWorkBound(t, |t.callers|);
    if step.Wake? || (step.Look? && (s.draining.Some? || s.cleanups == [])) {
      CallersWorkDrops(s, t, |s.callers|, step.caller);
      CleanupWorkSame(s, t, s.registered);
    } else {
      var x := if step.Finish? then step.cleanup else if step.Clear? then step.drain else s.cleanups[|s.cleanups| - 1];
      assert step.Look? ==> x in s.cleanups && x in t.started;
      assert x in s.started || x in s.cleanups;
      assert forall y :: y in t.started <==> y in s.started || (step.Look? && y == x);
      CleanupWorkDrops(s, t, s.registered, x);
      LexicographicDrop(CleanupWork(s, s.registered), CallersWork(s, |s.callers|),
                        CleanupWork(t, s.registered), CallersWork(t, |t.callers|), 3 * |s.callers| + 1);
    }
  }

  lemma CleanupWorkSame(s: State, t: State, n: nat)
    requires s.started == t.started && s.done == t.done && s.resolved == t.resolved
    ensures CleanupWork(s, n) == CleanupWork(t, n)
  {}

  /** As long as some call has not returned, the drain can take a step by itself. */
  lemma NeverStuck(s: State, c: nat) returns (step: Step)
    requires Valid(s) && c < |s.callers| && !s.callers[c].Returned?
    ensures Internal(step) && Enabled(s, step)
  {
    match s.callers[c]
    case Looking => step := Look(c);
    case Awaiting(x) =>
      step := if x in s.resolved then Wake(c) else if x in s.done then Clear(x) else Finish(x);
  }

  ghost predicate Quiet(s: State) {
    forall step :: Internal(step) ==> !Enabled(s, step)
  }

  ghost predicate AllReturned(s: State) {
    forall c :: 0 <= c < |s.callers| ==> s.callers[c].Returned?
  }

  /**
   * Completion: from any reachable state, a run without new registrations and calls has at most
   * Remaining(s) steps, and when it can go no further every call has returned.
   */
  lemma {:induction false} EveryCallReturns(s: State, steps: seq<Step>)
    requires Valid(s) && Runs(s, steps) && forall i :: 0 <= i < |steps| ==> Internal(steps[i])
    ensures |steps| + Remaining(After(s, steps)) <= Remaining(s)
    ensures Quiet(After(s, steps)) ==> AllReturned(After(s, steps))
    decreases |steps|
  {
    if steps == [] {
      if Quiet(s) {
        forall c | 0 <= c < |s.callers|
          ensures s.callers[c].Returned?
        {
          if !s.callers[c].Returned? {
            var step := NeverStuck(s, c);
          }
        }
      }
    } else {
      InternalStepDrops(s, steps[0]);
      StepKeepsValid(s, steps[0]);
      var rest := steps[1..];
      assert forall i :: 0 <= i < |rest| ==> rest[i] == steps[i + 1];
      EveryCallReturns(Next(s, steps[0]), rest);
    }
  }

  // ------------------------------------- the race the first version had

  /** The first version of the loop: pop and await, without looking at a drain in flight. */
  function NaiveLookNext(s: State, c: nat): State
    requires c < |s.callers|
  {
    LookNext(s.(draining := None), c)
  }

  /** With it, the `finally` caller returns while the handler's cleanup is still in flight. */
  lemma NaiveLoopReturnsEarly()
    ensures var s := After(Initial, [Register, Call, Call]);
            var t := NaiveLookNext(NaiveLookNext(s, 0), 1);
            t.callers[1] == Returned && InFlight(t) == {0}
  {
    var s1 := Next(Initial, Register);
    var s2 := Next(s1, Call);
    var s3 := Next(s2, Call);
    assert [Register, Call, Call][1..] == [Call, Call] && [Call, Call][1..] == [Call] && [Call][1..] == [];
    assert After(s2, [Call]) == After(s3, []);
    assert After(Initial, [Register, Call, Call]) == s3;
    assert s3.cleanups == [0];
    var t := NaiveLookNext(NaiveLookNext(s3, 0), 1);
    assert t.started == [0];
  }

  // ------------------------------------------------------------ the object

  /** The two mutable fields of the run, with the world around them as a ghost. */
  class JobRun {
    var cleanups: seq<nat>
    var draining: Option<nat>
    ghost var world: State

    ghost function View(): State
      reads this
    {
      world.(cleanups := cleanups, draining := draining)
    }

    constructor ()
      ensures View() == Initial
    {
      cleanups, draining, world := [], None, Initial;
    }

    method Register(cleanup: nat)
      requires cleanup == View().registered
      modifies this
      ensures View() == Next(old(View()), Step.Register)
    {
      cleanups := cleanups + [cleanup];
      world := world.(registered := world.registered + 1);
    }

    /** One pass of the endless loop, up to its await or its return. */
    method LoopPass(ghost caller: nat) returns (returned: bool, started: Option<nat>)
      requires Enabled(View(), Look(caller))
      modifies this
      ensures View() == Next(old(View()), Look(caller))
      ensures returned <==> View().callers[caller].Returned?
      ensures started.Some? <==> View().started != old(View()).started
      ensures started.Some? ==> View().started == old(View()).started + [started.value]
    {
      returned, started := false, None;
      if draining.Some? {
        world := world.(callers := world.callers[caller := Awaiting(draining.value)]);
        return;
      }
      if |cleanups| == 0 {
        world := world.(callers := world.callers[caller := Returned]);
        return true, None;
      }
      var cleanup := cleanups[|cleanups| - 1];
      cleanups := cleanups[..|cleanups| - 1];
      draining, started := Some(cleanup), Some(cleanup);
      world := world.(callers := world.callers[caller := Awaiting(cleanup)], started := world.started + [cleanup]);
    }

    method DrainSettled(ghost drain: nat)
      requires Enabled(View(), Clear(drain))
      modifies this
      ensures View() == Next(old(View()), Clear(drain))
    {
      draining := None;
      world := world.(resolved := world.resolved + {drain});
    }
  }
}
