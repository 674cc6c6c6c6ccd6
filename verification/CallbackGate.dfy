/**
 Callback accounting of isolated recipe scopes (pkg/recipetest/execution_scope.go). Each scope has a
 gate; gates and running callbacks are counted in one wait group, and the run ends when it drains.
 */
module CallbackGate {

  // ---------------------------------------------------------------- all gates and callbacks together

  /**
   Gate 0 belongs to runIsolatedScope; every other gate belongs to the callback that called DoScope.
   `gates` are all gates made so far, `open` those not yet closed, `running` the callbacks between
   Begin and Done.
   */
  datatype System = System(count: int, gates: set<nat>, open: set<nat>, owner: map<nat, nat>, running: set<nat>,
                           started: set<nat>, waited: bool)

  const Start := System(1, {0}, {0}, map[], {}, {}, false)

  datatype Step =
    | Begin(gate: nat, callback: nat)     // a gate admits a callback, or refuses it
    | DoScope(callback: nat, gate: nat)   // a running callback opens a nested scope
    | CloseGate(gate: nat)                // its owner returns from the scope
    | Finish(callback: nat)               // a callback returns, all its scopes having returned
    | Wait                                // the root waits for the count to drain

  /** The order of calls in DoScope and runIsolatedScope: a scope closes before its callback finishes. */
  predicate Enabled(sys: System, step: Step) {
    match step
    case Begin(g, c) => g in sys.gates && c !in sys.started
    case DoScope(c, g) => c in sys.running && g !in sys.gates
    case CloseGate(g) => g in sys.open && (g == 0 || (g in sys.owner && sys.owner[g] in sys.running))
    case Finish(c) => c in sys.running && forall g :: g in sys.open && g in sys.owner ==> sys.owner[g] != c
    case Wait => 0 !in sys.open && sys.count == 0
  }

  function Next(sys: System, step: Step): System {
    match step
    case Begin(g, c) =>
      if g in sys.open then sys.(count := sys.count + 1, running := sys.running + {c}, started := sys.started + {c}) else sys
    case DoScope(c, g) =>
      sys.(count := sys.count + 1, gates := sys.gates + {g}, open := sys.open + {g}, owner := sys.owner[g := c])
    case CloseGate(g) => sys.(count := sys.count - 1, open := sys.open - {g})
    case Finish(c) => sys.(count := sys.count - 1, running := sys.running - {c})
    case Wait => sys.(waited := true)
  }

  ghost predicate Inv(sys: System) {
    && sys.count == |sys.open| + |sys.running|
    && sys.open <= sys.gates && sys.running <= sys.started && 0 in sys.gates && 0 !in sys.owner
    && (forall g :: g in sys.open && g != 0 ==> g in sys.owner && sys.owner[g] in sys.running)
    && (sys.waited ==> sys.open == {} && sys.running == {})
  }

  /** Every step keeps the count equal to the open gates plus the running callbacks. */
  lemma StepKeepsInvariant(sys: System, step: Step)
    requires Inv(sys) && Enabled(sys, step)
    ensures Inv(Next(sys, step))
  {
    match step
    case Begin(_, _) =>
    case DoScope(_, _) =>
    case CloseGate(g) => CloseKeepsInvariant(sys, g);
    case Finish(c) => FinishKeepsInvariant(sys, c);
    case Wait => Drained(sys);
  }

  lemma CloseKeepsInvariant(sys: System, g: nat)
    requires Inv(sys) && Enabled(sys, CloseGate(g))
    ensures Inv(Next(sys, CloseGate(g)))
  {
    assert |sys.open - {g}| == |sys.open| - 1;
  }

  lemma FinishKeepsInvariant(sys: System, c: nat)
    requires Inv(sys) && Enabled(sys, Finish(c))
    ensures Inv(Next(sys, Finish(c)))
  {
    assert |sys.running - {c}| == |sys.running| - 1;
  }

  lemma Drained(sys: System)
    requires Inv(sys) && sys.count == 0
    ensures sys.open == {} && sys.running == {}
  {
  }

  /** A callback runs from its admission, exactly by an open gate, until it finishes; a gate is open from its scope's start until its close. */
  lemma RunningExactly(sys: System, step: Step, c: nat, g: nat)
    requires Inv(sys) && Enabled(sys, step)
    ensures c in Next(sys, step).running <==>
              (c in sys.running && step != Finish(c)) || (step.Begin? && step.callback == c && step.gate in sys.open)
    ensures g in Next(sys, step).open <==> (g in sys.open && step != CloseGate(g)) || (step.DoScope? && step.gate == g)
  {
  }

  /** Counting down never panics, and counting up never revives a drained group. */
  lemma CountIsSafe(sys: System, step: Step)
    requires Inv(sys) && Enabled(sys, step)
    ensures Next(sys, step).count >= 0
    ensures Next(sys, step).count != sys.count ==> sys.count > 0
  {
    StepKeepsInvariant(sys, step);
    if step.Begin? && step.gate in sys.open {
      assert |sys.open| > 0;
    }
    if step.DoScope? {
      assert |sys.running| > 0;
    }
    if step.CloseGate? {
      assert |sys.open| > 0;
    }
    if step.Finish? {
      assert |sys.running| > 0;
    }
  }

  // ---------------------------------------------------------------- the wait group and the gates

  class WaitGroup {
    var count: int

    constructor ()
      ensures count == 0
    {
      count := 0;
    }

    method Add()
      modifies this
      ensures count == old(count) + 1
    {
      count := count + 1;
    }

    /** Go panics when the count would become negative. */
    method Done()
      requires count > 0
      modifies this
      ensures count == old(count) - 1
    {
      count := count - 1;
    }
  }

  /** The gate `id`; each method is one step of the system it is part of. */
  class Gate {
    const callbacks: WaitGroup
    ghost const id: nat
    var closed: bool

    /** The fields of this gate and its wait group are those of the system. */
    ghost predicate Shows(sys: System)
      reads this, callbacks
    {
      callbacks.count == sys.count && id in sys.gates && (closed <==> id !in sys.open)
    }

    /** newCallbackGate, for a scope that `callback` opens. */
    constructor (callbacks: WaitGroup, ghost sys: System, ghost callback: nat, ghost id: nat)
      requires callbacks.count == sys.count && Enabled(sys, Step.DoScope(callback, id))
      modifies callbacks
      ensures this.callbacks == callbacks && this.id == id && Shows(Next(sys, Step.DoScope(callback, id)))
    {
      this.callbacks := callbacks;
      this.id := id;
      closed := false;
      new;
      callbacks.Add();
    }

    /** newCallbackGate of runIsolatedScope, on a new wait group. */
    constructor Root(callbacks: WaitGroup)
      requires callbacks.count == 0
      modifies callbacks
      ensures this.callbacks == callbacks && id == 0 && Shows(Start)
    {
      this.callbacks := callbacks;
      this.id := 0;
      closed := false;
      new;
      callbacks.Add();
    }

    /** A callback may start only while the gate is open, and is counted before the gate can close. */
    method Begin(ghost sys: System, ghost callback: nat) returns (ok: bool)
      requires Shows(sys) && Inv(sys) && Enabled(sys, Step.Begin(id, callback))
      modifies callbacks
      ensures Shows(Next(sys, Step.Begin(id, callback)))
      ensures ok <==> callback in Next(sys, Step.Begin(id, callback)).running
    {
      if closed {
        return false;
      }
      callbacks.Add();
      ok := true;
    }

    /** The deferred Done of a callback that this gate admitted. */
    method Finish(ghost sys: System, ghost callback: nat)
      requires Shows(sys) && Inv(sys) && Enabled(sys, Step.Finish(callback))
      modifies callbacks
      ensures Shows(Next(sys, Step.Finish(callback)))
    {
      CountIsSafe(sys, Step.Finish(callback));
      callbacks.Done();
    }

    method Close(ghost sys: System)
      requires Shows(sys) && Inv(sys) && Enabled(sys, CloseGate(id))
      modifies this, callbacks
      ensures Shows(Next(sys, CloseGate(id)))
    {
      CountIsSafe(sys, CloseGate(id));
      closed := true;
      callbacks.Done();
    }
  }

  /** A step leaves the other gates as they are, so they go on showing the system. */
  lemma OtherGatesUntouched(sys: System, step: Step, g: nat)
    requires Inv(sys) && Enabled(sys, step) && g in sys.gates && step != CloseGate(g)
    ensures g in Next(sys, step).gates && (g in Next(sys, step).open <==> g in sys.open)
  {
  }

  // ---------------------------------------------------------------- runs

  ghost predicate Runs(sys: System, steps: seq<Step>)
    decreases |steps|
  {
    steps == [] || (Enabled(sys, steps[0]) && Runs(Next(sys, steps[0]), steps[1..]))
  }

  ghost function After(sys: System, steps: seq<Step>): System
    decreases |steps|
  {
    if steps == [] then sys else After(Next(sys, steps[0]), steps[1..])
  }

  lemma {:induction false} RunKeepsInvariant(sys: System, steps: seq<Step>)
    requires Inv(sys) && Runs(sys, steps)
    ensures Inv(After(sys, steps)) && After(sys, steps).count >= 0
    ensures sys.waited ==> After(sys, steps).waited
    decreases |steps|
  {
    if steps != [] {
      StepKeepsInvariant(sys, steps[0]);
      RunKeepsInvariant(Next(sys, steps[0]), steps[1..]);
    }
  }

  /** Once nothing is open and nothing runs, nothing can ever start, in nested scopes either. */
  lemma {:induction false} QuietForever(sys: System, steps: seq<Step>)
    requires sys.open == {} && sys.running == {} && Runs(sys, steps)
    ensures After(sys, steps).open == {} && After(sys, steps).running == {}
    ensures After(sys, steps).started == sys.started
    decreases |steps|
  {
    if steps != [] {
      QuietForever(Next(sys, steps[0]), steps[1..]);
    }
  }

  /**
   Along every run from the start the count is the open gates plus the running callbacks. When Wait has
   returned no callback is running, and however the run goes on no further callback ever starts.
   */
  lemma WaitIsFinal(steps: seq<Step>, later: seq<Step>)
    requires Runs(Start, steps) && Runs(After(Start, steps), later)
    ensures var sys := After(Start, steps);
            && sys.count == |sys.open| + |sys.running|
            && (sys.waited ==>
                  && sys.running == {} && sys.count == 0
                  && After(sys, later).running == {}
                  && After(sys, later).started == sys.started)
  {
    RunKeepsInvariant(Start, steps);
    var sys := After(Start, steps);
    if sys.waited {
      QuietForever(sys, later);
    }
  }
}
