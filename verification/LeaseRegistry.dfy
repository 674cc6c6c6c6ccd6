/**
 The lease registry (pkg/executionruntime/runtime.go). Every wrapper of a renewed lease shares one
 lease state; the runtime keeps the current wrapper per job. `Runtime` holds the table and its locked
 sections; the transition system interleaves them with any number of tasks.
 */
module LeaseRegistry {
  import opened Text
  import opened Requirements
  import opened Negotiation

  /** The identity of a shared lease state. */
  type StateId = nat

  /** The fields of a lease state, and the job it belongs to; `blocked` is the stored error, None for nil. */
  datatype LeaseState = LeaseState(job: string, demand: Option<Demand>, blocked: Option<string>)

  /** The registry: the lease state behind the current wrapper of each job, and all states ever made. */
  datatype Table = Table(leases: map<string, StateId>, states: map<StateId, LeaseState>, next: StateId)

  const EmptyTable := Table(map[], map[], 0)

  // ---------------------------------------------------------------- the locked sections

  /** accept: a fresh lease state for the job. */
  function Accepted(t: Table, job: string): Table {
    Table(t.leases[job := t.next], t.states[t.next := LeaseState(job, None, None)], t.next + 1)
  }

  /** wrapLease after a successful renewal: the renewed wrapper becomes current and keeps its state. */
  function Renewed(t: Table, s: StateId): Table
    requires s in t.states
  {
    t.(leases := t.leases[t.states[s].job := s])
  }

  /** forget: only the current wrapper of this very state is removed. */
  function Forgotten(t: Table, s: StateId): Table
    requires s in t.states
  {
    var job := t.states[s].job;
    if job in t.leases && t.leases[job] == s then t.(leases := t.leases - {job}) else t
  }

  function Staged(t: Table, job: string, d: Demand): Table
    requires job in t.leases ==> t.leases[job] in t.states
  {
    if job in t.leases then
      var s := t.leases[job];
      t.(states := t.states[s := t.states[s].(demand := Some(d))])
    else t
  }

  /** blockExecution: the error is stored as it comes, so a nil error lifts a block. */
  function Blocked(t: Table, s: StateId, err: Option<string>): Table
    requires s in t.states
  {
    t.(states := t.states[s := t.states[s].(blocked := err)])
  }

  predicate ValidTable(t: Table) {
    && (forall s :: s in t.states ==> s < t.next)
    && (forall job :: job in t.leases ==> t.leases[job] in t.states && t.states[t.leases[job]].job == job)
  }

  /** The table as the runtime keeps it; each method is one section under the mutex. */
  class Runtime {
    var leases: map<string, StateId>
    var states: map<StateId, LeaseState>
    var next: StateId

    ghost function View(): Table
      reads this
    {
      Table(leases, states, next)
    }

    constructor ()
      ensures View() == EmptyTable && ValidTable(View())
    {
      leases, states, next := map[], map[], 0;
    }

    method Accept(job: string) returns (s: StateId)
      requires ValidTable(View())
      modifies this
      ensures ValidTable(View()) && View() == Accepted(old(View()), job) && s == old(next)
      ensures s !in old(states)
    {
      s := next;
      states := states[s := LeaseState(job, None, None)];
      next := next + 1;
      leases := leases[job := s];
    }

    method WrapRenewed(s: StateId)
      requires ValidTable(View()) && s in states
      modifies this`leases
      ensures ValidTable(View()) && View() == Renewed(old(View()), s)
    {
      leases := leases[states[s].job := s];
    }

    method Forget(s: StateId)
      requires ValidTable(View()) && s in states
      modifies this`leases
      ensures ValidTable(View()) && View() == Forgotten(old(View()), s)
      ensures forall job :: job in old(leases) && old(leases)[job] != s ==> job in leases && leases[job] == old(leases)[job]
    {
      var job := states[s].job;
      if job in leases && leases[job] == s {
        leases := leases - {job};
      }
    }

    method Stage(job: string, d: Demand)
      requires ValidTable(View())
      modifies this`states
      ensures ValidTable(View()) && View() == Staged(old(View()), job, d)
    {
      if job in leases {
        var s := leases[job];
        states := states[s := states[s].(demand := Some(d))];
      }
    }

    method BlockExecution(s: StateId, err: Option<string>)
      requires ValidTable(View()) && s in states
      modifies this`states
      ensures ValidTable(View()) && View() == Blocked(old(View()), s, err)
    {
      states := states[s := states[s].(blocked := err)];
    }
  }

  // ---------------------------------------------------------------- tasks

  /** Where a task is in guardedTask.Run. */
  datatype Task =
    | Waiting                                            // before the first locked section
    | Ready(lease: StateId, demand: Option<Demand>)      // lease and demand read, not blocked then
    | Working(lease: StateId, demand: Option<Demand>)    // the worker is invoked
    | Asking(lease: StateId, negotiated: Demand)         // an extension's request was negotiated
    | Yielding(lease: StateId)                           // in yieldEnvironment, before it reads the demand
    | Publishing(lease: StateId, published: Demand)      // handing over
    | Blocking(lease: StateId, err: Option<string>)      // in blockExecution; None is a nil error
    | Crashed                                            // a nil demand was dereferenced
    | Done

  datatype System = System(table: Table, jobs: map<nat, string>, tasks: map<nat, Task>)

  datatype Executor = Executor(lib: Library, allocation: Allocation)

  /** What the payload of the lease holds: no demand, a demand, or something that does not decode. */
  datatype Payload = NoDemand | Holds(demand: Demand) | Undecodable

  /** What Yield returns: the suspension of the execution, or an error, which may be nil. */
  datatype Outcome = Suspended | Returned(err: Option<string>)

  datatype Step =
    | Accept(job: string)
    | Renew(lease: StateId, ok: bool)
    | Forget(lease: StateId)
    | Stage(job: string, demand: Demand)
    | Spawn(task: nat, job: string)
    | Read(task: nat)
    | Decide(task: nat)
    | Return(task: nat)
    | Require(task: nat, needs: Requirements)
    | StageNegotiated(task: nat)
    | Prepare(task: nat, payload: Payload, encodes: bool)
    | Handover(task: nat, outcome: Outcome)
    | Block(task: nat)

  function PcOf(sys: System, t: nat): Task {
    if t in sys.tasks then sys.tasks[t] else Done
  }

  function Moved(sys: System, t: nat, pc: Task): System {
    sys.(tasks := sys.tasks[t := pc])
  }

  function WithoutOverrides(d: Demand): Demand {
    d.(overrides := Nothing)
  }

  /** prepareReschedule: the demand the handover carries. */
  function Published(staged: Demand, payload: Payload): Demand {
    if payload.Holds? && payload.demand == WithoutOverrides(staged) then payload.demand else staged
  }

  ghost predicate Compatible(x: Executor, demand: Option<Demand>) {
    demand.Some? ==> Accepts(x.lib, demand.value.effective, x.allocation)
  }

  /** guardedTask.Run between the read and the worker. */
  ghost function Decided(x: Executor, lease: StateId, demand: Option<Demand>): Task {
    if demand.None? then Working(lease, demand)
    else
      match Compared(x.lib, demand.value.effective, x.allocation)
      case Err(_) => Done
      case Ok(report) => if report == NoMismatch then Working(lease, demand) else Yielding(lease)
  }

  /** guardedTask.Run after the worker asked for another environment. */
  ghost function Required(x: Executor, lease: StateId, demand: Option<Demand>, needs: Requirements): Task {
    match Compared(x.lib, needs, x.allocation)
    case Err(_) => Done
    case Ok(report) =>
      if report == NoMismatch || demand.None? then Done
      else
        match Negotiated(x.lib, demand.value, needs)
        case Err(_) => Done
        case Ok(d) => Asking(lease, d)
  }

  /** One atomic step; a step that is not enabled changes nothing. */
  ghost function Next(x: Executor, sys: System, step: Step): System
    requires ValidTable(sys.table)
  {
    var t := sys.table;
    match step
    case Accept(job) => sys.(table := Accepted(t, job))
    case Renew(s, ok) =>
      if s !in t.states then sys else sys.(table := if ok then Renewed(t, s) else Forgotten(t, s))
    case Forget(s) => if s !in t.states then sys else sys.(table := Forgotten(t, s))
    case Stage(job, d) => sys.(table := Staged(t, job, d))
    case Spawn(i, job) =>
      if i in sys.tasks then sys else sys.(jobs := sys.jobs[i := job], tasks := sys.tasks[i := Waiting])
    case Read(i) =>
      if !PcOf(sys, i).Waiting? || i !in sys.jobs then sys
      else if sys.jobs[i] !in t.leases then Moved(sys, i, Done)
      else
        var s := t.leases[sys.jobs[i]];
        Moved(sys, i, if t.states[s].blocked.Some? then Done else Ready(s, t.states[s].demand))
    case Decide(i) =>
      (match PcOf(sys, i)
       case Ready(s, d) => Moved(sys, i, Decided(x, s, d))
       case _ => sys)
    case Return(i) => if PcOf(sys, i).Working? then Moved(sys, i, Done) else sys
    case Require(i, needs) =>
      (match PcOf(sys, i)
       case Working(s, d) => Moved(sys, i, Required(x, s, d, needs))
       case _ => sys)
    case StageNegotiated(i) =>
      (match PcOf(sys, i)
       case Asking(s, d) =>
         if i in sys.jobs then Moved(sys, i, Yielding(s)).(table := Staged(t, sys.jobs[i], d)) else sys
       case _ => sys)
    case Prepare(i, payload, encodes) =>
      (match PcOf(sys, i)
       case Yielding(s) =>
         if s !in t.states then sys
         else if t.states[s].demand.None? then Moved(sys, i, Crashed)
         else
           var d := t.states[s].demand.value;
           var same := payload.Holds? && payload.demand == WithoutOverrides(d);
           Moved(sys, i, if payload.Undecodable? || (!same && !encodes) then Blocking(s, Some("payload"))
                         else Publishing(s, Published(d, payload)))
       case _ => sys)
    case Handover(i, outcome) =>
      (match PcOf(sys, i)
       case Publishing(s, _) => Moved(sys, i, if outcome.Suspended? then Done else Blocking(s, outcome.err))
       case _ => sys)
    case Block(i) =>
      (match PcOf(sys, i)
       case Blocking(s, err) => if s in t.states then Moved(sys, i, Done).(table := Blocked(t, s, err)) else sys
       case _ => sys)
  }

  // ---------------------------------------------------------------- invariants of every reachable state

  predicate HasDemand(t: Table, s: StateId) {
    s in t.states && t.states[s].demand.Some?
  }

  ghost predicate ValidTask(x: Executor, t: Table, pc: Task) {
    match pc
    case Waiting => true
    case Ready(s, d) => s in t.states && (d.Some? ==> HasDemand(t, s))
    case Working(s, d) => s in t.states && (d.Some? ==> HasDemand(t, s)) && Compatible(x, d)
    case Asking(s, _) => HasDemand(t, s)
    case Yielding(s) => HasDemand(t, s)
    case Publishing(s, _) => s in t.states
    case Blocking(s, _) => s in t.states
    case Crashed => false
    case Done => true
  }

  ghost predicate Inv(x: Executor, sys: System) {
    ValidTable(sys.table) && forall i :: i in sys.tasks ==> ValidTask(x, sys.table, sys.tasks[i])
  }

  /** States are never dropped, never lose a demand, and stay with their job. */
  predicate Grows(a: Table, b: Table) {
    forall s :: s in a.states ==>
                  && s in b.states && b.states[s].job == a.states[s].job
                  && (a.states[s].demand.Some? ==> b.states[s].demand.Some?)
  }

  lemma TableGrows(x: Executor, sys: System, step: Step)
    requires ValidTable(sys.table)
    ensures ValidTable(Next(x, sys, step).table) && Grows(sys.table, Next(x, sys, step).table)
  {
    hide Decided, Required, Published;
  }

  lemma TaskStaysValid(x: Executor, a: Table, b: Table, pc: Task)
    requires ValidTask(x, a, pc) && Grows(a, b)
    ensures ValidTask(x, b, pc)
  {
  }

  /** The stepping task lands in a valid place. */
  lemma MovedTaskValid(x: Executor, sys: System, step: Step, i: nat)
    requires Inv(x, sys) && i in Next(x, sys, step).tasks
    requires i !in sys.tasks || Next(x, sys, step).tasks[i] != sys.tasks[i]
    ensures ValidTask(x, Next(x, sys, step).table, Next(x, sys, step).tasks[i])
  {
    TableGrows(x, sys, step);
    hide Negotiated, Compared;
  }

  /**
   Every step keeps the invariant: a working task read no demand or a compatible one, and a task that
   yields has a staged demand, so no nil demand is ever published.
   */
  lemma StepKeepsInvariant(x: Executor, sys: System, step: Step)
    requires Inv(x, sys)
    ensures Inv(x, Next(x, sys, step))
  {
    hide ValidTask, Next, Grows;
    var after := Next(x, sys, step);
    TableGrows(x, sys, step);
    forall i | i in after.tasks
      ensures ValidTask(x, after.table, after.tasks[i])
    {
      if i in sys.tasks && after.tasks[i] == sys.tasks[i] {
        TaskStaysValid(x, sys.table, after.table, sys.tasks[i]);
      } else {
        MovedTaskValid(x, sys, step, i);
      }
    }
  }

  // ---------------------------------------------------------------- runs

  ghost function After(x: Executor, sys: System, steps: seq<Step>): System
    requires Inv(x, sys)
    ensures Inv(x, After(x, sys, steps))
  {
    if steps == [] then sys
    else
      var before := After(x, sys, steps[..|steps| - 1]);
      StepKeepsInvariant(x, before, steps[|steps| - 1]);
      Next(x, before, steps[|steps| - 1])
  }

  /** In every reachable state, whatever the interleaving. */
  lemma ReachableStates(x: Executor, steps: seq<Step>, i: nat)
    ensures var sys := System(EmptyTable, map[], map[]);
            && Inv(x, sys)
            && var last := After(x, sys, steps);
               && PcOf(last, i) != Crashed
               && (PcOf(last, i).Working? ==> Compatible(x, PcOf(last, i).demand))
               && (PcOf(last, i).Yielding? ==> HasDemand(last.table, PcOf(last, i).lease))
  {
  }

  lemma {:induction false} RunGrows(x: Executor, sys: System, steps: seq<Step>)
    requires Inv(x, sys)
    ensures Grows(sys.table, After(x, sys, steps).table)
  {
    hide Next, Inv;
    if steps != [] {
      RunGrows(x, sys, steps[..|steps| - 1]);
      var before := After(x, sys, steps[..|steps| - 1]);
      assert ValidTable(before.table) by {
        InvTable(x, before);
      }
      TableGrows(x, before, steps[|steps| - 1]);
    }
  }

  lemma InvTable(x: Executor, sys: System)
    requires Inv(x, sys)
    ensures ValidTable(sys.table)
  {
  }

  /** Only staging through the job's current wrapper changes a demand. */
  lemma OnlyStagingChangesDemand(x: Executor, sys: System, step: Step, s: StateId)
    requires ValidTable(sys.table) && s in sys.table.states
    requires Next(x, sys, step).table.states[s].demand != sys.table.states[s].demand
    ensures step.Stage? || step.StageNegotiated?
    ensures sys.table.states[s].job in sys.table.leases && sys.table.leases[sys.table.states[s].job] == s
  {
    hide Decided, Required, Published;
  }

  /** Staged demands and blocks survive any number of renewals, of this job and of others. */
  lemma {:induction false} RenewalsKeepStates(x: Executor, sys: System, steps: seq<Step>)
    requires Inv(x, sys) && forall i :: 0 <= i < |steps| ==> steps[i].Renew?
    ensures After(x, sys, steps).table.states == sys.table.states
  {
    if steps != [] {
      RenewalsKeepStates(x, sys, steps[..|steps| - 1]);
      assert steps[|steps| - 1].Renew?;
    }
  }

  /** Forgetting one state never removes the current wrapper of another. */
  lemma ForgetSparesOthers(x: Executor, sys: System, step: Step, job: string)
    requires ValidTable(sys.table) && job in sys.table.leases
    requires job !in Next(x, sys, step).table.leases
    ensures (step.Forget? || (step.Renew? && !step.ok)) && step.lease == sys.table.leases[job]
  {
    hide Decided, Required, Published;
  }

  /** A task past its read of state `s` and not yet past the worker. */
  predicate PastRead(pc: Task, s: StateId) {
    (pc.Ready? || pc.Working?) && pc.lease == s
  }

  predicate IsBlocked(sys: System, s: StateId) {
    s in sys.table.states && sys.table.states[s].blocked.Some?
  }

  /** The step in which a task stores the nil error of its handover in state `s`. */
  predicate Lifts(sys: System, step: Step, s: StateId) {
    step.Block? && PcOf(sys, step.task) == Blocking(s, None)
  }

  /** Nothing but a stored nil error lifts a block: not renewing, forgetting, staging or another failure. */
  lemma StepKeepsBlock(x: Executor, sys: System, step: Step, s: StateId)
    requires ValidTable(sys.table) && IsBlocked(sys, s)
    ensures IsBlocked(Next(x, sys, step), s) <==> !Lifts(sys, step, s)
  {
    hide Decided, Required, Published;
  }

  /** No step of the run lifts the block of `s`. */
  ghost predicate NeverLifted(x: Executor, sys: System, steps: seq<Step>, s: StateId)
    requires Inv(x, sys)
  {
    steps != [] ==>
      var front := steps[..|steps| - 1];
      NeverLifted(x, sys, front, s) && !Lifts(After(x, sys, front), steps[|steps| - 1], s)
  }

  /** State `s` is blocked throughout the run. */
  ghost predicate StaysBlocked(x: Executor, sys: System, steps: seq<Step>, s: StateId)
    requires Inv(x, sys)
  {
    IsBlocked(After(x, sys, steps), s) && (steps != [] ==> StaysBlocked(x, sys, steps[..|steps| - 1], s))
  }

  /** A block persists throughout a run exactly when no task stores a nil error in that state. */
  lemma {:induction false} BlockPersistsExactly(x: Executor, sys: System, steps: seq<Step>, s: StateId)
    requires Inv(x, sys) && IsBlocked(sys, s)
    ensures StaysBlocked(x, sys, steps, s) <==> NeverLifted(x, sys, steps, s)
  {
    hide Next, Inv, Lifts, IsBlocked;
    if steps != [] {
      var front := steps[..|steps| - 1];
      BlockPersistsExactly(x, sys, front, s);
      if StaysBlocked(x, sys, front, s) {
        InvTable(x, After(x, sys, front));
        StepKeepsBlock(x, After(x, sys, front), steps[|steps| - 1], s);
      }
    }
  }

  predicate ReturnsNil(step: Step) {
    step.Handover? && step.outcome == Returned(None)
  }

  /** No task is about to store a nil error. */
  ghost predicate NoNilPending(sys: System) {
    forall i :: PcOf(sys, i).Blocking? ==> PcOf(sys, i).err.Some?
  }

  lemma NilOnlyFromHandover(x: Executor, sys: System, step: Step)
    requires Inv(x, sys) && NoNilPending(sys) && !ReturnsNil(step)
    ensures NoNilPending(Next(x, sys, step))
  {
    hide Negotiated, Compared, Published;
    forall i | PcOf(Next(x, sys, step), i).Blocking?
      ensures PcOf(Next(x, sys, step), i).err.Some?
    {
      assert PcOf(Next(x, sys, step), i) == PcOf(sys, i) || PcOf(Next(x, sys, step), i).err.Some?;
    }
  }

  /** A nil error can only come from a handover that returned nil without being suspended. */
  lemma {:induction false} NoNilHandoverNeverLifts(x: Executor, sys: System, steps: seq<Step>, s: StateId)
    requires Inv(x, sys) && NoNilPending(sys) && forall i :: 0 <= i < |steps| ==> !ReturnsNil(steps[i])
    ensures NoNilPending(After(x, sys, steps)) && NeverLifted(x, sys, steps, s)
  {
    hide Next, Inv;
    if steps != [] {
      var front, last := steps[..|steps| - 1], steps[|steps| - 1];
      assert forall i :: 0 <= i < |front| ==> front[i] == steps[i];
      NoNilHandoverNeverLifts(x, sys, front, s);
      NilOnlyFromHandover(x, After(x, sys, front), last);
    }
  }

  lemma BlockedStaysUnread(x: Executor, sys: System, step: Step, s: StateId, i: nat)
    requires ValidTable(sys.table) && IsBlocked(sys, s)
    requires !PastRead(PcOf(sys, i), s)
    ensures !PastRead(PcOf(Next(x, sys, step), i), s)
  {
    hide Negotiated, Compared, Published;
  }

  /**
   While a state is blocked, no later Run under it invokes the worker: any task working under it in
   the future had already read it before the block. Only a stored nil error ends this.
   */
  lemma {:induction false} BlockedStopsWork(x: Executor, sys: System, steps: seq<Step>, s: StateId, i: nat)
    requires Inv(x, sys) && IsBlocked(sys, s) && NeverLifted(x, sys, steps, s)
    requires !PastRead(PcOf(sys, i), s)
    ensures !PastRead(PcOf(After(x, sys, steps), i), s)
  {
    hide Next, Inv, PastRead, IsBlocked;
    if steps != [] {
      var front := steps[..|steps| - 1];
      BlockedStopsWork(x, sys, front, s, i);
      BlockPersistsExactly(x, sys, front, s);
      InvTable(x, After(x, sys, front));
      BlockedStaysUnread(x, After(x, sys, front), steps[|steps| - 1], s, i);
    }
  }

  lemma AfterSnoc(x: Executor, sys: System, steps: seq<Step>, step: Step)
    requires Inv(x, sys)
    ensures After(x, sys, steps + [step]) == Next(x, After(x, sys, steps), step)
  {
    assert (steps + [step])[..|steps|] == steps;
  }

  /** Two tasks yield under one lease: the first handover is refused and blocks, the second returns nil. */
  function TwoHandovers(d: Demand): seq<Step> {
    [Accept("job"), Stage("job", d), Spawn(0, "job"), Spawn(1, "job"), Read(0), Read(1), Decide(0), Decide(1),
     Prepare(0, NoDemand, true), Prepare(1, NoDemand, true), Handover(0, Returned(Some("refused"))), Block(0),
     Handover(1, Returned(None)), Block(1), Spawn(2, "job"), Read(2)]
  }

  /** The table of the example, with what its one state stores as the block. */
  function OneLease(d: Demand, blocked: Option<string>): Table {
    Table(map["job" := 0], map[0 := LeaseState("job", Some(d), blocked)], 1)
  }

  /** Two tasks under that lease. */
  function TwoTasks(d: Demand, first: Task, second: Task): System {
    System(OneLease(d, None), map[0 := "job", 1 := "job"], map[0 := first, 1 := second])
  }

  lemma OneMore(x: Executor, sys: System, steps: seq<Step>, k: nat, after: System)
    requires Inv(x, sys) && k < |steps| && after == Next(x, After(x, sys, steps[..k]), steps[k])
    ensures After(x, sys, steps[..k + 1]) == after
  {
    hide Next, Inv, After;
    AfterSnoc(x, sys, steps[..k], steps[k]);
    assert steps[..k + 1] == steps[..k] + [steps[k]];
  }

  lemma StartHolds(x: Executor, steps: seq<Step>)
    ensures Inv(x, System(EmptyTable, map[], map[]))
    ensures After(x, System(EmptyTable, map[], map[]), steps[..0]) == System(EmptyTable, map[], map[])
  {
  }

  lemma TasksStart(x: Executor, d: Demand)
    ensures Inv(x, System(EmptyTable, map[], map[]))
    ensures After(x, System(EmptyTable, map[], map[]), TwoHandovers(d)[..4]) == TwoTasks(d, Waiting, Waiting)
  {
    hide Decided, Required, After, Inv, Accepts, Published;
    var start, steps := System(EmptyTable, map[], map[]), TwoHandovers(d);
    var one := System(OneLease(d, None), map[0 := "job"], map[0 := Waiting]);
    StartHolds(x, steps);
    OneMore(x, start, steps, 0, System(Table(map["job" := 0], map[0 := LeaseState("job", None, None)], 1), map[], map[]));
    OneMore(x, start, steps, 1, System(OneLease(d, None), map[], map[]));
    OneMore(x, start, steps, 2, one);
    OneMore(x, start, steps, 3, TwoTasks(d, Waiting, Waiting));
  }

  lemma TasksYield(x: Executor, d: Demand)
    requires Decided(x, 0, Some(d)) == Yielding(0)
    ensures Inv(x, System(EmptyTable, map[], map[]))
    ensures After(x, System(EmptyTable, map[], map[]), TwoHandovers(d)[..8]) == TwoTasks(d, Yielding(0), Yielding(0))
  {
    hide Decided, Required, After, Inv, Accepts, Published;
    var start, steps, ready := System(EmptyTable, map[], map[]), TwoHandovers(d), Ready(0, Some(d));
    TasksStart(x, d);
    OneMore(x, start, steps, 4, TwoTasks(d, ready, Waiting));
    OneMore(x, start, steps, 5, TwoTasks(d, ready, ready));
    OneMore(x, start, steps, 6, TwoTasks(d, Yielding(0), ready));
    OneMore(x, start, steps, 7, TwoTasks(d, Yielding(0), Yielding(0)));
  }

  lemma UnheldIsPublished(d: Demand)
    ensures Published(d, NoDemand) == d
  {
  }

  lemma TasksPublish(x: Executor, d: Demand)
    requires Decided(x, 0, Some(d)) == Yielding(0)
    ensures Inv(x, System(EmptyTable, map[], map[]))
    ensures After(x, System(EmptyTable, map[], map[]), TwoHandovers(d)[..10]) ==
            TwoTasks(d, Publishing(0, d), Publishing(0, d))
  {
    hide Decided, Required, After, Inv, Accepts, Published;
    var start, steps, handing := System(EmptyTable, map[], map[]), TwoHandovers(d), Publishing(0, d);
    TasksYield(x, d);
    UnheldIsPublished(d);
    var half := TwoTasks(d, handing, Yielding(0));
    assert Next(x, TwoTasks(d, Yielding(0), Yielding(0)), Prepare(0, NoDemand, true)) == half;
    assert Next(x, half, Prepare(1, NoDemand, true)) == TwoTasks(d, handing, handing);
    hide Next;
    OneMore(x, start, steps, 8, half);
    OneMore(x, start, steps, 9, TwoTasks(d, handing, handing));
  }

  lemma FirstHandoverBlocks(x: Executor, d: Demand)
    requires Decided(x, 0, Some(d)) == Yielding(0)
    ensures Inv(x, System(EmptyTable, map[], map[]))
    ensures After(x, System(EmptyTable, map[], map[]), TwoHandovers(d)[..12]) ==
            TwoTasks(d, Done, Publishing(0, d)).(table := OneLease(d, Some("refused")))
  {
    hide Decided, Required, After, Inv, Accepts, Published;
    var start, steps, handing := System(EmptyTable, map[], map[]), TwoHandovers(d), Publishing(0, d);
    TasksPublish(x, d);
    OneMore(x, start, steps, 10, TwoTasks(d, Blocking(0, Some("refused")), handing));
    OneMore(x, start, steps, 11, TwoTasks(d, Done, handing).(table := OneLease(d, Some("refused"))));
  }

  /** The block is really lifted by a nil handover: a third task reads the state as if it had never been blocked. */
  lemma NilHandoverExample(x: Executor, d: Demand)
    requires Decided(x, 0, Some(d)) == Yielding(0)
    ensures var sys := System(EmptyTable, map[], map[]);
            && Inv(x, sys)
            && IsBlocked(After(x, sys, TwoHandovers(d)[..12]), 0)
            && PastRead(PcOf(After(x, sys, TwoHandovers(d)), 2), 0)
  {
    hide Decided, Required, After, Inv, Accepts, Published;
    var start, steps := System(EmptyTable, map[], map[]), TwoHandovers(d);
    FirstHandoverBlocks(x, d);
    var lifted := TwoTasks(d, Done, Done);
    OneMore(x, start, steps, 12, TwoTasks(d, Done, Blocking(0, None)).(table := OneLease(d, Some("refused"))));
    OneMore(x, start, steps, 13, lifted);
    var three := lifted.(jobs := lifted.jobs[2 := "job"], tasks := lifted.tasks[2 := Waiting]);
    OneMore(x, start, steps, 14, three);
    OneMore(x, start, steps, 15, three.(tasks := three.tasks[2 := Ready(0, Some(d))]));
    assert steps[..16] == steps;
  }

  /** The handover carries the demand that was staged when it was prepared, overrides aside. */
  lemma PublishesStagedDemand(x: Executor, sys: System, i: nat, payload: Payload, encodes: bool)
    requires Inv(x, sys) && PcOf(sys, i).Yielding?
    requires PcOf(Next(x, sys, Prepare(i, payload, encodes)), i).Publishing?
    ensures var s := PcOf(sys, i).lease;
            && HasDemand(sys.table, s)
            && WithoutOverrides(PcOf(Next(x, sys, Prepare(i, payload, encodes)), i).published)
               == WithoutOverrides(sys.table.states[s].demand.value)
  {
  }

  /** At some point of the run the state `s` held the demand `d`, overrides aside. */
  ghost predicate WasStaged(x: Executor, sys: System, steps: seq<Step>, s: StateId, d: Demand)
    requires Inv(x, sys)
  {
    var now := After(x, sys, steps).table;
    || (HasDemand(now, s) && WithoutOverrides(now.states[s].demand.value) == WithoutOverrides(d))
    || (steps != [] && WasStaged(x, sys, steps[..|steps| - 1], s, d))
  }

  lemma PublishingStays(x: Executor, sys: System, step: Step, i: nat)
    requires Inv(x, sys) && PcOf(Next(x, sys, step), i).Publishing?
    ensures (step.Prepare? && step.task == i && PcOf(sys, i).Yielding?
             && PcOf(sys, i).lease == PcOf(Next(x, sys, step), i).lease)
            || PcOf(sys, i) == PcOf(Next(x, sys, step), i)
  {
    hide Negotiated, Compared, Published;
  }

  /** Whatever a task hands over along a run was really staged in its state, even when the payload supplied it. */
  lemma {:induction false} PublishedWasStaged(x: Executor, steps: seq<Step>, i: nat)
    requires Inv(x, System(EmptyTable, map[], map[]))
    requires PcOf(After(x, System(EmptyTable, map[], map[]), steps), i).Publishing?
    ensures var sys := System(EmptyTable, map[], map[]);
            var pc := PcOf(After(x, sys, steps), i);
            WasStaged(x, sys, steps, pc.lease, pc.published)
  {
    hide Next, Inv, WithoutOverrides;
    var sys := System(EmptyTable, map[], map[]);
    if steps != [] {
      var front, last := steps[..|steps| - 1], steps[|steps| - 1];
      var before := After(x, sys, front);
      PublishingStays(x, before, last, i);
      if PcOf(before, i) == PcOf(After(x, sys, steps), i) {
        PublishedWasStaged(x, front, i);
      } else {
        PublishesStagedDemand(x, before, i, last.payload, last.encodes);
      }
    }
  }

  /**
   A demand negotiated because this executor did not do is one it cannot meet: a task that reads it here
   yields or fails, and never invokes the worker again.
   */
  lemma NegotiatedDemandMovesOn(x: Executor, lease: StateId, demand: Option<Demand>, needs: Requirements)
    requires x.lib.Sound() && Required(x, lease, demand, needs).Asking?
    ensures var d := Required(x, lease, demand, needs).negotiated;
            !Compatible(x, Some(d)) && forall s :: !Decided(x, s, Some(d)).Working?
  {
    hide Negotiated, Normalized, NormalizedAllocation;
    var d := Required(x, lease, demand, needs).negotiated;
    if Accepts(x.lib, d.effective, x.allocation) {
      NeverWeakens(x.lib, demand.value, needs, x.allocation);
      assert false;
    }
  }

  // ---------------------------------------------------------------- exactly which tasks work, yield and ask

  /** The two sides of the comparison can be compared. */
  ghost predicate Comparable(x: Executor, r: Requirements) {
    Valid(x.lib, r) && NormalizedAllocation(x.lib, x.allocation).Ok?
  }

  /**
   A task that has read its lease works exactly when no demand was staged or the allocation meets it,
   yields exactly when the two can be compared and it does not, and ends exactly when they cannot.
   */
  lemma DecidesExactly(x: Executor, sys: System, i: nat)
    requires ValidTable(sys.table) && PcOf(sys, i).Ready?
    ensures var d, after := PcOf(sys, i).demand, PcOf(Next(x, sys, Decide(i)), i);
            && (after == Working(PcOf(sys, i).lease, d) <==> d.None? || Accepts(x.lib, d.value.effective, x.allocation))
            && (after == Yielding(PcOf(sys, i).lease) <==>
                  d.Some? && Comparable(x, d.value.effective) && !Accepts(x.lib, d.value.effective, x.allocation))
            && (after == Done <==> d.Some? && !Comparable(x, d.value.effective))
  {
    hide Normalized, NormalizedAllocation;
  }

  /**
   A worker that asks for another environment goes on to stage a demand exactly when the allocation does
   not meet the request, a demand was staged before and the two can be negotiated, and then it is the
   negotiated one; otherwise the task ends.
   */
  lemma AsksExactly(x: Executor, sys: System, i: nat, needs: Requirements)
    requires ValidTable(sys.table) && PcOf(sys, i).Working?
    ensures var lease, d := PcOf(sys, i).lease, PcOf(sys, i).demand;
            var after := PcOf(Next(x, sys, Require(i, needs)), i);
            var asks := && Comparable(x, needs) && !Accepts(x.lib, needs, x.allocation)
                        && d.Some? && Negotiated(x.lib, d.value, needs).Ok?;
            after == if asks then Asking(lease, Negotiated(x.lib, d.value, needs).value) else Done
  {
    hide Normalized, NormalizedAllocation, Negotiated;
  }

  /** A waiting task of a job whose lease is held and not blocked reaches the worker exactly when the staged demand, if any, is met. */
  lemma ReachesWorker(x: Executor, sys: System, i: nat)
    requires Inv(x, sys) && PcOf(sys, i) == Waiting && i in sys.jobs
    ensures var t, after := sys.table, PcOf(After(x, sys, [Read(i), Decide(i)]), i);
            after.Working? <==>
              && sys.jobs[i] in t.leases && !IsBlocked(sys, t.leases[sys.jobs[i]])
              && var d := t.states[t.leases[sys.jobs[i]]].demand;
                 d.None? || Accepts(x.lib, d.value.effective, x.allocation)
  {
    hide Accepts, Compared, Inv;
    InvTable(x, sys);
    assert After(x, sys, []) == sys;
    AfterSnoc(x, sys, [], Read(i));
    AfterSnoc(x, sys, [Read(i)], Decide(i));
    assert [] + [Read(i)] == [Read(i)] && [Read(i)] + [Decide(i)] == [Read(i), Decide(i)];
    var read := Next(x, sys, Read(i));
    assert read == After(x, sys, [Read(i)]);
    if PcOf(read, i).Ready? {
      assert read.table == sys.table;
      InvTable(x, read);
      DecidesExactly(x, read, i);
    }
  }

  /** What follows asking: the negotiated demand is staged for the job's lease and handed over, if it can be encoded. */
  lemma AskedIsHandedOver(x: Executor, sys: System, i: nat)
    requires Inv(x, sys) && PcOf(sys, i).Asking? && i in sys.jobs
    requires sys.jobs[i] in sys.table.leases && sys.table.leases[sys.jobs[i]] == PcOf(sys, i).lease
    ensures var lease, d := PcOf(sys, i).lease, PcOf(sys, i).negotiated;
            var last := After(x, sys, [StageNegotiated(i), Prepare(i, NoDemand, true)]);
            && PcOf(last, i) == Publishing(lease, d)
            && last.table.states[lease].demand == Some(d)
  {
    hide Decided, Required, Inv;
    InvTable(x, sys);
    assert After(x, sys, []) == sys;
    AfterSnoc(x, sys, [], StageNegotiated(i));
    AfterSnoc(x, sys, [StageNegotiated(i)], Prepare(i, NoDemand, true));
    assert [] + [StageNegotiated(i)] == [StageNegotiated(i)];
    assert [StageNegotiated(i)] + [Prepare(i, NoDemand, true)] == [StageNegotiated(i), Prepare(i, NoDemand, true)];
    UnheldIsPublished(PcOf(sys, i).negotiated);
    var staged := Next(x, sys, StageNegotiated(i));
    assert staged == After(x, sys, [StageNegotiated(i)]);
    assert PcOf(staged, i) == Yielding(PcOf(sys, i).lease);
  }

  /** Which wrapper is current: the latest accepted or renewed one of the job, until that very state is forgotten. */
  lemma CurrentExactly(x: Executor, sys: System, step: Step, job: string)
    requires ValidTable(sys.table)
    ensures var before, after := sys.table, Next(x, sys, step).table;
            var known := (step.Renew? || step.Forget?) && step.lease in before.states && before.states[step.lease].job == job;
            if step.Accept? && step.job == job then job in after.leases && after.leases[job] == before.next
            else if known && step.Renew? && step.ok then job in after.leases && after.leases[job] == step.lease
            else if known && job in before.leases && before.leases[job] == step.lease then job !in after.leases
            else (job in after.leases <==> job in before.leases) && (job in after.leases ==> after.leases[job] == before.leases[job])
  {
    hide Decided, Required, Published;
  }

  /**
   How a yielding task goes on. It has something to hand over exactly when a demand is staged and the payload
   decodes and either holds that demand or can be made to; it ends when the handover suspends the execution;
   and whatever else comes back is stored as the block.
   */
  lemma HandsOverExactly(x: Executor, sys: System, i: nat, payload: Payload, encodes: bool, outcome: Outcome)
    requires Inv(x, sys)
    ensures var pc := PcOf(sys, i);
            && (pc.Yielding? ==>
                  var after := PcOf(Next(x, sys, Prepare(i, payload, encodes)), i);
                  var staged := sys.table.states[pc.lease].demand.value;
                  if payload.Undecodable? || (payload != Holds(WithoutOverrides(staged)) && !encodes)
                  then after.Blocking? && after.lease == pc.lease && after.err.Some?
                  else after.Publishing? && after.lease == pc.lease)
            && (pc.Publishing? ==>
                  PcOf(Next(x, sys, Handover(i, outcome)), i) ==
                  if outcome.Suspended? then Done else Blocking(pc.lease, outcome.err))
            && (pc.Blocking? ==>
                  && PcOf(Next(x, sys, Block(i)), i) == Done
                  && Next(x, sys, Block(i)).table.states[pc.lease].blocked == pc.err)
            && (pc.Working? ==> PcOf(Next(x, sys, Return(i)), i) == Done)
  {
    hide Decided, Required, Negotiated, Compared;
  }
}
