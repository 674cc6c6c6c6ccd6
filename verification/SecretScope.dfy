/**
 The generation fence of a Git execution scope (pkg/gitprofile/scope.go). Requests read the scope,
 resolve a secret outside the lock, and reply under the lock; activation, clearing, allowing and
 closing may happen at any time in between.
 */
module SecretScope {
  import opened Text

  /** The lock-protected fields, with the cancellation of the scope's context. */
  datatype View = View(active: bool, cleared: bool, generation: nat, additional: set<string>, cancelled: bool)

  /** setActive; replacing the include file may fail, and then nothing changes. */
  function WithActive(v: View, active: bool, fileReplaced: bool): View {
    if fileReplaced then v.(active := active, generation := v.generation + 1) else v
  }

  /** The clear and activate requests. */
  function Switched(v: View, profile: string, activate: bool, name: string, fileReplaced: bool): View {
    if v.cancelled || (activate && (name != profile || profile == "")) then v
    else
      var set' := WithActive(v, activate, fileReplaced);
      if fileReplaced then set'.(cleared := !activate) else set'
  }

  /** The locked part of Close. */
  function Shut(v: View): View {
    v.(active := false, generation := v.generation + 1)
  }

  class Scope {
    const profile: string
    var active: bool
    var cleared: bool
    var generation: nat
    var additional: set<string>
    var cancelled: bool

    ghost function Now(): View
      reads this
    {
      View(active, cleared, generation, additional, cancelled)
    }

    constructor (profile: string)
      ensures Now() == View(profile != "", false, 1, {}, false) && this.profile == profile
    {
      this.profile := profile;
      active, cleared, generation, additional, cancelled := profile != "", false, 1, {}, false;
    }

    method SetActive(on: bool, fileReplaced: bool) returns (ok: bool)
      modifies this`active, this`generation
      ensures Now() == WithActive(old(Now()), on, fileReplaced) && ok == fileReplaced
    {
      if !fileReplaced {
        return false;
      }
      active := on;
      generation := generation + 1;
      ok := true;
    }

    method Switch(activate: bool, name: string, fileReplaced: bool)
      modifies this`active, this`generation, this`cleared
      ensures Now() == Switched(old(Now()), profile, activate, name, fileReplaced)
    {
      if cancelled {
        return;
      }
      if activate && (name != profile || profile == "") {
        return;
      }
      var ok := SetActive(activate, fileReplaced);
      if ok {
        cleared := !activate;
      }
    }

    method AllowSecrets(names: seq<string>)
      modifies this`additional
      ensures Now() == old(Now()).(additional := old(additional) + set n | n in names)
    {
      for i := 0 to |names|
        invariant additional == old(additional) + set n | n in names[..i]
      {
        additional := additional + {names[i]};
        assert names[..i + 1] == names[..i] + [names[i]];
      }
      assert names[..|names|] == names;
    }

    /** The two halves of Close: cancel first, then the locked part. */
    method Close()
      modifies this`active, this`generation, this`cancelled
      ensures Now() == Shut(old(Now()).(cancelled := true))
    {
      cancelled := true;
      active := false;
      generation := generation + 1;
    }
  }

  // ---------------------------------------------------------------- requests

  /** A secret request names a secret; a credential request names what the profile matched, if anything. */
  datatype Request = Secret(name: string) | Credential(matched: Option<string>)

  /** The profile of the scope, which never changes: its name and the secrets its entries refer to. */
  datatype Profile = Profile(name: string, secrets: set<string>)

  datatype Pc =
    | Arrived(req: Request)
    | Snapshot(req: Request, generation: nat, active: bool, additional: bool)
    | Resolved(req: Request, generation: nat, active: bool, additional: bool, secret: Option<string>)
    | Replied

  datatype System = System(scope: View, requests: map<nat, Pc>)

  datatype Step =
    | Arrive(id: nat, req: Request)
    | ReadScope(id: nat)
    | Resolve(id: nat, found: bool)
    | Reply(id: nat, alive: bool)
    | SwitchStep(activate: bool, name: string, fileReplaced: bool)
    | Allow(names: set<string>)
    | Cancel
    | FinishClose

  function NameOf(req: Request): Option<string> {
    match req
    case Secret(name) => Some(name)
    case Credential(matched) => matched
  }

  /** Whether the scope, as seen, authorises the request. */
  predicate Grants(p: Profile, req: Request, active: bool, additional: bool) {
    NameOf(req).Some? && ((active && NameOf(req).value != "" && NameOf(req).value in p.secrets) || (req.Secret? && additional))
  }

  predicate Listed(v: View, req: Request) {
    req.Secret? && req.name in v.additional
  }

  /** The scope state authorises the release of this request's secret now. */
  predicate Authorises(p: Profile, v: View, req: Request) {
    Grants(p, req, v.active, Listed(v, req))
  }

  function PcOf(sys: System, i: nat): Pc {
    if i in sys.requests then sys.requests[i] else Replied
  }

  /** The fence: nothing passes after cancellation or after the generation moved. */
  predicate Passes(v: View, generation: nat, alive: bool) {
    !v.cancelled && alive && generation == v.generation
  }

  function Next(p: Profile, sys: System, step: Step): System {
    var v := sys.scope;
    match step
    case Arrive(i, req) => if i in sys.requests then sys else sys.(requests := sys.requests[i := Arrived(req)])
    case ReadScope(i) =>
      (match PcOf(sys, i)
       case Arrived(req) =>
         sys.(requests := sys.requests[i := if v.cancelled then Replied
                                            else Snapshot(req, v.generation, v.active, Listed(v, req))])
       case _ => sys)
    case Resolve(i, found) =>
      (match PcOf(sys, i)
       case Snapshot(req, g, active, additional) =>
         var secret := if Grants(p, req, active, additional) && found then NameOf(req) else None;
         sys.(requests := sys.requests[i := Resolved(req, g, active, additional, secret)])
       case _ => sys)
    case Reply(i, _) => if PcOf(sys, i).Resolved? then sys.(requests := sys.requests[i := Replied]) else sys
    case SwitchStep(activate, name, replaced) => sys.(scope := Switched(v, p.name, activate, name, replaced))
    case Allow(names) => sys.(scope := v.(additional := v.additional + names))
    case Cancel => sys.(scope := v.(cancelled := true))
    case FinishClose => if v.cancelled then sys.(scope := Shut(v)) else sys
  }

  /** The secret a step hands to a client, if any. */
  function Released(sys: System, step: Step): Option<string> {
    match step
    case Reply(i, alive) =>
      (match PcOf(sys, i)
       case Resolved(_, g, _, _, secret) => if Passes(sys.scope, g, alive) then secret else None
       case _ => None)
    case _ => None
  }

  // ---------------------------------------------------------------- the fence

  /** What a snapshot still says about the scope: an unmoved generation means an unmoved activation. */
  predicate Current(v: View, req: Request, generation: nat, active: bool, additional: bool) {
    && generation <= v.generation
    && (generation == v.generation ==> active == v.active)
    && (additional ==> Listed(v, req))
  }

  predicate ValidRequest(p: Profile, v: View, pc: Pc) {
    match pc
    case Arrived(_) => true
    case Snapshot(req, g, active, additional) => Current(v, req, g, active, additional)
    case Resolved(req, g, active, additional, secret) =>
      && Current(v, req, g, active, additional)
      && (secret.Some? ==> secret == NameOf(req) && Grants(p, req, active, additional))
    case Replied => true
  }

  predicate Inv(p: Profile, sys: System) {
    forall i :: i in sys.requests ==> ValidRequest(p, sys.scope, sys.requests[i])
  }

  /** How the scope may move: the generation rises with every activation change, and secrets are only added. */
  predicate Moves(a: View, b: View) {
    && a.generation <= b.generation
    && (a.generation == b.generation ==> a.active == b.active)
    && a.additional <= b.additional
    && (a.cancelled ==> b.cancelled)
  }

  lemma StepMoves(p: Profile, sys: System, step: Step)
    ensures Moves(sys.scope, Next(p, sys, step).scope)
  {
  }

  lemma ValidRequestStays(p: Profile, a: View, b: View, pc: Pc)
    requires ValidRequest(p, a, pc) && Moves(a, b)
    ensures ValidRequest(p, b, pc)
  {
  }

  lemma StepKeepsInvariant(p: Profile, sys: System, step: Step)
    requires Inv(p, sys)
    ensures Inv(p, Next(p, sys, step))
  {
    var after := Next(p, sys, step);
    StepMoves(p, sys, step);
    forall i | i in after.requests
      ensures ValidRequest(p, after.scope, after.requests[i])
    {
      if i in sys.requests && after.requests[i] == sys.requests[i] {
        ValidRequestStays(p, sys.scope, after.scope, sys.requests[i]);
      }
    }
  }

  /** A released secret is authorised by the scope as it is at the moment of release. */
  lemma ReleaseIsAuthorised(p: Profile, sys: System, step: Step)
    requires Inv(p, sys) && Released(sys, step).Some?
    ensures !sys.scope.cancelled
    ensures var req := PcOf(sys, step.id).req;
            Authorises(p, sys.scope, req) && NameOf(req) == Released(sys, step)
  {
  }

  function After(p: Profile, sys: System, steps: seq<Step>): System {
    if steps == [] then sys else Next(p, After(p, sys, steps[..|steps| - 1]), steps[|steps| - 1])
  }

  lemma {:induction false} RunKeepsInvariant(p: Profile, sys: System, steps: seq<Step>)
    requires Inv(p, sys)
    ensures Inv(p, After(p, sys, steps)) && Moves(sys.scope, After(p, sys, steps).scope)
  {
    hide Next, Inv;
    if steps != [] {
      var front := steps[..|steps| - 1];
      RunKeepsInvariant(p, sys, front);
      StepKeepsInvariant(p, After(p, sys, front), steps[|steps| - 1]);
      StepMoves(p, After(p, sys, front), steps[|steps| - 1]);
    }
  }

  /**
   Under every interleaving, each release along a run is authorised by the scope at that moment and
   happens before cancellation.
   */
  lemma EveryReleaseIsAuthorised(p: Profile, start: View, steps: seq<Step>, k: nat)
    requires k < |steps|
    requires Released(After(p, System(start, map[]), steps[..k]), steps[k]).Some?
    ensures var sys := After(p, System(start, map[]), steps[..k]);
            && !sys.scope.cancelled
            && steps[k].Reply?
            && Authorises(p, sys.scope, PcOf(sys, steps[k].id).req)
            && NameOf(PcOf(sys, steps[k].id).req) == Released(sys, steps[k])
  {
    RunKeepsInvariant(p, System(start, map[]), steps[..k]);
    ReleaseIsAuthorised(p, After(p, System(start, map[]), steps[..k]), steps[k]);
  }

  /** What authorises a secret by name: the active profile refers to it, or a request for that very secret was allowed. */
  predicate MayHave(p: Profile, v: View, req: Request, name: string) {
    match req
    case Secret(asked) => asked == name && ((v.active && name != "" && name in p.secrets) || name in v.additional)
    case Credential(matched) => matched == Some(name) && v.active && name != "" && name in p.secrets
  }

  /** The names released along a run are exactly those their requests may have at the moment of release. */
  lemma ReleasedMayBeHad(p: Profile, start: View, steps: seq<Step>, k: nat)
    requires k < |steps|
    requires Released(After(p, System(start, map[]), steps[..k]), steps[k]).Some?
    ensures var sys := After(p, System(start, map[]), steps[..k]);
            && steps[k].Reply? && PcOf(sys, steps[k].id).Resolved?
            && MayHave(p, sys.scope, PcOf(sys, steps[k].id).req, Released(sys, steps[k]).value)
  {
    hide After;
    EveryReleaseIsAuthorised(p, start, steps, k);
  }

  /**
   Exactly what a switch does: nothing after cancellation, when the include file is not replaced, or for an
   activation that does not name the scope's own profile; otherwise it sets the activation and moves the
   generation on, and remembers whether the profile was cleared.
   */
  lemma SwitchesExactly(p: Profile, sys: System, activate: bool, name: string, replaced: bool)
    ensures var v, w := sys.scope, Next(p, sys, SwitchStep(activate, name, replaced)).scope;
            var allowed := !v.cancelled && replaced && (activate ==> name == p.name && name != "");
            && w.active == (if allowed then activate else v.active)
            && w.cleared == (if allowed then !activate else v.cleared)
            && w.generation == (if allowed then v.generation + 1 else v.generation)
            && w.additional == v.additional && w.cancelled == v.cancelled
  {
  }

  /** Once closed a scope is never active again, whatever is asked of it. */
  lemma {:induction false} ClosedStaysInactive(p: Profile, sys: System, steps: seq<Step>)
    requires sys.scope.cancelled
    ensures After(p, Next(p, sys, FinishClose), steps).scope.cancelled
    ensures !After(p, Next(p, sys, FinishClose), steps).scope.active
  {
    if steps != [] {
      ClosedStaysInactive(p, sys, steps[..|steps| - 1]);
    }
  }

  /** Steps of other requests and of the scope. */
  predicate Others(steps: seq<Step>, i: nat) {
    forall k :: 0 <= k < |steps| ==>
                  steps[k].SwitchStep? || steps[k].Allow? || steps[k].Cancel? || steps[k].FinishClose? || steps[k].id != i
  }

  lemma {:induction false} OthersKeep(p: Profile, sys: System, steps: seq<Step>, i: nat)
    requires Others(steps, i)
    ensures PcOf(After(p, sys, steps), i) == PcOf(sys, i)
  {
    if steps != [] {
      var front := steps[..|steps| - 1];
      assert forall k :: 0 <= k < |front| ==> front[k] == steps[k];
      OthersKeep(p, sys, front, i);
    }
  }

  /**
   Exactly when a request is answered, whatever else happens in between: it was authorised when it read the
   scope, the secret was found, the client is still there, and since then the scope was neither cancelled
   nor switched. Then it gets its secret.
   */
  lemma AnsweredExactly(p: Profile, sys: System, i: nat, before: seq<Step>, found: bool, after: seq<Step>, alive: bool)
    requires PcOf(sys, i).Arrived? && Others(before, i) && Others(after, i)
    ensures var req := PcOf(sys, i).req;
            var asked := After(p, Next(p, sys, ReadScope(i)), before);
            var last := After(p, Next(p, asked, Resolve(i, found)), after);
            Released(last, Reply(i, alive)) ==
            if && !sys.scope.cancelled && !last.scope.cancelled && last.scope.generation == sys.scope.generation
               && found && alive && NameOf(req).Some? && MayHave(p, sys.scope, req, NameOf(req).value)
            then NameOf(req) else None
  {
    hide After;
    var read := Next(p, sys, ReadScope(i));
    OthersKeep(p, read, before, i);
    var asked := After(p, read, before);
    OthersKeep(p, Next(p, asked, Resolve(i, found)), after, i);
  }

  /** Nothing is released once the scope is cancelled, which is how closing it begins. */
  lemma NothingAfterClose(p: Profile, sys: System, steps: seq<Step>, step: Step)
    requires Inv(p, sys) && sys.scope.cancelled
    ensures Released(After(p, sys, steps), step).None?
  {
    RunKeepsInvariant(p, sys, steps);
  }

  /** Without the generation check a request read before a clear would be answered after it. */
  lemma FenceIsNeeded(secret: string)
    requires secret != ""
    ensures var p := Profile("read", {secret});
            var start := System(View(true, false, 1, {}, false), map[]);
            var late := After(p, start, [Arrive(0, Secret(secret)), ReadScope(0), Resolve(0, true), SwitchStep(false, "", true)]);
            && PcOf(late, 0) == Resolved(Secret(secret), 1, true, false, Some(secret))
            && !Authorises(p, late.scope, Secret(secret))
            && Released(late, Reply(0, true)) == None
  {
    var p := Profile("read", {secret});
    var start := System(View(true, false, 1, {}, false), map[]);
    var s0, s1, s2, s3 := Arrive(0, Secret(secret)), ReadScope(0), Resolve(0, true), SwitchStep(false, "", true);
    assert [s0, s1, s2, s3][..3] == [s0, s1, s2] && [s0, s1, s2][..2] == [s0, s1] && [s0, s1][..1] == [s0] && [s0][..0] == [];
    assert After(p, start, [s0]) == Next(p, start, s0);
    assert After(p, start, [s0, s1]) == Next(p, Next(p, start, s0), s1);
    assert After(p, start, [s0, s1, s2]) == Next(p, Next(p, Next(p, start, s0), s1), s2);
  }
}
