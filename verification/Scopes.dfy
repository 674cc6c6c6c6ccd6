/**
 What entering a scope or an include means for what is resolved and which input secrets are accepted
 inside it (pkg/permissions/policy.go, inputs.go).
 */
module Scopes {
  import opened Text
  import opened Grants
  import opened Policy

  // ---------------------------------------------------------------- grants

  /** An explicit grant replaces whatever was granted and overridden outside, whatever Git secrets there are. */
  lemma ExplicitGrantResolves(rules: NameRules, s: State, spec: Spec, gitSecrets: seq<string>)
    requires spec.jobdb.Some? && EnterScope(rules, s, Some(spec)).Ok?
    ensures var g := spec.jobdb.value;
            Resolved(rules, EnterScope(rules, s, Some(spec)).value, gitSecrets) == Ok(g.(secrets := SortCompact(g.secrets)))
  {
    hide SortCompact, Valid, Subset, Intersect;
  }

  /** An inherit override edits the grant that was resolved outside; without one the grant is kept. */
  lemma InheritEdits(rules: NameRules, s: State, spec: Spec, gitSecrets: seq<string>)
    requires spec.jobdb.None? && (spec.limit.None? || s.grant.Some?)
    requires Resolved(rules, s, gitSecrets).Ok? && EnterScope(rules, s, Some(spec)).Ok?
    ensures var inner := EnterScope(rules, s, Some(spec)).value;
            var before := Resolved(rules, s, gitSecrets).value;
            && Resolved(rules, inner, gitSecrets).Ok?
            && Some(Resolved(rules, inner, gitSecrets).value) ==
               if spec.overrides.Some? && spec.overrides != Some(NoOverrides) then Apply(spec.overrides.value, before) else Some(before)
  {
    hide Apply, ValidOverrides, ValidSpec, Valid, Subset, Intersect, SortCompact, Resolved, BoundedStart;
    var inner := EnterScope(rules, s, Some(spec)).value;
    EnteredResolves(rules, s, Some(spec), false, false);
    AdmissionImpliesResolution(rules, inner, gitSecrets);
    GitSecretsAcceptable(rules, s, gitSecrets);
    ResolvedIsOverridden(rules, s, gitSecrets);
    ResolvedIsOverridden(rules, inner, gitSecrets);
    SameStart(s, inner, gitSecrets);
    if inner.overrides != s.overrides {
      assert inner.overrides[..|inner.overrides| - 1] == s.overrides;
    }
  }

  lemma GitSecretsAcceptable(rules: NameRules, s: State, gitSecrets: seq<string>)
    requires Resolved(rules, s, gitSecrets).Ok?
    ensures s.grant.Some? || AcceptableGitSecrets(rules, gitSecrets)
  {
    hide AcceptableGitSecrets, Valid, Subset, ApplyAll;
    if s.grant.None? {
      GitStartValid(rules, s, gitSecrets);
    }
  }

  /** A resolved grant is the bounded start with the overrides applied. */
  lemma ResolvedIsOverridden(rules: NameRules, s: State, gitSecrets: seq<string>)
    requires Resolved(rules, s, gitSecrets).Ok?
    ensures s.version == Version
    ensures ApplyAll(rules, s.overrides, BoundedStart(s, gitSecrets)) == Resolved(rules, s, gitSecrets)
  {
    hide ApplyAll, Valid, Subset, Intersect, SortCompact;
  }

  lemma SameStart(s: State, t: State, gitSecrets: seq<string>)
    requires s.grant == t.grant && (s.grant.Some? || s.limit == t.limit)
    ensures BoundedStart(s, gitSecrets) == BoundedStart(t, gitSecrets)
  {
    hide Intersect, SortCompact;
  }

  /**
   An include across repositories, or one with a callsite grant, starts afresh: inside, the defaults
   are in force as far as the ceilings allow, and nothing is left of the caller's grant and overrides.
   */
  lemma IncludeStartsAfresh(rules: NameRules, s: State, spec: Option<Spec>, boundary: bool, trusted: bool,
                            gitSecrets: seq<string>, c: Capability)
    requires EnterInclude(rules, s, spec, boundary, trusted).Ok?
    requires boundary || (spec.Some? && spec.value.jobdb.Some?)
    requires spec.Some? ==> spec.value.overrides.None? || spec.value.overrides == Some(NoOverrides)
    requires Resolved(rules, EnterInclude(rules, s, spec, boundary, trusted).value, gitSecrets).Ok?
    ensures var inner := EnterInclude(rules, s, spec, boundary, trusted).value;
            Allows(Resolved(rules, inner, gitSecrets).value, c) <==>
              && Within(inner.limit, c)
              && match c
                 case ResolveSecret(name) => name in gitSecrets
                 case SubmitJob(_) => true
                 case CreateCell(_) => false
  {
    hide Valid, Subset, ValidOverrides;
    var inner := EnterInclude(rules, s, spec, boundary, trusted).value;
    var start := Start(inner, gitSecrets);
    assert inner.grant.None? && inner.overrides == [];
    SortCompactExact(gitSecrets);
    if inner.limit.Some? {
      IntersectExact(start, inner.limit.value, c);
    }
  }

  // ---------------------------------------------------------------- exactly what is resolved

  /** The grant a state resolves to, if it resolves: each field as its last override left it. */
  function LastGrant(s: State, gitSecrets: seq<string>): Grant {
    var start, ps := BoundedStart(s, gitSecrets), s.overrides;
    Grant(LastSecrets(ps, start.secrets),
          Action(LastFlag(ps, SubmitFlag, start.jobs.allowed), LastNames(ps, SubmitFlag, JobCells, start.jobs.names)),
          Action(LastFlag(ps, CreateFlag, start.cells.allowed), LastNames(ps, CreateFlag, NewCells, start.cells.names)))
  }

  /** What overrides start from: the explicit grant, or else the defaults as far as the limit allows. */
  lemma StartAllows(s: State, gitSecrets: seq<string>, c: Capability)
    ensures Allows(BoundedStart(s, gitSecrets), c) <==>
              if s.grant.Some? then Allows(s.grant.value, c)
              else
                && Within(s.limit, c)
                && match c
                   case ResolveSecret(name) => name in gitSecrets
                   case SubmitJob(_) => true
                   case CreateCell(_) => false
  {
    SortCompactExact(gitSecrets);
    if s.grant.Some? {
      SortCompactExact(s.grant.value.secrets);
    } else if s.limit.Some? {
      IntersectExact(Start(s, gitSecrets), s.limit.value, c);
    }
  }

  /**
   A state resolves exactly when its version, its starting grant, its limit and its overrides are valid and
   what the overrides leave is valid and lies within the limit; and that is what it resolves to.
   */
  lemma ResolvesExactly(rules: NameRules, s: State, gitSecrets: seq<string>)
    ensures var last := LastGrant(s, gitSecrets);
            && (Resolved(rules, s, gitSecrets).Ok? ==> Resolved(rules, s, gitSecrets).value == last)
            && (Resolved(rules, s, gitSecrets).Ok? <==>
                  && s.version == 1 && Valid(rules, Start(s, gitSecrets)) && (s.limit.Some? ==> Valid(rules, s.limit.value))
                  && (forall p :: p in s.overrides ==> Acceptable(rules, p))
                  && Valid(rules, last) && forall c :: Allows(last, c) ==> Within(s.limit, c))
  {
    hide Valid, Subset, Acceptable, ApplyAll, Intersect, SortCompact, Allows, LastSecrets, LastFlag, LastNames;
    var start := BoundedStart(s, gitSecrets);
    AppliesExactly(rules, s.overrides, start);
    if ApplyAll(rules, s.overrides, start).Ok? {
      ApplyAllFields(rules, s.overrides, start);
      var g := ApplyAll(rules, s.overrides, start).value;
      assert g == LastGrant(s, gitSecrets);
      if s.limit.Some? && Valid(rules, g) {
        SubsetExactWhenValid(rules, g, s.limit.value);
      }
    }
  }

  /** How a state is refused: by its version, its starting grant, its limit, an override, what they leave, or the limit again. */
  lemma ResolveRefused(rules: NameRules, s: State, gitSecrets: seq<string>)
    ensures var result, last := Resolved(rules, s, gitSecrets), LastGrant(s, gitSecrets);
            var limited := s.limit.Some? ==> Valid(rules, s.limit.value);
            var overridden := forall p :: p in s.overrides ==> Acceptable(rules, p);
            var started := s.version == 1 && Valid(rules, Start(s, gitSecrets));
            && (result == Err(BadVersion) <==> s.version != 1)
            && (result == Err(BadGrant) <==>
                  s.version == 1 && (!started || (limited && overridden && !Valid(rules, last))))
            && (result == Err(BadLimit) <==> started && !limited)
            && (result == Err(BadOverride) <==> started && limited && !overridden)
            && (result == Err(ExceedsLimit) <==>
                  started && limited && overridden && Valid(rules, last) && exists c :: Allows(last, c) && !Within(s.limit, c))
  {
    hide Valid, Subset, Acceptable, ApplyAll, Intersect, SortCompact, Allows, LastSecrets, LastFlag, LastNames;
    var start := BoundedStart(s, gitSecrets);
    AppliesExactly(rules, s.overrides, start);
    if ApplyAll(rules, s.overrides, start).Ok? {
      ApplyAllFields(rules, s.overrides, start);
      if s.limit.Some? && Valid(rules, LastGrant(s, gitSecrets)) {
        SubsetExactWhenValid(rules, LastGrant(s, gitSecrets), s.limit.value);
      }
    } else {
      OverrideRefused(rules, s.overrides, start);
    }
  }

  lemma {:induction false} OverrideRefused(rules: NameRules, ps: seq<Overrides>, g: Grant)
    requires ApplyAll(rules, ps, g).Err?
    ensures ApplyAll(rules, ps, g) == Err(BadOverride)
  {
    hide Apply, ValidOverrides;
    if ps != [] && ApplyAll(rules, ps[..|ps| - 1], g).Err? {
      OverrideRefused(rules, ps[..|ps| - 1], g);
    }
  }

  /** How an include is refused: by its callsite, for want of a ceiling, for an input secret, or because nothing resolves inside. */
  lemma IncludeRefused(rules: NameRules, s: State, spec: Option<Spec>, boundary: bool, trusted: bool)
    ensures var result := EnterInclude(rules, s, spec, boundary, trusted);
            var badSpec := spec.Some? && !ValidSpec(rules, spec.value);
            var bare := boundary && (spec.None? || (spec.value.jobdb.None? && spec.value.limit.None?));
            var denied := spec.Some? && exists n :: n in RequestedInputs(spec.value) && !InputAllowed(s, n);
            && (badSpec ==> result == Err(BadSpec))
            && (result == Err(NeedsCeiling) <==> !badSpec && bare)
            && (result == Err(InputDenied) <==> !badSpec && !bare && denied)
  {
    hide ValidSpec, InputAllowed;
    assert forall t :: Checked(rules, t).Err? ==> Checked(rules, t).error != NeedsCeiling && Checked(rules, t).error != InputDenied by {
      forall t
        ensures Checked(rules, t).Err? ==> Checked(rules, t).error != NeedsCeiling && Checked(rules, t).error != InputDenied
      {
        ResolveRefused(rules, t, []);
        OnlyResolveErrors(rules, t);
      }
    }
    hide Checked;
  }

  lemma OnlyResolveErrors(rules: NameRules, s: State)
    ensures Resolved(rules, s, []).Err? ==> Resolved(rules, s, []).error in [BadVersion, BadGrant, BadLimit, BadOverride, ExceedsLimit]
  {
    hide Valid, Subset, ApplyAll, Intersect, SortCompact;
    if ApplyAll(rules, s.overrides, BoundedStart(s, [])).Err? {
      OverrideRefused(rules, s.overrides, BoundedStart(s, []));
    }
  }

  /** What a resolved grant permits for each cell and each secret, override by override. */
  lemma ResolvedAllowsExactly(rules: NameRules, s: State, gitSecrets: seq<string>, name: string)
    requires Resolved(rules, s, gitSecrets).Ok?
    ensures var g, start, ps := Resolved(rules, s, gitSecrets).value, BoundedStart(s, gitSecrets), s.overrides;
            && (Allows(g, ResolveSecret(name)) <==> name in LastSecrets(ps, start.secrets))
            && (Allows(g, SubmitJob(name)) <==>
                  && LastFlag(ps, SubmitFlag, start.jobs.allowed)
                  && var names := LastNames(ps, SubmitFlag, JobCells, start.jobs.names);
                     names.Some? ==> name in names.value)
            && (Allows(g, CreateCell(name)) <==>
                  && LastFlag(ps, CreateFlag, start.cells.allowed)
                  && var names := LastNames(ps, CreateFlag, NewCells, start.cells.names);
                     names.Some? ==> name in names.value)
  {
    hide Resolved, LastSecrets, LastFlag, LastNames, BoundedStart;
    ResolvesExactly(rules, s, gitSecrets);
  }

  // ---------------------------------------------------------------- exactly when a scope can be entered

  /** A scope with a grant of its own can be entered exactly when the grant lies within both limits. */
  lemma GrantEntersExactly(rules: NameRules, s: State, spec: Spec)
    requires ValidSpec(rules, spec) && spec.jobdb.Some? && (s.limit.Some? ==> Valid(rules, s.limit.value))
    ensures EnterScope(rules, s, Some(spec)).Ok? <==>
              forall c :: Allows(spec.jobdb.value, c) ==> Within(s.limit, c) && Within(spec.limit, c)
  {
    hide Valid, Subset, Intersect, SortCompact, ValidOverrides;
    var g, limit := spec.jobdb.value, Narrowed(s.limit, spec.limit);
    var entered := s.(version := Version, grant := Some(g), overrides := [], limit := limit);
    forall c
      ensures Within(limit, c) <==> Within(s.limit, c) && Within(spec.limit, c)
    {
      NarrowedExact(s.limit, spec.limit, c);
    }
    if s.limit.Some? && spec.limit.Some? {
      IntersectValid(rules, spec.limit.value, s.limit.value);
    }
    assert EnterScope(rules, s, Some(spec)).Ok? <==> Resolved(rules, entered, []).Ok?;
    SortedSecrets(rules, g);
    ResolvesExactly(rules, entered, []);
    assert LastGrant(entered, []) == g.(secrets := SortCompact(g.secrets));
  }

  /** The defaults of a fresh include always lie within its ceilings. */
  lemma FreshResolves(rules: NameRules, s: State)
    requires s.version == Version && s.grant.None? && s.overrides == [] && (s.limit.Some? ==> Valid(rules, s.limit.value))
    ensures Resolved(rules, s, []).Ok?
  {
    var start := Start(s, []);
    assert SortCompact([]) == [];
    NoNames(rules.secret);
    assert Valid(rules, start);
    hide Valid, Intersect, SortCompact;
    if s.limit.Some? {
      IntersectValid(rules, start, s.limit.value);
    }
    ResolvesExactly(rules, s, []);
    assert LastGrant(s, []) == BoundedStart(s, []);
    forall c | Allows(BoundedStart(s, []), c)
      ensures Within(s.limit, c)
    {
      StartAllows(s, [], c);
    }
  }

  /**
   An include across repositories, or one with a callsite grant, can be entered exactly when the callsite
   is valid, across repositories has a ceiling, and names only input secrets that the caller accepts.
   */
  lemma IncludeEntersExactly(rules: NameRules, s: State, spec: Option<Spec>, boundary: bool, trusted: bool)
    requires boundary || (spec.Some? && spec.value.jobdb.Some?)
    requires spec.Some? ==> spec.value.overrides.None? || spec.value.overrides == Some(NoOverrides)
    requires s.limit.Some? ==> Valid(rules, s.limit.value)
    ensures EnterInclude(rules, s, spec, boundary, trusted).Ok? <==>
              && (spec.Some? ==> ValidSpec(rules, spec.value))
              && (boundary ==> spec.Some? && (spec.value.jobdb.Some? || spec.value.limit.Some?))
              && (spec.Some? && spec.value.jobdb.Some? ==> forall n :: n in spec.value.jobdb.value.secrets ==> InputAllowed(s, n))
  {
    hide Valid, Intersect, ValidOverrides, InputAllowed;
    var limit := if spec.None? then s.limit else Narrowed(Narrowed(s.limit, spec.value.jobdb), spec.value.limit);
    if spec.Some? && ValidSpec(rules, spec.value) {
      NarrowedValid(rules, s.limit, spec.value.jobdb);
      NarrowedValid(rules, Narrowed(s.limit, spec.value.jobdb), spec.value.limit);
    }
    var fresh' := s.(version := Version, grant := None, overrides := [], limit := limit,
                     inputs := Some(IncludeInputs(s, spec, boundary, trusted)));
    if spec.Some? ==> ValidSpec(rules, spec.value) {
      FreshResolves(rules, fresh');
    }
    hide Resolved;
    assert Narrowed(limit, None) == limit;
  }

  lemma NarrowedValid(rules: NameRules, limit: Option<Grant>, ceiling: Option<Grant>)
    requires (limit.Some? ==> Valid(rules, limit.value)) && (ceiling.Some? ==> Valid(rules, ceiling.value))
    ensures Narrowed(limit, ceiling).Some? ==> Valid(rules, Narrowed(limit, ceiling).value)
  {
    hide Valid, Intersect;
    if limit.Some? && ceiling.Some? {
      IntersectValid(rules, ceiling.value, limit.value);
    }
  }

  // ---------------------------------------------------------------- input secrets

  /**
   The input secrets a state accepts, if it resolves: within the limit those an include entrusted, all of
   them in a trusted one, and those the state resolves itself, Git secrets aside.
   */
  lemma InputsExactly(rules: NameRules, s: State, name: string)
    requires Resolved(rules, s, []).Ok? && name != ""
    ensures InputAllowed(s, name) <==>
              || Allows(Resolved(rules, s, []).value, ResolveSecret(name))
              || (Within(s.limit, ResolveSecret(name)) && s.inputs.Some? && (!s.inputs.value.foreign || name in s.inputs.value.allowed))
  {
    hide Resolved, Valid, Subset, Intersect;
    ResolvesExactly(rules, s, []);
    if s.grant.Some? {
      SortCompactExact(s.grant.value.secrets);
    } else {
      StartAllows(s, [], ResolveSecret(name));
    }
    ExplicitIsLast(rules, s.grant, s.overrides, BoundedStart(s, []).secrets, name);
    if Allows(Resolved(rules, s, []).value, ResolveSecret(name)) {
      ResolvedWithinLimit(rules, s, [], ResolveSecret(name));
    }
  }

  lemma {:induction false} ExplicitIsLast(rules: NameRules, grant: Option<Grant>, ps: seq<Overrides>, start: seq<string>, name: string)
    requires forall p :: p in ps ==> Acceptable(rules, p)
    requires name in start <==> grant.Some? && name in grant.value.secrets
    ensures name in ExplicitSecrets(grant, ps) <==> name in LastSecrets(ps, start)
  {
    if ps != [] {
      var front, last := ps[..|ps| - 1], ps[|ps| - 1];
      assert ps == front + [last] && Acceptable(rules, last);
      ExplicitIsLast(rules, grant, front, start, name);
    }
  }

  /** A trusted include accepts every input secret within its ceilings. */
  lemma TrustedIncludeInputs(rules: NameRules, s: State, spec: Option<Spec>, boundary: bool, name: string)
    requires EnterInclude(rules, s, spec, boundary, true).Ok?
    ensures InputAllowed(EnterInclude(rules, s, spec, boundary, true).value, name) <==>
              name == "" || Within(EnterInclude(rules, s, spec, boundary, true).value.limit, ResolveSecret(name))
  {
    hide Valid, ValidOverrides, Resolved;
  }

  /** An untrusted include accepts exactly, within its ceilings, what was entrusted before, what its callsite names, and what stays explicit. */
  lemma UntrustedIncludeInputs(rules: NameRules, s: State, spec: Option<Spec>, boundary: bool, name: string)
    requires EnterInclude(rules, s, spec, boundary, false).Ok? && name != ""
    ensures var inner := EnterInclude(rules, s, spec, boundary, false).value;
            var named := spec.Some? && name in RequestedInputs(spec.value);
            var replaced := boundary || (spec.Some? && spec.value.jobdb.Some?);
            var listed := spec.Some? && spec.value.overrides.Some? && spec.value.overrides.value.secrets.Listed?;
            InputAllowed(inner, name) <==>
              && Within(inner.limit, ResolveSecret(name))
              && (|| named
                  || (!boundary && s.inputs.Some? && name in s.inputs.value.allowed)
                  || (!replaced && !listed && name in ExplicitSecrets(s.grant, s.overrides)))
  {
    hide Valid, Resolved, ExplicitSecrets;
    IncludedOverrides(rules, s, spec, boundary, false);
  }

  /** An untrusted include across repositories accepts exactly what its callsite names, within the ceilings. */
  lemma BoundaryDelegatesOnlyNamed(rules: NameRules, s: State, spec: Spec, name: string)
    requires EnterInclude(rules, s, Some(spec), true, false).Ok? && name != ""
    ensures InputAllowed(EnterInclude(rules, s, Some(spec), true, false).value, name) <==>
              && name in RequestedInputs(spec)
              && Within(EnterInclude(rules, s, Some(spec), true, false).value.limit, ResolveSecret(name))
  {
    hide Valid, Resolved;
    var inner := EnterInclude(rules, s, Some(spec), true, false).value;
    IncludedOverrides(rules, s, Some(spec), true, false);
  }

  /** The last override of the inner state is the callsite's own, or there is nothing new. */
  lemma IncludedOverrides(rules: NameRules, s: State, spec: Option<Spec>, boundary: bool, trusted: bool)
    requires EnterInclude(rules, s, spec, boundary, trusted).Ok?
    ensures var inner := EnterInclude(rules, s, spec, boundary, trusted).value;
            var outer := if boundary || (spec.Some? && spec.value.jobdb.Some?) then [] else ExplicitSecrets(s.grant, s.overrides);
            ExplicitSecrets(inner.grant, inner.overrides) ==
            if spec.Some? && spec.value.overrides.Some? && spec.value.overrides.value.secrets.Listed?
            then spec.value.overrides.value.secrets.names else outer
  {
    hide Valid, Resolved;
    var inner := EnterInclude(rules, s, spec, boundary, trusted).value;
    var reset := boundary || (spec.Some? && spec.value.jobdb.Some?);
    var before := if reset then [] else s.overrides;
    if spec.Some? && spec.value.overrides.Some? {
      var p := spec.value.overrides.value;
      assert !p.secrets.Null?;
      assert (before + [p])[..|before|] == before;
    }
  }

  /** An untrusted include accepts no input secret that its caller would not have accepted. */
  lemma UntrustedIncludeNeverWidensInputs(rules: NameRules, s: State, spec: Option<Spec>, boundary: bool, name: string)
    requires EnterInclude(rules, s, spec, boundary, false).Ok?
    requires InputAllowed(EnterInclude(rules, s, spec, boundary, false).value, name)
    ensures InputAllowed(s, name)
  {
    var inner := EnterInclude(rules, s, spec, boundary, false).value;
    StepNarrows(rules, s, IncludeStep(spec, boundary, false), ResolveSecret(name));
    IncludedOverrides(rules, s, spec, boundary, false);
    hide Valid, Resolved, ExplicitSecrets, Intersect;
    assert inner.inputs == Some(IncludeInputs(s, spec, boundary, false));
    assert spec.Some? && name in RequestedInputs(spec.value) ==> InputAllowed(s, name);
  }

  predicate Untrusted(step: Step) {
    step.Boundary? || (step.IncludeStep? && !step.trusted)
  }

  /** However deeply untrusted includes are nested, they accept only input secrets the outermost caller accepts. */
  lemma {:induction false} UntrustedRunNeverWidensInputs(rules: NameRules, s: State, steps: seq<Step>, name: string)
    requires Run(rules, s, steps).Ok? && forall i :: 0 <= i < |steps| ==> Untrusted(steps[i])
    requires InputAllowed(Run(rules, s, steps).value, name)
    ensures InputAllowed(s, name)
  {
    hide InputAllowed, EnterInclude;
    if steps != [] {
      var front, last := steps[..|steps| - 1], steps[|steps| - 1];
      assert forall i :: 0 <= i < |front| ==> front[i] == steps[i];
      var before := Run(rules, s, front).value;
      assert Untrusted(last);
      UntrustedIncludeNeverWidensInputs(rules, before, last.spec, last.Boundary? || last.boundary, name);
      UntrustedRunNeverWidensInputs(rules, s, front, name);
    }
  }
}
