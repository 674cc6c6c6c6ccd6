/**
 Administrative hook grants (pkg/hookpolicy/policy.go) and the ceiling they put on child jobs
 (pkg/executionruntime/permissions.go).
 */
module HookPolicy {
  import opened Text
  import opened Grants
  import opened Policy
  import Scopes

  datatype Trust = Trust(mode: string, commit: string) {
    predicate Valid() {
      (mode == "candidate" && commit == "") || (mode == "commit" && IsCommit(commit))
    }

    predicate Covers(candidate: string) {
      mode == "candidate" || (mode == "commit" && commit == candidate)
    }
  }

  /** A full lowercase commit hash. */
  predicate IsCommit(s: string) {
    |s| == 40 && forall i :: 0 <= i < |s| ==> '0' <= s[i] <= '9' || 'a' <= s[i] <= 'f'
  }

  datatype SourceTrust = SourceTrust(secrets: map<string, Trust>, submit: Option<Trust>, create: Option<Trust>)

  datatype Entry = Entry(perms: Spec, trust: SourceTrust) {
    function Grant(): Grant {
      if perms.jobdb.Some? then perms.jobdb.value else NoGrant
    }
  }

  datatype Refusal = InvalidEntry | Untrusted(what: Kind) | InvalidCall | Denied(denial: Denial)

  datatype Kind = Secrets | Submission | Creation

  /** Entry.Validate: every granted capability, and nothing else, has a source trust. */
  predicate ValidEntry(rules: NameRules, e: Entry) {
    var g := e.Grant();
    && !e.perms.inherit
    && ValidSpec(rules, e.perms)
    && EnterScope(rules, Initial, Some(e.perms)).Ok?
    && (forall n :: n in g.secrets ==> n in e.trust.secrets && e.trust.secrets[n].Valid())
    && (forall n :: n in e.trust.secrets ==> n in g.secrets)
    && (g.jobs.allowed <==> e.trust.submit.Some?)
    && (e.trust.submit.Some? ==> e.trust.submit.value.Valid())
    && (g.cells.allowed <==> e.trust.create.Some?)
    && (e.trust.create.Some? ==> e.trust.create.value.Valid())
  }

  /** The trust a valid entry records for a capability it grants. */
  function TrustFor(e: Entry, c: Capability): Option<Trust> {
    match c
    case ResolveSecret(name) => if name in e.trust.secrets then Some(e.trust.secrets[name]) else None
    case SubmitJob(_) => e.trust.submit
    case CreateCell(_) => e.trust.create
  }

  predicate Trusted(e: Entry, c: Capability, commit: string) {
    TrustFor(e, c).Some? && TrustFor(e, c).value.Covers(commit)
  }

  predicate CandidateTrusted(e: Entry, c: Capability) {
    TrustFor(e, c).Some? && TrustFor(e, c).value.mode == "candidate"
  }

  function Ceilings(e: Entry, parent: State, call: Option<Spec>): seq<Option<Grant>> {
    [parent.limit, e.perms.limit] + if call.Some? then [call.value.jobdb, call.value.limit] else []
  }

  function Cut(g: Grant, ceilings: seq<Option<Grant>>): Grant {
    if ceilings == [] then g
    else
      var before, last := Cut(g, ceilings[..|ceilings| - 1]), ceilings[|ceilings| - 1];
      if last.Some? then Intersect(before, last.value) else before
  }

  /** The loop over `limits` in Authority. */
  method CutLoop(g: Grant, ceilings: seq<Option<Grant>>) returns (out: Grant)
    ensures out == Cut(g, ceilings)
  {
    out := g;
    for i := 0 to |ceilings|
      invariant out == Cut(g, ceilings[..i])
    {
      assert ceilings[..i + 1][..i] == ceilings[..i];
      if ceilings[i].Some? {
        out := Intersect(out, ceilings[i].value);
      }
    }
    assert ceilings[..|ceilings|] == ceilings;
  }

  function CandidateSecrets(e: Entry, names: seq<string>): seq<string> {
    if names == [] then []
    else
      var front, n := CandidateSecrets(e, names[..|names| - 1]), names[|names| - 1];
      if n in e.trust.secrets && e.trust.secrets[n].mode == "candidate" then front + [n] else front
  }

  function CandidateAction(a: Action, trust: Option<Trust>): Action {
    if a.allowed && trust.Some? && trust.value.mode == "candidate" then Action(true, a.names) else Forbidden
  }

  /** What the hook may entrust to arbitrary child bodies. */
  function ChildGrant(e: Entry, g: Grant): Grant {
    Grants.Grant(CandidateSecrets(e, g.secrets), CandidateAction(g.jobs, e.trust.submit), CandidateAction(g.cells, e.trust.create))
  }

  function HookState(e: Entry, g: Grant): State {
    State(Version, Some(g), Some(g), Some(InputPolicy("", true, g.secrets)), [], Some(ChildGrant(e, g)), None)
  }

  /** Entry.Authority. */
  function Authority(rules: NameRules, e: Entry, commit: string, parent: State, call: Option<Spec>): Result<State, Refusal> {
    var own := e.Grant();
    if !ValidEntry(rules, e) then Err(InvalidEntry)
    else if exists n :: n in own.secrets && !e.trust.secrets[n].Covers(commit) then Err(Untrusted(Secrets))
    else if own.jobs.allowed && !e.trust.submit.value.Covers(commit) then Err(Untrusted(Submission))
    else if own.cells.allowed && !e.trust.create.value.Covers(commit) then Err(Untrusted(Creation))
    else if call.Some? && !ValidSpec(rules, call.value) then Err(InvalidCall)
    else
      var s := HookState(e, Cut(own, Ceilings(e, parent, call)));
      if call.Some? && call.value.inherit then
        match EnterScope(rules, s, Some(Spec(None, None, true, call.value.overrides)))
        case Err(d) => Err(Denied(d))
        case Ok(entered) => Ok(entered)
      else Ok(s)
  }

  // ---------------------------------------------------------------- the hook's authority is bounded

  lemma {:induction false} CutExact(g: Grant, ceilings: seq<Option<Grant>>, c: Capability)
    ensures Allows(Cut(g, ceilings), c) <==> Allows(g, c) && forall i :: 0 <= i < |ceilings| ==> Within(ceilings[i], c)
  {
    if ceilings != [] {
      var front, last := ceilings[..|ceilings| - 1], ceilings[|ceilings| - 1];
      CutExact(g, front, c);
      assert forall i :: 0 <= i < |front| ==> front[i] == ceilings[i];
      if last.Some? {
        IntersectExact(Cut(g, front), last.value, c);
      }
    }
  }

  lemma {:induction false} CutValid(rules: NameRules, g: Grant, ceilings: seq<Option<Grant>>)
    requires Valid(rules, g)
    requires forall i :: 0 <= i < |ceilings| && ceilings[i].Some? ==> Valid(rules, ceilings[i].value)
    ensures Valid(rules, Cut(g, ceilings))
  {
    if ceilings != [] {
      var front, last := ceilings[..|ceilings| - 1], ceilings[|ceilings| - 1];
      assert forall i :: 0 <= i < |front| ==> front[i] == ceilings[i];
      CutValid(rules, g, front);
      if last.Some? {
        IntersectValid(rules, Cut(g, front), last.value);
      }
    }
  }

  /** The limit of a hook's state, also after inherit overrides. */
  lemma AuthorityLimit(rules: NameRules, e: Entry, commit: string, parent: State, call: Option<Spec>)
    requires Authority(rules, e, commit, parent, call).Ok?
    ensures var s, g := Authority(rules, e, commit, parent, call).value, Cut(e.Grant(), Ceilings(e, parent, call));
            s.limit == Some(g) && s.grant == Some(g) && s.childGrant == Some(ChildGrant(e, g)) && s.version == Version
  {
  }

  /**
   The authority a hook runs with, inherit overrides included, always lies within the hook's own
   grant and trust, its own limit, the parent limit and both callsite ceilings.
   */
  lemma AuthorityBounded(rules: NameRules, e: Entry, commit: string, parent: State, call: Option<Spec>,
                         gitSecrets: seq<string>, c: Capability)
    requires Authority(rules, e, commit, parent, call).Ok?
    requires var s := Authority(rules, e, commit, parent, call).value;
             Resolved(rules, s, gitSecrets).Ok? && Allows(Resolved(rules, s, gitSecrets).value, c)
    ensures Allows(e.Grant(), c) && Trusted(e, c, commit)
    ensures Within(e.perms.limit, c) && Within(parent.limit, c)
    ensures call.Some? ==> Within(call.value.jobdb, c) && Within(call.value.limit, c)
  {
    hide Resolved, EnterScope, ValidSpec;
    var ceilings := Ceilings(e, parent, call);
    AuthorityLimit(rules, e, commit, parent, call);
    ResolvedWithinLimit(rules, Authority(rules, e, commit, parent, call).value, gitSecrets, c);
    CutExact(e.Grant(), ceilings, c);
    assert Within(ceilings[0], c) && Within(ceilings[1], c);
    if call.Some? {
      assert Within(ceilings[2], c) && Within(ceilings[3], c);
    }
  }

  /** The edits of one action stay within what that action allows. */
  predicate ActionFits(flag: Option<bool>, cells: ListField, a: Action) {
    && (flag == Some(true) || cells.Listed? ==> a.allowed)
    && (cells.Listed? && a.names.Some? ==> AllIn(cells.names, a.names.value))
  }

  /** Overrides that ask for nothing beyond the grant they edit. */
  predicate Fits(p: Overrides, g: Grant) {
    && (p.secrets.Listed? ==> AllIn(p.secrets.names, g.secrets))
    && ActionFits(p.submit, p.jobCells, g.jobs)
    && ActionFits(p.create, p.newCells, g.cells)
  }

  lemma ActionFitsExactly(rules: NameRules, a: Action, flag: Option<bool>, cells: ListField)
    requires ValidAction(rules, a) && ApplyAction(Action(true, None), flag, cells).Some?
    requires ValidAction(rules, ApplyAction(Action(true, None), flag, cells).value)
    ensures ApplyAction(a, flag, cells).Some?
    ensures var out := ApplyAction(a, flag, cells).value;
            && (ActionFits(flag, cells, a) <==> ValidAction(rules, out) && SubsetJobs(out, a))
            && (SubsetJobs(out, a) <==> SubsetCells(out, a))
  {
  }

  lemma OverridesFitExactly(rules: NameRules, g: Grant, p: Overrides)
    requires Valid(rules, g) && ValidOverrides(rules, p)
    ensures var sorted := g.(secrets := SortCompact(g.secrets));
            && Apply(p, sorted).Some?
            && (Fits(p, g) <==> Valid(rules, Apply(p, sorted).value) && Subset(Apply(p, sorted).value, g))
  {
    hide ActionFits, ValidAction, ApplyAction, SubsetJobs, SubsetCells, SortCompact;
    ActionFitsExactly(rules, g.jobs, p.submit, p.jobCells);
    ActionFitsExactly(rules, g.cells, p.create, p.newCells);
    SortCompactExact(g.secrets);
    SortCompactLength(g.secrets);
  }

  lemma NoOverridesFit(g: Grant)
    ensures Fits(NoOverrides, g)
  {
  }

  /** The overrides that an inherit step of a hook leaves to resolve. */
  function Edits(overrides: Option<Overrides>): seq<Overrides> {
    if overrides.Some? && overrides != Some(NoOverrides) then [overrides.value] else []
  }

  lemma InheritResolves(rules: NameRules, e: Entry, g: Grant, overrides: Option<Overrides>)
    requires overrides.Some? ==> ValidOverrides(rules, overrides.value)
    ensures EnterScope(rules, HookState(e, g), Some(Spec(None, None, true, overrides))).Ok? <==>
              Resolved(rules, HookState(e, g).(overrides := Edits(overrides)), []).Ok?
  {
    hide Resolved, Valid, ValidOverrides, ChildGrant;
    assert [] + Edits(overrides) == Edits(overrides);
  }

  lemma EditsApply(rules: NameRules, p: Overrides, g: Grant)
    requires ValidOverrides(rules, p) && Apply(p, g).Some?
    ensures ApplyAll(rules, [p], g) == Ok(Apply(p, g).value)
  {
    hide Apply, ValidOverrides;
    assert [p][..0] == [];
  }

  /** A state whose grant is its limit resolves exactly when the grant is valid and the edits keep it valid and within. */
  lemma EditedResolves(rules: NameRules, s: State, g: Grant)
    requires s.version == Version && s.grant == Some(g) && s.limit == Some(g)
    ensures var edited := ApplyAll(rules, s.overrides, g.(secrets := SortCompact(g.secrets)));
            Resolved(rules, s, []).Ok? <==>
              Valid(rules, g) && edited.Ok? && Valid(rules, edited.value) && Subset(edited.value, g)
  {
    hide Valid, Subset, SortCompact, ApplyAll;
    if Valid(rules, g) {
      SortedSecrets(rules, g);
    }
  }

  /** Inherit overrides can be entered exactly when they fit the grant of the hook, cut by its ceilings. */
  lemma InheritFitsExactly(rules: NameRules, e: Entry, g: Grant, overrides: Option<Overrides>)
    requires overrides.Some? ==> ValidOverrides(rules, overrides.value)
    ensures EnterScope(rules, HookState(e, g), Some(Spec(None, None, true, overrides))).Ok? <==>
              Valid(rules, g) && (overrides.Some? ==> Fits(overrides.value, g))
  {
    hide EnterScope, Resolved, Valid, Subset, Fits, SortCompact, Apply, ValidOverrides, ChildGrant;
    InheritResolves(rules, e, g, overrides);
    EditedResolves(rules, HookState(e, g).(overrides := Edits(overrides)), g);
    NoOverridesFit(g);
    if Valid(rules, g) {
      SortedSecrets(rules, g);
      if overrides.Some? && overrides != Some(NoOverrides) {
        OverridesFitExactly(rules, g, overrides.value);
        EditsApply(rules, overrides.value, g.(secrets := SortCompact(g.secrets)));
      }
    }
  }

  /**
   A hook gets authority exactly when its entry and the callsite are valid, every capability it is
   granted is trusted for the candidate, and inherit overrides of the callsite ask for nothing beyond
   the hook's grant, cut by its ceilings.
   */
  lemma AuthorityExactly(rules: NameRules, e: Entry, commit: string, parent: State, call: Option<Spec>)
    ensures var cut := Cut(e.Grant(), Ceilings(e, parent, call));
            Authority(rules, e, commit, parent, call).Ok? <==>
              && ValidEntry(rules, e) && (call.Some? ==> ValidSpec(rules, call.value))
              && (forall c :: Allows(e.Grant(), c) ==> Trusted(e, c, commit))
              && (call.Some? && call.value.inherit ==>
                    Valid(rules, cut) && (call.value.overrides.Some? ==> Fits(call.value.overrides.value, cut)))
  {
    hide EnterScope, ValidOverrides, Cut, Ceilings, Valid, Fits;
    if ValidEntry(rules, e) {
      SomeCapability(rules, e, commit);
      if call.Some? && ValidSpec(rules, call.value) {
        InheritFitsExactly(rules, e, Cut(e.Grant(), Ceilings(e, parent, call)), call.value.overrides);
      }
    }
  }

  /** Trust for this candidate: for any candidate, or by the full hash of its very commit. */
  predicate Names(t: Trust, candidate: string) {
    || (t.mode == "candidate" && t.commit == "")
    || (t.mode == "commit" && t.commit == candidate && |candidate| == 40
        && forall i :: 0 <= i < 40 ==> candidate[i] in "0123456789abcdef")
  }

  /** An entry that is given authority records, for each capability it grants, a trust that names the candidate. */
  lemma AuthorityNamesCandidate(rules: NameRules, e: Entry, commit: string, parent: State, call: Option<Spec>, c: Capability)
    requires Authority(rules, e, commit, parent, call).Ok? && Allows(e.Grant(), c)
    ensures match c
            case ResolveSecret(name) => name in e.trust.secrets && Names(e.trust.secrets[name], commit)
            case SubmitJob(_) => e.trust.submit.Some? && Names(e.trust.submit.value, commit)
            case CreateCell(_) => e.trust.create.Some? && Names(e.trust.create.value, commit)
  {
    hide EnterScope, ValidSpec;
    HashCharacters(commit);
  }

  lemma HashCharacters(s: string)
    ensures IsCommit(s) <==> |s| == 40 && forall i :: 0 <= i < 40 ==> s[i] in "0123456789abcdef"
  {
    forall c: char
      ensures c in "0123456789abcdef" <==> '0' <= c <= '9' || 'a' <= c <= 'f'
    {
      HexCharacter(c);
    }
  }

  lemma HexCharacter(c: char)
    ensures c in "0123456789abcdef" <==> '0' <= c <= '9' || 'a' <= c <= 'f'
  {
    var hex := "0123456789abcdef";
    if '0' <= c <= '9' {
      assert hex[(c - '0') as int] == c;
    }
    if 'a' <= c <= 'f' {
      assert hex[10 + (c - 'a') as int] == c;
    }
  }

  /** Which entries are valid: complete grants within their own limit, with a valid trust for exactly what they grant. */
  lemma EntryValidExactly(rules: NameRules, e: Entry)
    ensures ValidEntry(rules, e) <==>
              && !e.perms.inherit && ValidSpec(rules, e.perms)
              && (forall c :: Allows(e.Grant(), c) ==> Within(e.perms.limit, c))
              && (forall n :: n in e.trust.secrets <==> n in e.Grant().secrets)
              && (forall n :: n in e.trust.secrets ==> e.trust.secrets[n].Valid())
              && (e.trust.submit.Some? <==> e.Grant().jobs.allowed) && (e.trust.submit.Some? ==> e.trust.submit.value.Valid())
              && (e.trust.create.Some? <==> e.Grant().cells.allowed) && (e.trust.create.Some? ==> e.trust.create.value.Valid())
  {
    hide EnterScope, ValidSpec;
    if ValidSpec(rules, e.perms) && !e.perms.inherit {
      OwnLimitExactly(rules, e);
    }
  }

  lemma OwnLimitExactly(rules: NameRules, e: Entry)
    requires ValidSpec(rules, e.perms) && !e.perms.inherit
    ensures EnterScope(rules, Initial, Some(e.perms)).Ok? <==> forall c :: Allows(e.Grant(), c) ==> Within(e.perms.limit, c)
  {
    if e.perms.jobdb.Some? {
      Scopes.GrantEntersExactly(rules, Initial, e.perms);
      assert forall c :: Within(Initial.limit, c);
    } else {
      Scopes.FreshResolves(rules, Initial.(limit := e.perms.limit));
      hide Resolved, Valid;
      assert EnterScope(rules, Initial, Some(e.perms)) == Checked(rules, Initial.(limit := e.perms.limit));
      assert forall c :: !Allows(NoGrant, c);
    }
  }

  /** How a hook is refused: by its entry, then for a secret, submission or creation not trusted for the candidate, then by the callsite. */
  lemma AuthorityRefused(rules: NameRules, e: Entry, commit: string, parent: State, call: Option<Spec>)
    ensures var result, own := Authority(rules, e, commit, parent, call), e.Grant();
            var valid := ValidEntry(rules, e);
            var secrets := forall n :: n in own.secrets ==> Trusted(e, ResolveSecret(n), commit);
            var submits := own.jobs.allowed ==> Trusted(e, SubmitJob(""), commit);
            var creates := own.cells.allowed ==> Trusted(e, CreateCell(""), commit);
            && (result == Err(InvalidEntry) <==> !valid)
            && (result == Err(Untrusted(Secrets)) <==> valid && !secrets)
            && (result == Err(Untrusted(Submission)) <==> valid && secrets && !submits)
            && (result == Err(Untrusted(Creation)) <==> valid && secrets && submits && !creates)
            && (result == Err(InvalidCall) <==> valid && secrets && submits && creates && call.Some? && !ValidSpec(rules, call.value))
  {
    hide EnterScope, ValidSpec, Cut, Ceilings;
  }

  lemma SomeCapability(rules: NameRules, e: Entry, commit: string)
    requires ValidEntry(rules, e)
    ensures (forall c :: Allows(e.Grant(), c) ==> Trusted(e, c, commit)) <==>
              && (forall n :: n in e.Grant().secrets ==> e.trust.secrets[n].Covers(commit))
              && (e.Grant().jobs.allowed ==> e.trust.submit.value.Covers(commit))
              && (e.Grant().cells.allowed ==> e.trust.create.value.Covers(commit))
  {
    hide EnterScope;
    var g := e.Grant();
    forall n | n in g.secrets
      ensures Allows(g, ResolveSecret(n)) && Trusted(e, ResolveSecret(n), commit) == e.trust.secrets[n].Covers(commit)
    {
    }
    if g.jobs.allowed {
      var cell := PermittedCell(rules, g.jobs);
      assert Allows(g, SubmitJob(cell)) && Trusted(e, SubmitJob(cell), commit) == e.trust.submit.value.Covers(commit);
    }
    if g.cells.allowed {
      var cell := PermittedCell(rules, g.cells);
      assert Allows(g, CreateCell(cell)) && Trusted(e, CreateCell(cell), commit) == e.trust.create.value.Covers(commit);
    }
  }

  lemma PermittedCell(rules: NameRules, a: Action) returns (cell: string)
    requires ValidAction(rules, a) && a.allowed
    ensures Permits(a, cell)
  {
    cell := if a.names.Some? then a.names.value[0] else "";
  }

  /** Inside a hook an input secret is accepted exactly when the hook's grant and every ceiling allow it. */
  lemma HookInputsExact(rules: NameRules, e: Entry, commit: string, parent: State, call: Option<Spec>, name: string)
    requires Authority(rules, e, commit, parent, call).Ok? && name != ""
    ensures InputAllowed(Authority(rules, e, commit, parent, call).value, name) <==>
              && Allows(e.Grant(), ResolveSecret(name))
              && forall ceiling :: ceiling in Ceilings(e, parent, call) ==> Within(ceiling, ResolveSecret(name))
  {
    hide ValidEntry, ValidSpec, Resolved, ExplicitSecrets, Ceilings;
    CutExact(e.Grant(), Ceilings(e, parent, call), ResolveSecret(name));
  }

  /** A hook that is granted authority can always use it: its state resolves, whatever Git secrets there are. */
  lemma AuthorityResolves(rules: NameRules, e: Entry, commit: string, parent: State, call: Option<Spec>, gitSecrets: seq<string>)
    requires parent.limit.Some? ==> Valid(rules, parent.limit.value)
    requires Authority(rules, e, commit, parent, call).Ok?
    ensures Resolved(rules, Authority(rules, e, commit, parent, call).value, gitSecrets).Ok?
  {
    var g := Cut(e.Grant(), Ceilings(e, parent, call));
    var s := Authority(rules, e, commit, parent, call).value;
    AuthorityLimit(rules, e, commit, parent, call);
    if call.Some? && call.value.inherit {
      EnteredResolves(rules, HookState(e, g), Some(Spec(None, None, true, call.value.overrides)), false, false);
      AdmissionImpliesResolution(rules, s, gitSecrets);
    } else {
      CutValid(rules, e.Grant(), Ceilings(e, parent, call));
      SelfLimitedResolves(rules, s, g, gitSecrets);
    }
  }

  /** A state whose grant is its own limit resolves to that grant. */
  lemma SelfLimitedResolves(rules: NameRules, s: State, g: Grant, gitSecrets: seq<string>)
    requires s.version == Version && s.grant == Some(g) && s.limit == Some(g) && s.overrides == []
    requires Valid(rules, g)
    ensures Resolved(rules, s, gitSecrets) == Ok(g.(secrets := SortCompact(g.secrets)))
  {
    hide Valid, Subset, SortCompact;
    SortedSecrets(rules, g);
  }

  lemma {:induction false} CandidateSecretsExact(e: Entry, names: seq<string>)
    ensures forall n :: n in CandidateSecrets(e, names) <==> n in names && CandidateTrusted(e, ResolveSecret(n))
  {
    if names != [] {
      CandidateSecretsExact(e, names[..|names| - 1]);
      assert names == names[..|names| - 1] + [names[|names| - 1]];
    }
  }

  /** The child grant is exactly the candidate-trusted part of the hook's grant. */
  lemma ChildGrantExact(e: Entry, g: Grant, c: Capability)
    ensures Allows(ChildGrant(e, g), c) <==> Allows(g, c) && CandidateTrusted(e, c)
  {
    CandidateSecretsExact(e, g.secrets);
  }

  // ---------------------------------------------------------------- child jobs

  datatype StartJob = StartJob(inherited: Option<State>, body: string)

  datatype Job = Job(cell: string, jobType: string, data: Option<StartJob>)

  /** What a child of a task may do at most: the resolved grant, without grants for this invocation only. */
  function ChildCeiling(s: State, grant: Grant): Grant {
    if s.childGrant.Some? then Intersect(grant, s.childGrant.value) else grant
  }

  function ChildState(ceiling: Grant, policy: string): State {
    State(Version, Some(ceiling), Some(ceiling), Some(InputPolicy("", true, ceiling.secrets)), [], None, Some(policy))
  }

  /** constrainHookChild: whatever lineage the job claims is replaced by the ceiling. */
  function ConstrainHookChild(job: Job, ceiling: Grant, policy: string): Option<Job> {
    if job.jobType != "recipe" || job.data.None? then None
    else Some(job.(data := Some(job.data.value.(inherited := Some(ChildState(ceiling, policy))))))
  }

  /** Access.Submit and the submission path of a hook: the state the child starts from, if it is submitted. */
  function SubmitChild(rules: NameRules, s: State, gitSecrets: seq<string>, job: Job): Option<State> {
    match Resolved(rules, s, gitSecrets)
    case Err(_) => None
    case Ok(grant) =>
      if !Allows(grant, SubmitJob(job.cell)) || s.childPolicy.None? then None
      else
        match ConstrainHookChild(job, ChildCeiling(s, grant), s.childPolicy.value)
        case None => None
        case Some(constrained) => constrained.data.value.inherited
  }

  /** The raw token of a hook task cannot submit jobs past the controller. */
  function Delegated(grant: Grant, policy: Option<string>): Grant {
    if policy.Some? then grant.(jobs := Forbidden) else grant
  }

  lemma DelegatedCannotSubmit(grant: Grant, policy: string, c: Capability)
    ensures Allows(Delegated(grant, Some(policy)), c) <==> Allows(grant, c) && !c.SubmitJob?
  {
  }

  /** One move down the job tree: into a scope of the same job, into a submitted child, or into a hook that a job calls. */
  datatype Link =
    | Descend(step: Step)
    | Submit(gitSecrets: seq<string>, job: Job)
    | Call(entry: Entry, commit: string, call: Option<Spec>, policy: string)

  function Follow(rules: NameRules, s: State, links: seq<Link>): Option<State> {
    if links == [] then Some(s)
    else
      match Follow(rules, s, links[..|links| - 1])
      case None => None
      case Some(before) =>
        match links[|links| - 1]
        case Descend(step) =>
          var r := Take(rules, before, step);
          if r.Ok? then Some(r.value) else None
        case Submit(gitSecrets, job) => SubmitChild(rules, before, gitSecrets, job)
        case Call(entry, commit, call, policy) =>
          var r := Authority(rules, entry, commit, before, call);
          if r.Ok? then Some(r.value.(childPolicy := Some(policy))) else None
  }

  /** Only scopes of the same job. */
  predicate Inside(links: seq<Link>) {
    forall i :: 0 <= i < |links| ==> links[i].Descend?
  }

  /** A child is submitted at some point, before any other hook is called. */
  predicate HandedOver(links: seq<Link>) {
    exists k :: 0 <= k < |links| && links[k].Submit? && Inside(links[..k])
  }

  lemma HandedOverSnoc(links: seq<Link>)
    requires links != []
    ensures var front, last := links[..|links| - 1], links[|links| - 1];
            && (Inside(links) <==> Inside(front) && last.Descend?)
            && (HandedOver(links) <==> HandedOver(front) || (last.Submit? && Inside(front)))
  {
    var front := links[..|links| - 1];
    assert forall k :: 0 <= k < |front| ==> front[..k] == links[..k] && front[k] == links[k];
  }

  /**
   The limit never leaves the first limit, and once a child has been submitted it never leaves the
   first child grant; inside the job itself the child grant stays as it is.
   */
  lemma {:induction false} FollowStaysWithin(rules: NameRules, s: State, links: seq<Link>, c: Capability)
    requires s.childPolicy.Some? && Follow(rules, s, links).Some?
    ensures var last := Follow(rules, s, links).value;
            && last.childPolicy.Some?
            && (Inside(links) ==> last.childGrant == s.childGrant)
            && (Within(last.limit, c) ==> Within(s.limit, c) && (HandedOver(links) ==> Within(s.childGrant, c)))
  {
    hide Take, Resolved, Within, Inside, HandedOver, Authority, SubmitChild;
    if links == [] {
      assert Inside(links) && !HandedOver(links) by {
        NothingHandedOver();
      }
    } else {
      var front, last := links[..|links| - 1], links[|links| - 1];
      FollowStaysWithin(rules, s, front, c);
      HandedOverSnoc(links);
      var before := Follow(rules, s, front).value;
      match last
      case Descend(step) => StepNarrows(rules, before, step, c);
      case Submit(gitSecrets, job) => ChildWithinParent(rules, before, gitSecrets, job, c);
      case Call(entry, commit, call, policy) => CalledWithinCaller(rules, entry, commit, before, call, c);
    }
  }

  lemma NothingHandedOver()
    ensures Inside([]) && !HandedOver([])
  {
  }

  /** A hook called by a job stays within the limit of the calling scope. */
  lemma CalledWithinCaller(rules: NameRules, e: Entry, commit: string, caller: State, call: Option<Spec>, c: Capability)
    requires Authority(rules, e, commit, caller, call).Ok?
    ensures Within(Authority(rules, e, commit, caller, call).value.limit, c) ==> Within(caller.limit, c)
  {
    hide Authority, Cut, Within;
    var ceilings := Ceilings(e, caller, call);
    AuthorityLimit(rules, e, commit, caller, call);
    CutExact(e.Grant(), ceilings, c);
    assert ceilings[0] == caller.limit;
    LimitIsGrant(Cut(e.Grant(), ceilings), c);
  }

  lemma LimitIsGrant(g: Grant, c: Capability)
    ensures Within(Some(g), c) <==> Allows(g, c)
  {
  }

  /** A submitted child starts within its parent's limit and within the resolved grant of the submitting task. */
  lemma ChildWithinParent(rules: NameRules, s: State, gitSecrets: seq<string>, job: Job, c: Capability)
    requires SubmitChild(rules, s, gitSecrets, job).Some?
    ensures Resolved(rules, s, gitSecrets).Ok?
    ensures var child := SubmitChild(rules, s, gitSecrets, job).value;
            && child.childPolicy == s.childPolicy
            && (Within(child.limit, c) ==>
                  && Allows(Resolved(rules, s, gitSecrets).value, c)
                  && Within(s.childGrant, c)
                  && Within(s.limit, c))
  {
    hide Resolved;
    var grant := Resolved(rules, s, gitSecrets).value;
    var child := SubmitChild(rules, s, gitSecrets, job).value;
    assert child == ChildState(ChildCeiling(s, grant), s.childPolicy.value);
    if Within(child.limit, c) {
      if s.childGrant.Some? {
        IntersectExact(grant, s.childGrant.value, c);
      }
      ResolvedWithinLimit(rules, s, gitSecrets, c);
    }
  }

  /** A task below a hook can submit a job exactly when its grant allows the job's cell and the job can carry the ceiling. */
  lemma SubmitsExactly(rules: NameRules, s: State, gitSecrets: seq<string>, job: Job)
    ensures SubmitChild(rules, s, gitSecrets, job).Some? <==>
              && Resolved(rules, s, gitSecrets).Ok? && Allows(Resolved(rules, s, gitSecrets).value, SubmitJob(job.cell))
              && s.childPolicy.Some? && job.jobType == "recipe" && job.data.Some?
  {
    hide Resolved;
  }

  /**
   The authority a submitted child starts with, for any Git secrets of its own: exactly what its parent
   resolved and may entrust to children. Its input secrets are exactly those.
   */
  lemma ChildStartsExactly(rules: NameRules, s: State, gitSecrets: seq<string>, job: Job, childGit: seq<string>, c: Capability)
    requires SubmitChild(rules, s, gitSecrets, job).Some?
    requires s.childGrant.Some? ==> Valid(rules, s.childGrant.value)
    ensures var child := SubmitChild(rules, s, gitSecrets, job).value;
            && Resolved(rules, child, childGit).Ok?
            && (Allows(Resolved(rules, child, childGit).value, c) <==>
                  Allows(Resolved(rules, s, gitSecrets).value, c) && Within(s.childGrant, c))
            && (c.ResolveSecret? && c.name != "" ==>
                  (InputAllowed(child, c.name) <==> Allows(Resolved(rules, s, gitSecrets).value, c) && Within(s.childGrant, c)))
  {
    hide Resolved, Valid, Intersect, SortCompact, ExplicitSecrets;
    var grant := Resolved(rules, s, gitSecrets).value;
    var ceiling := ChildCeiling(s, grant);
    ResolvedIsValid(rules, s, gitSecrets);
    if s.childGrant.Some? {
      IntersectExact(grant, s.childGrant.value, c);
      IntersectValid(rules, grant, s.childGrant.value);
    }
    ChildResolves(rules, ceiling, s.childPolicy.value, childGit);
    SortedSecrets(rules, ceiling);
    assert SubmitChild(rules, s, gitSecrets, job).value == ChildState(ceiling, s.childPolicy.value);
  }

  lemma ResolvedIsValid(rules: NameRules, s: State, gitSecrets: seq<string>)
    requires Resolved(rules, s, gitSecrets).Ok?
    ensures Valid(rules, Resolved(rules, s, gitSecrets).value)
  {
    hide Valid, Subset, ApplyAll, SortCompact, Intersect;
  }

  /** What a hook may entrust to children is valid if its grant is. */
  lemma ChildGrantValid(rules: NameRules, e: Entry, g: Grant)
    requires Valid(rules, g)
    ensures Valid(rules, ChildGrant(e, g))
  {
    CandidateSecretsExact(e, g.secrets);
    CandidateSecretsDistinct(e, g.secrets);
  }

  lemma {:induction false} CandidateSecretsDistinct(e: Entry, names: seq<string>)
    requires NoRepeats(names)
    ensures NoRepeats(CandidateSecrets(e, names)) && |CandidateSecrets(e, names)| <= |names|
  {
    if names != [] {
      var front, n := names[..|names| - 1], names[|names| - 1];
      CandidateSecretsDistinct(e, front);
      CandidateSecretsExact(e, front);
      assert n !in front;
    }
  }

  /** Without inherit overrides a hook resolves exactly what its grant and every ceiling allow. */
  lemma AuthorityAllowsExactly(rules: NameRules, e: Entry, commit: string, parent: State, call: Option<Spec>,
                               gitSecrets: seq<string>, c: Capability)
    requires parent.limit.Some? ==> Valid(rules, parent.limit.value)
    requires Authority(rules, e, commit, parent, call).Ok? && (call.Some? ==> !call.value.inherit)
    ensures var s := Authority(rules, e, commit, parent, call).value;
            && Resolved(rules, s, gitSecrets).Ok?
            && (Allows(Resolved(rules, s, gitSecrets).value, c) <==>
                  && Allows(e.Grant(), c)
                  && forall ceiling :: ceiling in Ceilings(e, parent, call) ==> Within(ceiling, c))
  {
    hide Resolved, Valid, Subset, SortCompact, EnterScope, ValidOverrides, Cut;
    var g := Cut(e.Grant(), Ceilings(e, parent, call));
    AuthorityLimit(rules, e, commit, parent, call);
    CutValid(rules, e.Grant(), Ceilings(e, parent, call));
    CutExact(e.Grant(), Ceilings(e, parent, call), c);
    SelfLimitedResolves(rules, Authority(rules, e, commit, parent, call).value, g, gitSecrets);
    SortedSecrets(rules, g);
  }

  /**
   Bounded down the job tree. From a hook, through any chain of scopes, submitted children and further
   hooks, whatever is resolved and whatever input secret is accepted lies in the hook's own grant, is
   trusted for the candidate, and lies in every ceiling. Once a child has been submitted, from however
   deep inside the hook, it is also trusted for arbitrary candidates.
   */
  lemma JobTreeBounded(rules: NameRules, e: Entry, commit: string, parent: State, call: Option<Spec>, policy: string,
                       links: seq<Link>, gitSecrets: seq<string>, c: Capability)
    requires Authority(rules, e, commit, parent, call).Ok?
    requires var hook := Authority(rules, e, commit, parent, call).value.(childPolicy := Some(policy));
             && Follow(rules, hook, links).Some?
             && var last := Follow(rules, hook, links).value;
                || (Resolved(rules, last, gitSecrets).Ok? && Allows(Resolved(rules, last, gitSecrets).value, c))
                || (c.ResolveSecret? && c.name != "" && InputAllowed(last, c.name))
    ensures Allows(e.Grant(), c) && Trusted(e, c, commit)
    ensures Within(e.perms.limit, c) && Within(parent.limit, c)
    ensures call.Some? ==> Within(call.value.jobdb, c) && Within(call.value.limit, c)
    ensures HandedOver(links) ==> CandidateTrusted(e, c)
  {
    hide Authority, Follow, Resolved, ChildGrant, Cut, HandedOver, ValidEntry, Valid, Fits;
    var hook := Authority(rules, e, commit, parent, call).value.(childPolicy := Some(policy));
    var last := Follow(rules, hook, links).value;
    var ceilings := Ceilings(e, parent, call);
    if Resolved(rules, last, gitSecrets).Ok? && Allows(Resolved(rules, last, gitSecrets).value, c) {
      ResolvedWithinLimit(rules, last, gitSecrets, c);
    }
    assert Within(last.limit, c);
    FollowStaysWithin(rules, hook, links, c);
    AuthorityLimit(rules, e, commit, parent, call);
    CutExact(e.Grant(), ceilings, c);
    ChildGrantExact(e, Cut(e.Grant(), ceilings), c);
    AuthorityExactly(rules, e, commit, parent, call);
    assert Within(ceilings[0], c) && Within(ceilings[1], c);
    if call.Some? {
      assert Within(ceilings[2], c) && Within(ceilings[3], c);
    }
  }

  /**
   The raw token of any task below a hook submits no job, however the task got there, and allows only
   what the hook's own grant and the parent limit allow.
   */
  lemma TokenBounded(rules: NameRules, e: Entry, commit: string, parent: State, call: Option<Spec>, policy: string,
                     links: seq<Link>, gitSecrets: seq<string>, c: Capability)
    requires Authority(rules, e, commit, parent, call).Ok?
    requires var hook := Authority(rules, e, commit, parent, call).value.(childPolicy := Some(policy));
             && Follow(rules, hook, links).Some?
             && var last := Follow(rules, hook, links).value;
                && Resolved(rules, last, gitSecrets).Ok?
                && Allows(Delegated(Resolved(rules, last, gitSecrets).value, last.childPolicy), c)
    ensures !c.SubmitJob? && Allows(e.Grant(), c) && Trusted(e, c, commit) && Within(parent.limit, c)
    ensures HandedOver(links) ==> CandidateTrusted(e, c)
  {
    hide Authority, Follow, Resolved, Delegated, HandedOver;
    var hook := Authority(rules, e, commit, parent, call).value.(childPolicy := Some(policy));
    var last := Follow(rules, hook, links).value;
    FollowStaysWithin(rules, hook, links, c);
    DelegatedCannotSubmit(Resolved(rules, last, gitSecrets).value, last.childPolicy.value, c);
    JobTreeBounded(rules, e, commit, parent, call, policy, links, gitSecrets, c);
  }

  /** The first ceiling itself can always be resolved by the child it was installed for. */
  lemma ChildResolves(rules: NameRules, ceiling: Grant, policy: string, gitSecrets: seq<string>)
    requires Valid(rules, ceiling)
    ensures Resolved(rules, ChildState(ceiling, policy), gitSecrets) == Ok(ceiling.(secrets := SortCompact(ceiling.secrets)))
  {
    SelfLimitedResolves(rules, ChildState(ceiling, policy), ceiling, gitSecrets);
  }
}
