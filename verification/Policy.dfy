/**
 Lexical permission policy (pkg/permissions/policy.go, inheritance.go, inputs.go): a state is
 narrowed scope by scope, and grants are resolved from it.
 */
module Policy {
  import opened Text
  import opened Grants

  const Version := 1

  /** A list field of an override: absent, an explicit null, or an explicit list. */
  datatype ListField = Omitted | Null | Listed(names: seq<string>)

  datatype Overrides = Overrides(secrets: ListField, submit: Option<bool>, jobCells: ListField,
                                 create: Option<bool>, newCells: ListField)

  const NoOverrides := Overrides(Omitted, None, Omitted, None, Omitted)

  /** `limit` joins the two optional levels perms.limit and perms.limit.jobdb. */
  datatype Spec = Spec(jobdb: Option<Grant>, limit: Option<Grant>, inherit: bool, overrides: Option<Overrides>)

  datatype InputPolicy = InputPolicy(rootRepository: string, foreign: bool, allowed: seq<string>)

  datatype State = State(version: int, grant: Option<Grant>, limit: Option<Grant>, inputs: Option<InputPolicy>,
                         overrides: seq<Overrides>, childGrant: Option<Grant>, childPolicy: Option<string>)

  const Initial := State(Version, None, None, None, [], None, None)

  datatype Denial = BadVersion | BadGrant | BadLimit | BadOverride | BadSpec | ExceedsLimit | NeedsCeiling | InputDenied

  // ---------------------------------------------------------------- inherit overrides

  function ApplyAction(a: Action, flag: Option<bool>, cells: ListField): Option<Action> {
    var flagged := match flag
      case None => a
      case Some(on) => Action(on, if on then a.names else None);
    match cells
    case Omitted => Some(flagged)
    case Null => None
    case Listed(names) => Some(flagged.(names := Some(names)))
  }

  /** JobDBOverrides.apply. */
  function Apply(p: Overrides, g: Grant): Option<Grant> {
    if p.secrets.Null? then None
    else
      match ApplyAction(g.jobs, p.submit, p.jobCells)
      case None => None
      case Some(jobs) =>
        match ApplyAction(g.cells, p.create, p.newCells)
        case None => None
        case Some(cells) => Some(Grant(if p.secrets.Listed? then p.secrets.names else g.secrets, jobs, cells))
  }

  /** JobDBOverrides.Validate: names and explicit conflicts are checked against a grant that allows both actions. */
  predicate ValidOverrides(rules: NameRules, p: Overrides) {
    var g := Apply(p, Grant([], Action(true, None), Action(true, None)));
    g.Some? && Valid(rules, g.value)
  }

  predicate ValidSpec(rules: NameRules, s: Spec) {
    && (if s.inherit then s.jobdb.None? else s.overrides.None?)
    && (s.overrides.Some? ==> ValidOverrides(rules, s.overrides.value))
    && (s.jobdb.Some? ==> Valid(rules, s.jobdb.value))
    && (s.limit.Some? ==> Valid(rules, s.limit.value))
  }

  // ---------------------------------------------------------------- resolution

  /** The grant the overrides start from. */
  function Start(s: State, gitSecrets: seq<string>): Grant {
    var g := if s.grant.Some? then s.grant.value else Grant(gitSecrets, Action(true, None), Forbidden);
    g.(secrets := SortCompact(g.secrets))
  }

  function ApplyAll(rules: NameRules, ps: seq<Overrides>, g: Grant): Result<Grant, Denial> {
    if ps == [] then Ok(g)
    else
      match ApplyAll(rules, ps[..|ps| - 1], g)
      case Err(e) => Err(e)
      case Ok(before) =>
        var p := ps[|ps| - 1];
        if !ValidOverrides(rules, p) then Err(BadOverride)
        else
          match Apply(p, before)
          case None => Err(BadOverride)
          case Some(after) => Ok(after)
  }

  function Resolved(rules: NameRules, s: State, gitSecrets: seq<string>): Result<Grant, Denial> {
    var start := Start(s, gitSecrets);
    if s.version != Version then Err(BadVersion)
    else if !Valid(rules, start) then Err(BadGrant)
    else if s.limit.Some? && !Valid(rules, s.limit.value) then Err(BadLimit)
    else
      var bounded := if s.limit.Some? && s.grant.None? then Intersect(start, s.limit.value) else start;
      match ApplyAll(rules, s.overrides, bounded)
      case Err(e) => Err(e)
      case Ok(g) =>
        if !Valid(rules, g) then Err(BadGrant)
        else if s.limit.Some? && !Subset(g, s.limit.value) then Err(ExceedsLimit)
        else Ok(g)
  }

  /** State.Resolve. */
  method Resolve(rules: NameRules, s: State, gitSecrets: seq<string>) returns (result: Result<Grant, Denial>)
    ensures result == Resolved(rules, s, gitSecrets)
  {
    hide Apply, ValidOverrides, Valid, Subset, Intersect, SortCompact;
    if s.version != Version {
      return Err(BadVersion);
    }
    var grant := Grant(gitSecrets, Action(true, None), Forbidden);
    if s.grant.Some? {
      grant := s.grant.value;
    }
    grant := grant.(secrets := SortCompact(grant.secrets));
    var ok := Validate(rules, grant);
    if !ok {
      return Err(BadGrant);
    }
    if s.limit.Some? {
      ok := Validate(rules, s.limit.value);
      if !ok {
        return Err(BadLimit);
      }
      if s.grant.None? {
        grant := Intersect(grant, s.limit.value);
      }
    }
    ghost var bounded := grant;
    for i := 0 to |s.overrides|
      invariant ApplyAll(rules, s.overrides[..i], bounded) == Ok(grant)
    {
      var p := s.overrides[i];
      assert s.overrides[..i + 1][..i] == s.overrides[..i];
      var next := Apply(p, grant);
      if !ValidOverrides(rules, p) || next.None? {
        OverrideErrorStays(rules, s.overrides, i + 1, bounded);
        return Err(BadOverride);
      }
      grant := next.value;
    }
    assert s.overrides[..|s.overrides|] == s.overrides;
    ok := Validate(rules, grant);
    if !ok {
      return Err(BadGrant);
    }
    if s.limit.Some? && !Subset(grant, s.limit.value) {
      return Err(ExceedsLimit);
    }
    result := Ok(grant);
  }

  lemma {:induction false} OverrideErrorStays(rules: NameRules, ps: seq<Overrides>, n: nat, g: Grant)
    requires n <= |ps| && ApplyAll(rules, ps[..n], g).Err?
    ensures ApplyAll(rules, ps, g) == ApplyAll(rules, ps[..n], g)
    decreases |ps| - n
  {
    if n == |ps| {
      assert ps[..n] == ps;
    } else {
      assert ps[..n + 1][..n] == ps[..n];
      OverrideErrorStays(rules, ps, n + 1, g);
    }
  }

  // ---------------------------------------------------------------- entering scopes

  function Narrowed(limit: Option<Grant>, ceiling: Option<Grant>): Option<Grant> {
    if ceiling.None? then limit
    else if limit.None? then ceiling
    else Some(Intersect(ceiling.value, limit.value))
  }

  function Checked(rules: NameRules, s: State): Result<State, Denial> {
    match Resolved(rules, s, [])
    case Err(e) => Err(e)
    case Ok(_) => Ok(s)
  }

  /** State.Enter inside one repository. */
  function EnterScope(rules: NameRules, s: State, spec: Option<Spec>): Result<State, Denial> {
    if spec.Some? && !ValidSpec(rules, spec.value) then Err(BadSpec)
    else
      var entered :=
        if spec.None? then s.(version := Version)
        else
          var p := spec.value;
          var granted := if p.jobdb.Some? then s.(grant := p.jobdb, overrides := []) else s;
          granted.(version := Version,
                   limit := Narrowed(s.limit, p.limit),
                   overrides := if p.overrides.Some? && p.overrides != Some(NoOverrides)
                                then granted.overrides + [p.overrides.value] else granted.overrides);
      Checked(rules, entered)
  }

  /** The secrets the last override that lists any names, or those of the grant. */
  function ExplicitSecrets(grant: Option<Grant>, ps: seq<Overrides>): seq<string> {
    if ps == [] then (if grant.Some? then grant.value.secrets else [])
    else
      match ps[|ps| - 1].secrets
      case Omitted => ExplicitSecrets(grant, ps[..|ps| - 1])
      case Null => []
      case Listed(names) => names
  }

  predicate InputAllowed(s: State, name: string) {
    || name == ""
    || ((s.limit.Some? ==> name in s.limit.value.secrets)
        && (|| (s.inputs.Some? && (!s.inputs.value.foreign || name in s.inputs.value.allowed))
            || name in ExplicitSecrets(s.grant, s.overrides)))
  }

  /** State.CheckInput. */
  method CheckInput(s: State, name: string) returns (ok: bool)
    ensures ok <==> InputAllowed(s, name)
  {
    if name == "" {
      return true;
    }
    if s.limit.Some? && name !in s.limit.value.secrets {
      return false;
    }
    if s.inputs.Some? && (!s.inputs.value.foreign || name in s.inputs.value.allowed) {
      return true;
    }
    var explicit: seq<string> := [];
    if s.grant.Some? {
      explicit := s.grant.value.secrets;
    }
    for i := 0 to |s.overrides|
      invariant explicit == ExplicitSecrets(s.grant, s.overrides[..i])
    {
      assert s.overrides[..i + 1][..i] == s.overrides[..i];
      match s.overrides[i].secrets
      case Omitted =>
      case Null => explicit := [];
      case Listed(names) => explicit := names;
    }
    assert s.overrides[..|s.overrides|] == s.overrides;
    ok := name in explicit;
  }

  predicate AllInputsAllowed(s: State, names: seq<string>) {
    forall n :: n in names ==> InputAllowed(s, n)
  }

  function RequestedInputs(p: Spec): seq<string> {
    (if p.jobdb.Some? then p.jobdb.value.secrets else [])
    + (if p.overrides.Some? && p.overrides.value.secrets.Listed? then p.overrides.value.secrets.names else [])
  }

  /** The authority entrusted to an included recipe. */
  function IncludeInputs(s: State, spec: Option<Spec>, boundary: bool, trusted: bool): InputPolicy {
    InputPolicy(
      if s.inputs.Some? then s.inputs.value.rootRepository else "",
      !trusted,
      (if s.inputs.Some? && !boundary then s.inputs.value.allowed else [])
      + (if spec.Some? && spec.value.jobdb.Some? then spec.value.jobdb.value.secrets else []))
  }

  predicate ValidInclude(rules: NameRules, spec: Option<Spec>, boundary: bool) {
    && (spec.Some? ==> ValidSpec(rules, spec.value))
    && (boundary ==> spec.Some? && (spec.value.jobdb.Some? || spec.value.limit.Some?))
  }

  /** State.EnterInclude: the callsite grant and limit are ceilings for everything included. */
  function EnterInclude(rules: NameRules, s: State, spec: Option<Spec>, boundary: bool, trusted: bool): Result<State, Denial> {
    if spec.Some? && !ValidSpec(rules, spec.value) then Err(BadSpec)
    else if !ValidInclude(rules, spec, boundary) then Err(NeedsCeiling)
    else if spec.Some? && !AllInputsAllowed(s, RequestedInputs(spec.value)) then Err(InputDenied)
    else
      var reset := boundary || (spec.Some? && spec.value.jobdb.Some?);
      var ceiled := if spec.None? then s.limit else Narrowed(Narrowed(s.limit, spec.value.jobdb), spec.value.limit);
      var included := s.(
        grant := if reset then None else s.grant,
        overrides := if reset then [] else s.overrides,
        limit := ceiled,
        inputs := Some(IncludeInputs(s, spec, boundary, trusted)));
      var edit := if spec.None? then None else Some(Spec(None, None, spec.value.inherit, spec.value.overrides));
      EnterScope(rules, included, edit)
  }

  method CheckInputs(s: State, names: seq<string>) returns (ok: bool)
    ensures ok <==> AllInputsAllowed(s, names)
  {
    for i := 0 to |names|
      invariant forall n :: n in names[..i] ==> InputAllowed(s, n)
    {
      var allowed := CheckInput(s, names[i]);
      if !allowed {
        return false;
      }
      assert names[..i + 1] == names[..i] + [names[i]];
    }
    assert names[..|names|] == names;
    ok := true;
  }

  /** The statements of EnterInclude, in their order. */
  method Include(rules: NameRules, s: State, spec: Option<Spec>, boundary: bool, trusted: bool)
    returns (result: Result<State, Denial>)
    ensures result == EnterInclude(rules, s, spec, boundary, trusted)
  {
    if spec.Some? && !ValidSpec(rules, spec.value) {
      return Err(BadSpec);
    }
    if !ValidInclude(rules, spec, boundary) {
      return Err(NeedsCeiling);
    }
    var input := InputPolicy("", !trusted, []);
    if s.inputs.Some? {
      input := input.(rootRepository := s.inputs.value.rootRepository);
      if !boundary {
        input := input.(allowed := s.inputs.value.allowed);
      }
    }
    if spec.Some? && spec.value.jobdb.Some? {
      var ok := CheckInputs(s, spec.value.jobdb.value.secrets);
      if !ok {
        assert !AllInputsAllowed(s, RequestedInputs(spec.value));
        return Err(InputDenied);
      }
      input := input.(allowed := input.allowed + spec.value.jobdb.value.secrets);
    }
    if spec.Some? && spec.value.overrides.Some? && spec.value.overrides.value.secrets.Listed? {
      var ok := CheckInputs(s, spec.value.overrides.value.secrets.names);
      if !ok {
        return Err(InputDenied);
      }
    }
    assert spec.Some? ==> AllInputsAllowed(s, RequestedInputs(spec.value));
    var included := s;
    if boundary || (spec.Some? && spec.value.jobdb.Some?) {
      included := included.(grant := None, overrides := []);
    }
    if spec.Some? {
      var ceilings := [spec.value.jobdb, spec.value.limit];
      for i := 0 to 2
        invariant included == included.(limit := included.limit)
        invariant included.limit == if i == 0 then s.limit
                                    else if i == 1 then Narrowed(s.limit, ceilings[0])
                                    else Narrowed(Narrowed(s.limit, ceilings[0]), ceilings[1])
        invariant included.(limit := None) == s.(limit := None,
                    grant := if boundary || spec.value.jobdb.Some? then None else s.grant,
                    overrides := if boundary || spec.value.jobdb.Some? then [] else s.overrides)
      {
        if ceilings[i].Some? {
          var v := ceilings[i].value;
          if included.limit.Some? {
            v := Intersect(v, included.limit.value);
          }
          included := included.(limit := Some(v));
        }
      }
    }
    included := included.(inputs := Some(input));
    assert input == IncludeInputs(s, spec, boundary, trusted);
    var edit := if spec.None? then None else Some(Spec(None, None, spec.value.inherit, spec.value.overrides));
    result := EnterScope(rules, included, edit);
  }

  // ---------------------------------------------------------------- what overrides do

  function LastFlag(ps: seq<Overrides>, flag: Overrides -> Option<bool>, start: bool): bool {
    if ps == [] then start
    else
      var last := flag(ps[|ps| - 1]);
      if last.Some? then last.value else LastFlag(ps[..|ps| - 1], flag, start)
  }

  function SubmitFlag(p: Overrides): Option<bool> {
    p.submit
  }

  function CreateFlag(p: Overrides): Option<bool> {
    p.create
  }

  function LastSecrets(ps: seq<Overrides>, start: seq<string>): seq<string> {
    if ps == [] then start
    else if ps[|ps| - 1].secrets.Listed? then ps[|ps| - 1].secrets.names
    else LastSecrets(ps[..|ps| - 1], start)
  }

  lemma ApplyFields(p: Overrides, g: Grant)
    requires Apply(p, g).Some?
    ensures var out := Apply(p, g).value;
            && out.secrets == (if p.secrets.Listed? then p.secrets.names else g.secrets)
            && out.jobs.allowed == (if p.submit.Some? then p.submit.value else g.jobs.allowed)
            && out.cells.allowed == (if p.create.Some? then p.create.value else g.cells.allowed)
            && out.jobs.names == NamesAfter(p.submit, p.jobCells, g.jobs.names)
            && out.cells.names == NamesAfter(p.create, p.newCells, g.cells.names)
  {
  }

  /** The cells an action is limited to after one override: those it lists, none in particular once it is denied. */
  function NamesAfter(flag: Option<bool>, cells: ListField, names: Option<seq<string>>): Option<seq<string>> {
    if cells.Listed? then Some(cells.names) else if flag == Some(false) then None else names
  }

  function JobCells(p: Overrides): ListField {
    p.jobCells
  }

  function NewCells(p: Overrides): ListField {
    p.newCells
  }

  /** The last list given since the last denial; any cell after a denial; the starting cells if there was neither. */
  function LastNames(ps: seq<Overrides>, flag: Overrides -> Option<bool>, cells: Overrides -> ListField,
                     start: Option<seq<string>>): Option<seq<string>> {
    if ps == [] then start
    else
      var last := ps[|ps| - 1];
      if cells(last).Listed? then Some(cells(last).names)
      else if flag(last) == Some(false) then None
      else LastNames(ps[..|ps| - 1], flag, cells, start)
  }

  /** The last explicit value of each field wins; only the secrets depend on the starting secrets. */
  lemma {:induction false} ApplyAllFields(rules: NameRules, ps: seq<Overrides>, g: Grant)
    requires ApplyAll(rules, ps, g).Ok?
    ensures var out := ApplyAll(rules, ps, g).value;
            && out.secrets == LastSecrets(ps, g.secrets)
            && out.jobs.allowed == LastFlag(ps, SubmitFlag, g.jobs.allowed)
            && out.cells.allowed == LastFlag(ps, CreateFlag, g.cells.allowed)
            && out.jobs.names == LastNames(ps, SubmitFlag, JobCells, g.jobs.names)
            && out.cells.names == LastNames(ps, CreateFlag, NewCells, g.cells.names)
    ensures forall p :: p in ps ==> ValidOverrides(rules, p)
  {
    hide Apply, ValidOverrides;
    if ps != [] {
      var front, last := ps[..|ps| - 1], ps[|ps| - 1];
      assert ps == front + [last];
      ApplyAllFields(rules, front, g);
      ApplyFields(last, ApplyAll(rules, front, g).value);
    }
  }

  /** What makes an override acceptable: lists that are lists, of names that are valid, and no cells for a denied action. */
  predicate Acceptable(rules: NameRules, p: Overrides) {
    && !p.secrets.Null? && !p.jobCells.Null? && !p.newCells.Null?
    && (p.secrets.Listed? ==> |p.secrets.names| <= 256 && ValidNames(rules.secret, p.secrets.names))
    && (p.jobCells.Listed? ==> p.submit != Some(false) && p.jobCells.names != [] && ValidNames(rules.cell, p.jobCells.names))
    && (p.newCells.Listed? ==> p.create != Some(false) && p.newCells.names != [] && ValidNames(rules.cell, p.newCells.names))
  }

  lemma ValidOverridesExactly(rules: NameRules, p: Overrides)
    ensures ValidOverrides(rules, p) <==> Acceptable(rules, p)
    ensures Acceptable(rules, p) ==> forall g :: Apply(p, g).Some?
  {
    hide ValidNames;
    assert ValidNames(rules.secret, []) by {
      NoNames(rules.secret);
    }
  }

  lemma NoNames(rule: string -> bool)
    ensures ValidNames(rule, [])
  {
  }

  /** A chain of overrides can be applied to any grant exactly when each is acceptable. */
  lemma {:induction false} AppliesExactly(rules: NameRules, ps: seq<Overrides>, g: Grant)
    ensures ApplyAll(rules, ps, g).Ok? <==> forall p :: p in ps ==> Acceptable(rules, p)
  {
    hide Apply, ValidOverrides, Acceptable;
    if ps != [] {
      var front, last := ps[..|ps| - 1], ps[|ps| - 1];
      assert ps == front + [last];
      AppliesExactly(rules, front, g);
      ValidOverridesExactly(rules, last);
    }
  }

  /** Overrides succeed or fail, and set both actions, regardless of the secrets they start from. */
  lemma {:induction false} ApplyAllIgnoresSecrets(rules: NameRules, ps: seq<Overrides>, g: Grant, secrets: seq<string>)
    ensures var a, b := ApplyAll(rules, ps, g), ApplyAll(rules, ps, g.(secrets := secrets));
            && (a.Ok? <==> b.Ok?)
            && (a.Ok? ==> b.value == a.value.(secrets := b.value.secrets))
  {
    if ps != [] {
      ApplyAllIgnoresSecrets(rules, ps[..|ps| - 1], g, secrets);
    }
  }

  predicate SetsSecrets(ps: seq<Overrides>) {
    exists p :: p in ps && p.secrets.Listed?
  }

  lemma {:induction false} LastSecretsExact(ps: seq<Overrides>, a: seq<string>, b: seq<string>)
    ensures if SetsSecrets(ps) then LastSecrets(ps, a) == LastSecrets(ps, b) else LastSecrets(ps, a) == a
  {
    if ps != [] {
      var front, last := ps[..|ps| - 1], ps[|ps| - 1];
      assert ps == front + [last];
      LastSecretsExact(front, a, b);
      assert SetsSecrets(ps) <==> SetsSecrets(front) || last.secrets.Listed?;
    }
  }

  /** The Git secret names a state accepts when it has no explicit grant. */
  predicate AcceptableGitSecrets(rules: NameRules, names: seq<string>) {
    |SortCompact(names)| <= 256 && forall n :: n in names ==> rules.secret(n)
  }

  function BoundedStart(s: State, gitSecrets: seq<string>): Grant {
    var start := Start(s, gitSecrets);
    if s.limit.Some? && s.grant.None? then Intersect(start, s.limit.value) else start
  }

  /**
   Admission implies later resolution. A state that resolves without Git secrets resolves with any
   acceptable list of them, and only then if it has no explicit grant; the two results differ only in
   their secrets, and the secrets differ only when neither a grant nor an override lists any.
   */
  lemma AdmissionImpliesResolution(rules: NameRules, s: State, gitSecrets: seq<string>)
    requires Resolved(rules, s, []).Ok?
    ensures Resolved(rules, s, gitSecrets).Ok? <==> s.grant.Some? || AcceptableGitSecrets(rules, gitSecrets)
    ensures Resolved(rules, s, gitSecrets).Ok? ==>
              var before, after := Resolved(rules, s, []).value, Resolved(rules, s, gitSecrets).value;
              && after == before.(secrets := after.secrets)
              && (s.grant.Some? || SetsSecrets(s.overrides) ==> after == before)
              && (s.grant.None? && !SetsSecrets(s.overrides) ==>
                    && before.secrets == []
                    && forall n :: n in after.secrets <==>
                         n in gitSecrets && (s.limit.Some? ==> n in s.limit.value.secrets))
  {
    if s.grant.None? {
      SortCompactExact(gitSecrets);
      GitStartValid(rules, s, gitSecrets);
      if AcceptableGitSecrets(rules, gitSecrets) {
        var before, after := BoundedStart(s, []), BoundedStart(s, gitSecrets);
        BoundedStartSecrets(rules, s, gitSecrets);
        ApplyAllIgnoresSecrets(rules, s.overrides, before, after.secrets);
        assert after == before.(secrets := after.secrets);
        ApplyAllFields(rules, s.overrides, before);
        ApplyAllFields(rules, s.overrides, after);
        LastSecretsExact(s.overrides, before.secrets, after.secrets);
        LastSecretsExact(s.overrides, after.secrets, before.secrets);
      }
    }
  }

  /** More than 256 different names are too many, whatever the rules. */
  lemma TooManyGitSecrets(rules: NameRules, names: seq<string>)
    requires NoRepeats(names) && |names| > 256
    ensures Resolved(rules, Initial, []).Ok? && Resolved(rules, Initial, names).Err?
  {
    assert SortCompact([]) == [] && ApplyAll(rules, [], Start(Initial, [])) == Ok(Start(Initial, []));
    SortCompactExact(names);
    NoShorterList(names, SortCompact(names));
  }

  /** The failure occurs with names the rules accept: admitted with none of them, refused with 257. */
  lemma GitSecretsExample(rules: NameRules)
    requires forall i {:trigger Decimal(i)} :: 0 <= i < 257 ==> rules.secret("S" + Decimal(i))
    ensures var names := seq(257, i requires 0 <= i < 257 => "S" + Decimal(i));
            && (forall n :: n in names ==> rules.secret(n))
            && Resolved(rules, Initial, []).Ok? && Resolved(rules, Initial, names).Err?
  {
    var names := seq(257, i requires 0 <= i < 257 => "S" + Decimal(i));
    forall i, j | 0 <= i < j < |names|
      ensures names[i] != names[j]
    {
      assert names[i][1..] == Decimal(i) && names[j][1..] == Decimal(j);
      assert DigitsValue(Decimal(i)) == i;
    }
    TooManyGitSecrets(rules, names);
  }

  lemma GitStartValid(rules: NameRules, s: State, gitSecrets: seq<string>)
    requires s.grant.None?
    ensures Valid(rules, Start(s, gitSecrets)) <==> AcceptableGitSecrets(rules, gitSecrets)
  {
    SortCompactExact(gitSecrets);
  }

  lemma BoundedStartSecrets(rules: NameRules, s: State, gitSecrets: seq<string>)
    requires s.grant.None? && AcceptableGitSecrets(rules, gitSecrets)
    ensures var before, after := BoundedStart(s, []), BoundedStart(s, gitSecrets);
            && before.secrets == [] && after == before.(secrets := after.secrets)
            && ValidNames(rules.secret, after.secrets) && |after.secrets| <= 256
            && forall n :: n in after.secrets <==> n in gitSecrets && (s.limit.Some? ==> n in s.limit.value.secrets)
  {
    SortCompactExact(gitSecrets);
    assert SortCompact([]) == [];
    if s.limit.Some? {
      CommonExact(SortCompact(gitSecrets), s.limit.value.secrets);
      assert Common([], s.limit.value.secrets) == [];
    }
  }

  /** Every state that Enter or EnterInclude returns has resolved. */
  lemma EnteredResolves(rules: NameRules, s: State, spec: Option<Spec>, boundary: bool, trusted: bool)
    ensures EnterScope(rules, s, spec).Ok? ==> Resolved(rules, EnterScope(rules, s, spec).value, []).Ok?
    ensures EnterInclude(rules, s, spec, boundary, trusted).Ok? ==>
              Resolved(rules, EnterInclude(rules, s, spec, boundary, trusted).value, []).Ok?
  {
  }

  // ---------------------------------------------------------------- inherited denials

  function LastExplicit(ps: seq<Overrides>, flag: Overrides -> Option<bool>): Option<bool> {
    if ps == [] then None
    else
      var last := flag(ps[|ps| - 1]);
      if last.Some? then last else LastExplicit(ps[..|ps| - 1], flag)
  }

  function SecretsFlag(p: Overrides): Option<bool> {
    match p.secrets
    case Omitted => None
    case Null => Some(false)
    case Listed(names) => Some(|names| > 0)
  }

  function DenialNames(submit: Option<bool>, create: Option<bool>, secrets: Option<bool>): seq<string> {
    (if submit == Some(false) then ["perms.jobdb.jobs.submit"] else [])
    + (if create == Some(false) then ["perms.jobdb.cells.create"] else [])
    + (if secrets == Some(false) then ["perms.jobdb.secrets.resolve"] else [])
  }

  function Denials(s: State): seq<string> {
    DenialNames(LastExplicit(s.overrides, SubmitFlag), LastExplicit(s.overrides, CreateFlag),
                LastExplicit(s.overrides, SecretsFlag))
  }

  /** State.InheritedDenials. */
  method InheritedDenials(s: State) returns (fields: seq<string>)
    ensures fields == Denials(s)
  {
    var submit: Option<bool>, create: Option<bool>, secrets: Option<bool> := None, None, None;
    for i := 0 to |s.overrides|
      invariant submit == LastExplicit(s.overrides[..i], SubmitFlag)
      invariant create == LastExplicit(s.overrides[..i], CreateFlag)
      invariant secrets == LastExplicit(s.overrides[..i], SecretsFlag)
    {
      var p := s.overrides[i];
      assert s.overrides[..i + 1][..i] == s.overrides[..i];
      if p.submit.Some? {
        submit := p.submit;
      }
      if p.create.Some? {
        create := p.create;
      }
      if !p.secrets.Omitted? {
        secrets := Some(p.secrets.Listed? && |p.secrets.names| > 0);
      }
    }
    assert s.overrides[..|s.overrides|] == s.overrides;
    fields := DenialNames(submit, create, secrets);
  }

  lemma {:induction false} LastExplicitFlag(ps: seq<Overrides>, flag: Overrides -> Option<bool>, start: bool)
    ensures LastFlag(ps, flag, start) ==
            if LastExplicit(ps, flag).Some? then LastExplicit(ps, flag).value else start
  {
    if ps != [] {
      LastExplicitFlag(ps[..|ps| - 1], flag, start);
    }
  }

  lemma {:induction false} LastExplicitSecrets(ps: seq<Overrides>, start: seq<string>)
    requires forall p :: p in ps ==> !p.secrets.Null?
    ensures LastExplicit(ps, SecretsFlag) == Some(false) ==> LastSecrets(ps, start) == []
  {
    if ps != [] {
      assert ps == ps[..|ps| - 1] + [ps[|ps| - 1]];
      LastExplicitSecrets(ps[..|ps| - 1], start);
    }
  }

  /** Some override denies the field, and none after it says anything of it. */
  predicate LastDenies(ps: seq<Overrides>, flag: Overrides -> Option<bool>) {
    exists i :: 0 <= i < |ps| && flag(ps[i]) == Some(false) && forall j :: i < j < |ps| ==> flag(ps[j]) == None
  }

  lemma {:induction false} LastDeniesExactly(ps: seq<Overrides>, flag: Overrides -> Option<bool>)
    ensures LastExplicit(ps, flag) == Some(false) <==> LastDenies(ps, flag)
  {
    if ps != [] {
      var front, last := ps[..|ps| - 1], ps[|ps| - 1];
      assert forall i :: 0 <= i < |front| ==> front[i] == ps[i];
      LastDeniesExactly(front, flag);
      if LastDenies(ps, flag) && flag(last) == None {
        var i :| 0 <= i < |ps| && flag(ps[i]) == Some(false) && forall j :: i < j < |ps| ==> flag(ps[j]) == None;
        assert i < |front| && flag(front[i]) == Some(false);
      }
      if LastDenies(front, flag) && flag(last) == None {
        var i :| 0 <= i < |front| && flag(front[i]) == Some(false) && forall j :: i < j < |front| ==> flag(front[j]) == None;
        assert flag(ps[i]) == Some(false);
      }
      if flag(last) == Some(false) {
        assert flag(ps[|ps| - 1]) == Some(false);
      }
    }
  }

  /** Which denials are reported: of each field whose last explicit override denies it, an empty list of secrets included, in a fixed order. */
  lemma DenialsExactly(s: State)
    ensures Denials(s) ==
            (if LastDenies(s.overrides, (p: Overrides) => p.submit) then ["perms.jobdb.jobs.submit"] else [])
            + (if LastDenies(s.overrides, (p: Overrides) => p.create) then ["perms.jobdb.cells.create"] else [])
            + (if LastDenies(s.overrides, SecretsFlag) then ["perms.jobdb.secrets.resolve"] else [])
    ensures forall p :: SecretsFlag(p) == if p.secrets.Omitted? then None else Some(p.secrets.Listed? && p.secrets.names != [])
  {
    LastDeniesExactly(s.overrides, SubmitFlag);
    LastDeniesExactly(s.overrides, CreateFlag);
    LastDeniesExactly(s.overrides, SecretsFlag);
    assert LastDenies(s.overrides, (p: Overrides) => p.submit) <==> LastDenies(s.overrides, SubmitFlag);
    assert LastDenies(s.overrides, (p: Overrides) => p.create) <==> LastDenies(s.overrides, CreateFlag);
  }

  /** Every reported denial is in force: the resolved grant allows nothing of that kind. */
  lemma DenialsAreInForce(rules: NameRules, s: State, gitSecrets: seq<string>)
    requires Resolved(rules, s, gitSecrets).Ok?
    ensures var g := Resolved(rules, s, gitSecrets).value;
            && ("perms.jobdb.jobs.submit" in Denials(s) ==> forall cell :: !Allows(g, SubmitJob(cell)))
            && ("perms.jobdb.cells.create" in Denials(s) ==> forall cell :: !Allows(g, CreateCell(cell)))
            && ("perms.jobdb.secrets.resolve" in Denials(s) ==> forall name :: !Allows(g, ResolveSecret(name)))
  {
    var start := BoundedStart(s, gitSecrets);
    ApplyAllFields(rules, s.overrides, start);
    LastExplicitFlag(s.overrides, SubmitFlag, start.jobs.allowed);
    LastExplicitFlag(s.overrides, CreateFlag, start.cells.allowed);
    LastExplicitSecrets(s.overrides, start.secrets);
  }

  // ---------------------------------------------------------------- runs over nested scopes

  /** One step down the tree of recipe scopes. */
  datatype Step =
    | Scope(spec: Option<Spec>)                                       // Enter in the same repository
    | Boundary(spec: Option<Spec>)                                    // Enter across repositories
    | IncludeStep(spec: Option<Spec>, boundary: bool, trusted: bool)  // EnterInclude

  function Take(rules: NameRules, s: State, step: Step): Result<State, Denial> {
    match step
    case Scope(spec) => EnterScope(rules, s, spec)
    case Boundary(spec) => EnterInclude(rules, s, spec, true, false)
    case IncludeStep(spec, boundary, trusted) => EnterInclude(rules, s, spec, boundary, trusted)
  }

  function Run(rules: NameRules, s: State, steps: seq<Step>): Result<State, Denial> {
    if steps == [] then Ok(s)
    else
      match Run(rules, s, steps[..|steps| - 1])
      case Err(e) => Err(e)
      case Ok(before) => Take(rules, before, steps[|steps| - 1])
  }

  predicate Within(limit: Option<Grant>, c: Capability) {
    limit.Some? ==> Allows(limit.value, c)
  }

  /** What a step puts a ceiling on: its limit and, for an include, also its callsite grant. */
  predicate StepAllows(step: Step, c: Capability) {
    step.spec.Some? ==> Within(step.spec.value.limit, c) && (step.Scope? || Within(step.spec.value.jobdb, c))
  }

  lemma NarrowedExact(limit: Option<Grant>, ceiling: Option<Grant>, c: Capability)
    ensures Within(Narrowed(limit, ceiling), c) <==> Within(limit, c) && Within(ceiling, c)
  {
    if limit.Some? && ceiling.Some? {
      IntersectExact(ceiling.value, limit.value, c);
    }
  }

  lemma StepNarrows(rules: NameRules, s: State, step: Step, c: Capability)
    requires Take(rules, s, step).Ok?
    ensures Within(Take(rules, s, step).value.limit, c) <==> Within(s.limit, c) && StepAllows(step, c)
    ensures Take(rules, s, step).value.childGrant == s.childGrant
    ensures Take(rules, s, step).value.childPolicy == s.childPolicy
    ensures step.Scope? ==> Take(rules, s, step).value.inputs == s.inputs
    ensures s.inputs.Some? ==> Take(rules, s, step).value.inputs.Some?
                               && Take(rules, s, step).value.inputs.value.rootRepository == s.inputs.value.rootRepository
  {
    if step.spec.Some? {
      var p := step.spec.value;
      NarrowedExact(s.limit, p.limit, c);
      NarrowedExact(s.limit, p.jobdb, c);
      NarrowedExact(Narrowed(s.limit, p.jobdb), p.limit, c);
      NarrowedExact(Narrowed(Narrowed(s.limit, p.jobdb), p.limit), None, c);
    }
  }

  /** After any run the limit is exactly the first limit cut by every ceiling entered on the way. */
  lemma {:induction false} RunNarrows(rules: NameRules, s: State, steps: seq<Step>, c: Capability)
    requires Run(rules, s, steps).Ok?
    ensures Within(Run(rules, s, steps).value.limit, c) <==>
              Within(s.limit, c) && forall i :: 0 <= i < |steps| ==> StepAllows(steps[i], c)
  {
    hide Take, Within, StepAllows;
    if steps != [] {
      var front := steps[..|steps| - 1];
      RunNarrows(rules, s, front, c);
      StepNarrows(rules, Run(rules, s, front).value, steps[|steps| - 1], c);
      assert forall i :: 0 <= i < |front| ==> front[i] == steps[i];
    }
  }

  /** The state reached after the first `k` steps of a successful run. */
  lemma {:induction false} PrefixRuns(rules: NameRules, s: State, steps: seq<Step>, k: nat)
    requires k <= |steps| && Run(rules, s, steps).Ok?
    ensures Run(rules, s, steps[..k]).Ok?
  {
    if k < |steps| {
      PrefixRuns(rules, s, steps[..|steps| - 1], k);
      assert steps[..|steps| - 1][..k] == steps[..k];
    } else {
      assert steps[..k] == steps;
    }
  }

  /** A resolved grant stays within the limit of its state. */
  lemma ResolvedWithinLimit(rules: NameRules, s: State, gitSecrets: seq<string>, c: Capability)
    requires Resolved(rules, s, gitSecrets).Ok? && Allows(Resolved(rules, s, gitSecrets).value, c)
    ensures Within(s.limit, c)
  {
    if s.limit.Some? {
      SubsetExact(Resolved(rules, s, gitSecrets).value, s.limit.value);
    }
  }

  /**
   Whole-run safety. Whatever is resolved, and whatever input secret is accepted, at the end of a run
   lies within every limit the run has passed through and every ceiling it has entered.
   */
  lemma RunNeverEscapes(rules: NameRules, s: State, steps: seq<Step>, k: nat, c: Capability, gitSecrets: seq<string>)
    requires k <= |steps| && Run(rules, s, steps).Ok?
    requires var last := Run(rules, s, steps).value;
             || (Resolved(rules, last, gitSecrets).Ok? && Allows(Resolved(rules, last, gitSecrets).value, c))
             || (c.ResolveSecret? && c.name != "" && InputAllowed(last, c.name))
    ensures Run(rules, s, steps[..k]).Ok? && Within(Run(rules, s, steps[..k]).value.limit, c)
    ensures forall i :: 0 <= i < |steps| ==> StepAllows(steps[i], c)
  {
    var last := Run(rules, s, steps).value;
    if Resolved(rules, last, gitSecrets).Ok? && Allows(Resolved(rules, last, gitSecrets).value, c) {
      ResolvedWithinLimit(rules, last, gitSecrets, c);
    }
    assert Within(last.limit, c);
    RunNarrows(rules, s, steps, c);
    PrefixRuns(rules, s, steps, k);
    RunNarrows(rules, s, steps[..k], c);
    assert forall i :: 0 <= i < k ==> steps[..k][i] == steps[i];
  }
}
