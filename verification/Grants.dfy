/**
 JobDB grants (pkg/permissions/policy.go) and what they let a task do (pkg/permissions/access.go).
 A nil list of cell names means any cell; the model keeps that as None.
 */
module Grants {
  import opened Text

  /** The name rules of JobDB and of secrets, left uninterpreted. */
  datatype NameRules = NameRules(cell: string -> bool, secret: string -> bool)

  datatype Action = Action(allowed: bool, names: Option<seq<string>>)

  datatype Grant = Grant(secrets: seq<string>, jobs: Action, cells: Action)

  const Forbidden := Action(false, None)
  const NoGrant := Grant([], Forbidden, Forbidden)

  datatype Capability = ResolveSecret(name: string) | SubmitJob(cell: string) | CreateCell(cell: string)

  predicate Permits(a: Action, cell: string) {
    a.allowed && (a.names.Some? ==> cell in a.names.value)
  }

  /** The checks of Access.CheckSecrets, Access.Submit and Access.CreateCell. */
  predicate Allows(g: Grant, c: Capability) {
    match c
    case ResolveSecret(name) => name in g.secrets
    case SubmitJob(cell) => Permits(g.jobs, cell)
    case CreateCell(cell) => Permits(g.cells, cell)
  }

  predicate ValidNames(rule: string -> bool, names: seq<string>) {
    NoRepeats(names) && forall n :: n in names ==> rule(n)
  }

  predicate ValidAction(rules: NameRules, a: Action) {
    a.names.Some? ==> a.allowed && a.names.value != [] && ValidNames(rules.cell, a.names.value)
  }

  predicate Valid(rules: NameRules, g: Grant) {
    && ValidAction(rules, g.cells)
    && ValidAction(rules, g.jobs)
    && |g.secrets| <= 256
    && ValidNames(rules.secret, g.secrets)
  }

  /** JobDB.Validate. */
  method Validate(rules: NameRules, g: Grant) returns (ok: bool)
    ensures ok <==> Valid(rules, g)
  {
    if g.cells.names.Some? {
      if !g.cells.allowed || |g.cells.names.value| == 0 {
        return false;
      }
      var valid := CheckNames(rules.cell, g.cells.names.value);
      if !valid {
        return false;
      }
    }
    if g.jobs.names.Some? {
      if !g.jobs.allowed || |g.jobs.names.value| == 0 {
        return false;
      }
      var valid := CheckNames(rules.cell, g.jobs.names.value);
      if !valid {
        return false;
      }
    }
    if |g.secrets| > 256 {
      return false;
    }
    ok := CheckNames(rules.secret, g.secrets);
  }

  method CheckNames(rule: string -> bool, names: seq<string>) returns (ok: bool)
    ensures ok <==> ValidNames(rule, names)
  {
    var seen: set<string> := {};
    for i := 0 to |names|
      invariant forall n :: n in seen <==> n in names[..i]
      invariant NoRepeats(names[..i]) && forall n :: n in names[..i] ==> rule(n)
    {
      if !rule(names[i]) || names[i] in seen {
        assert names[i] in names[..i] ==> exists j :: 0 <= j < i && names[j] == names[i];
        return false;
      }
      seen := seen + {names[i]};
      assert names[..i + 1] == names[..i] + [names[i]];
    }
    assert names[..|names|] == names;
    ok := true;
  }

  // ---------------------------------------------------------------- intersection

  /** The names of `a` that are also in `b`, in the order of `a`. */
  function Common(a: seq<string>, b: seq<string>): seq<string> {
    if a == [] then []
    else
      var front := Common(a[..|a| - 1], b);
      if a[|a| - 1] in b then front + [a[|a| - 1]] else front
  }

  function IntersectAction(a: Action, b: Action): Action {
    if !(a.allowed && b.allowed) then Forbidden
    else if a.names.None? then Action(true, b.names)
    else if b.names.None? then Action(true, a.names)
    else
      var both := Common(a.names.value, b.names.value);
      if both == [] then Forbidden else Action(true, Some(both))
  }

  function Intersect(a: Grant, b: Grant): Grant {
    Grant(Common(a.secrets, b.secrets), IntersectAction(a.jobs, b.jobs), IntersectAction(a.cells, b.cells))
  }

  /** The append loop that each part of intersect runs. */
  method CollectCommon(a: seq<string>, b: seq<string>) returns (out: seq<string>)
    ensures out == Common(a, b)
  {
    out := [];
    for i := 0 to |a|
      invariant out == Common(a[..i], b)
    {
      assert a[..i + 1][..i] == a[..i];
      if a[i] in b {
        out := out + [a[i]];
      }
    }
    assert a[..|a|] == a;
  }

  lemma {:induction false} CommonExact(a: seq<string>, b: seq<string>)
    ensures forall n :: n in Common(a, b) <==> n in a && n in b
    ensures NoRepeats(a) ==> NoRepeats(Common(a, b))
    ensures |Common(a, b)| <= |a|
  {
    if a != [] {
      var front, x := a[..|a| - 1], a[|a| - 1];
      assert a == front + [x];
      CommonExact(front, b);
      if NoRepeats(a) {
        assert NoRepeats(front) by {
          assert forall i :: 0 <= i < |front| ==> front[i] == a[i];
        }
        assert x !in front;
      }
    }
  }

  lemma IntersectActionExact(a: Action, b: Action, cell: string)
    ensures Permits(IntersectAction(a, b), cell) <==> Permits(a, cell) && Permits(b, cell)
  {
    if a.names.Some? && b.names.Some? {
      CommonExact(a.names.value, b.names.value);
    }
  }

  /** The intersection allows exactly what both operands allow, whether or not they are valid. */
  lemma IntersectExact(a: Grant, b: Grant, c: Capability)
    ensures Allows(Intersect(a, b), c) <==> Allows(a, c) && Allows(b, c)
  {
    match c
    case ResolveSecret(name) => CommonExact(a.secrets, b.secrets);
    case SubmitJob(cell) => IntersectActionExact(a.jobs, b.jobs, cell);
    case CreateCell(cell) => IntersectActionExact(a.cells, b.cells, cell);
  }

  lemma IntersectValid(rules: NameRules, a: Grant, b: Grant)
    requires Valid(rules, a) && Valid(rules, b)
    ensures Valid(rules, Intersect(a, b))
  {
    CommonExact(a.secrets, b.secrets);
    IntersectActionValid(rules, a.jobs, b.jobs);
    IntersectActionValid(rules, a.cells, b.cells);
  }

  lemma IntersectActionValid(rules: NameRules, a: Action, b: Action)
    requires ValidAction(rules, a) && ValidAction(rules, b)
    ensures ValidAction(rules, IntersectAction(a, b))
  {
    if a.names.Some? && b.names.Some? {
      CommonExact(a.names.value, b.names.value);
    }
  }

  // ---------------------------------------------------------------- inclusion

  predicate AllIn(names: seq<string>, of: seq<string>) {
    forall n :: n in names ==> n in of
  }

  predicate SubsetCells(a: Action, b: Action) {
    a.allowed ==>
      && b.allowed
      && (b.names.Some? ==> a.names.Some? && AllIn(a.names.value, b.names.value))
  }

  predicate SubsetJobs(a: Action, b: Action) {
    && (a.allowed && b.names.Some? ==> a.names.Some? && AllIn(a.names.value, b.names.value))
    && (a.allowed ==> b.allowed)
  }

  predicate Subset(a: Grant, b: Grant) {
    SubsetCells(a.cells, b.cells) && SubsetJobs(a.jobs, b.jobs) && AllIn(a.secrets, b.secrets)
  }

  /** Some text is longer than every listed name, so no list covers all cells. */
  lemma {:induction false} UnlistedName(names: seq<string>) returns (name: string)
    ensures name !in names
    ensures forall n :: n in names ==> |n| < |name|
  {
    if names == [] {
      name := "x";
    } else {
      var shorter := UnlistedName(names[1..]);
      name := shorter + names[0] + "x";
      assert names == [names[0]] + names[1..];
    }
  }

  /** Allowed, but for no cell at all; validation refuses it, and it permits nothing. */
  predicate Idle(a: Action) {
    a.allowed && a.names == Some([])
  }

  lemma SubsetActionExact(a: Action, b: Action)
    ensures SubsetJobs(a, b) <==> (forall cell :: Permits(a, cell) ==> Permits(b, cell)) && (Idle(a) ==> b.allowed)
    ensures SubsetCells(a, b) <==> SubsetJobs(a, b)
  {
    if (forall cell :: Permits(a, cell) ==> Permits(b, cell)) && a.allowed && !Idle(a) {
      if a.names.None? {
        var names := if b.names.Some? then b.names.value else [];
        var other := UnlistedName(names);
        assert Permits(a, other);
      } else {
        assert Permits(a, a.names.value[0]);
        forall n | n in a.names.value
          ensures Permits(b, n)
        {
          assert Permits(a, n);
        }
      }
    }
  }

  /**
   The inclusion test holds just when everything `a` allows, `b` allows, and `b` allows every action
   that `a` allows for no cell at all. Validity is not needed.
   */
  lemma SubsetExact(a: Grant, b: Grant)
    ensures Subset(a, b) <==>
              && (forall c :: Allows(a, c) ==> Allows(b, c))
              && (Idle(a.jobs) ==> b.jobs.allowed) && (Idle(a.cells) ==> b.cells.allowed)
  {
    SubsetActionExact(a.jobs, b.jobs);
    SubsetActionExact(a.cells, b.cells);
    if forall c :: Allows(a, c) ==> Allows(b, c) {
      forall n | n in a.secrets
        ensures n in b.secrets
      {
        assert Allows(a, ResolveSecret(n));
      }
      forall cell | Permits(a.jobs, cell)
        ensures Permits(b.jobs, cell)
      {
        assert Allows(a, SubmitJob(cell));
      }
      forall cell | Permits(a.cells, cell)
        ensures Permits(b.cells, cell)
      {
        assert Allows(a, CreateCell(cell));
      }
    }
  }

  /** A valid grant holds no such action, so against one the test is exact inclusion of what is allowed. */
  lemma SubsetExactWhenValid(rules: NameRules, a: Grant, b: Grant)
    requires Valid(rules, a)
    ensures Subset(a, b) <==> forall c :: Allows(a, c) ==> Allows(b, c)
  {
    SubsetExact(a, b);
  }

  /** Otherwise it may not be: a submit grant for no cell at all allows nothing, and is not included in no grant. */
  lemma IdleActionExample()
    ensures var a := NoGrant.(jobs := Action(true, Some([])));
            !Subset(a, NoGrant) && forall c :: Allows(a, c) ==> Allows(NoGrant, c)
  {
  }

  /** Intersection is the greatest lower bound for the inclusion test; only the grant compared must allow no idle action. */
  lemma IntersectIsMeet(a: Grant, b: Grant, g: Grant)
    ensures !Idle(g.jobs) && !Idle(g.cells) ==> (Subset(g, Intersect(a, b)) <==> Subset(g, a) && Subset(g, b))
    ensures Subset(Intersect(a, b), a) && Subset(Intersect(a, b), b)
  {
    hide Subset, Allows;
    var both := Intersect(a, b);
    forall c
      ensures Allows(both, c) <==> Allows(a, c) && Allows(b, c)
    {
      IntersectExact(a, b, c);
    }
    SubsetExact(g, both);
    SubsetExact(g, a);
    SubsetExact(g, b);
    SubsetExact(both, a);
    SubsetExact(both, b);
  }

  /** Sorting the secrets of a grant changes nothing a grant allows. */
  lemma SortedSecrets(rules: NameRules, g: Grant)
    requires Valid(rules, g)
    ensures var sorted := g.(secrets := SortCompact(g.secrets));
            && Valid(rules, sorted) && Subset(sorted, g)
            && forall c :: Allows(sorted, c) <==> Allows(g, c)
  {
    SortCompactExact(g.secrets);
    SortCompactLength(g.secrets);
  }
}
