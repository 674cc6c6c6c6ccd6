/**
 Negotiation of a running demand with an extension's request (pkg/execution/negotiation.go).
 The main results: what negotiation produces accepts exactly the allocations that the demand, the
 request and the job-wide overrides all accept, and so no run of negotiations weakens anything.
 */
module Negotiation {
  import opened Text
  import opened Requirements
  import Base

  datatype Demand = Demand(overrides: Requirements, schemaVersion: int, recipeResolution: string, effective: Requirements)

  datatype Refusal = Invalid(problem: Problem) | BaseOverride | ResourceOverride(field: string) | EnclosingBase

  function ScalarOf(lib: Library, value: Option<string>, f: Field): nat {
    if value.Some? then Scalar(lib, value.value, f) else 0
  }

  /** The larger of the prior and the next quantity in each of the first `n` fields. */
  function Raised(lib: Library, prior: Resources, next: Resources, n: nat): Resources
    requires n <= |Fields|
  {
    if n == 0 then next
    else
      var out, f := Raised(lib, prior, next, n - 1), Fields[n - 1];
      if prior.Get(f).Some? && ScalarOf(lib, prior.Get(f), f) > ScalarOf(lib, next.Get(f), f)
      then out.With(f, prior.Get(f)) else out
  }

  /** The finer of two selectors, if one refines the other. */
  ghost function FinerBase(current: Option<string>, requested: Option<string>): Option<Option<string>> {
    if current.None? || requested.None? || Base.Matches(current.value, requested.value) then Some(requested)
    else if Base.Matches(requested.value, current.value) then Some(current)
    else None
  }

  ghost predicate BaseOverrideConflict(needs: Requirements, overrides: Requirements) {
    && needs.base.Some? && overrides.base.Some? && needs.base != overrides.base
    && ('*' in overrides.base.value || !Base.Matches(needs.base.value, overrides.base.value))
  }

  function Layered(d: Demand, needs: Requirements): Requirements {
    Overlay(Overlay(d.effective, needs), d.overrides)
  }

  function OnlyResources(r: Resources): Requirements {
    Nothing.(resources := r)
  }

  function Supplying(r: Resources): Allocation {
    Allocation(SchemaVersion, "", {}, r)
  }

  ghost function Negotiated(lib: Library, d: Demand, needs: Requirements): Result<Demand, Refusal> {
    match Normalized(lib, Layered(d, needs))
    case Err(e) => Err(Invalid(e))
    case Ok(effective) =>
      if BaseOverrideConflict(needs, d.overrides) then Err(BaseOverride)
      else
        match Compared(lib, OnlyResources(needs.resources), Supplying(effective.resources))
        case Err(e) => Err(Invalid(e))
        case Ok(report) =>
          if report.resources != [] then Err(ResourceOverride(report.resources[0].field))
          else
            match FinerBase(d.effective.base, effective.base)
            case None => Err(EnclosingBase)
            case Some(base) =>
              var resources := Raised(lib, d.effective.resources, effective.resources, |Fields|);
              Ok(d.(effective := effective.(base := base, resources := resources)))
  }

  /** Negotiate. */
  method Negotiate(lib: Library, d: Demand, needs: Requirements) returns (result: Result<Demand, Refusal>)
    ensures result == Negotiated(lib, d, needs)
  {
    hide Normalized, Compared;
    var normal := Normalize(lib, Layered(d, needs));
    if normal.Err? {
      return Err(Invalid(normal.error));
    }
    var effective := normal.value;
    if needs.base.Some? && d.overrides.base.Some? && needs.base != d.overrides.base {
      var base := d.overrides.base.value;
      var covered := Base.MatchBase(needs.base.value, base);
      if '*' in base || !covered {
        return Err(BaseOverride);
      }
    }
    var compared := Compare(lib, OnlyResources(needs.resources), Supplying(effective.resources));
    if compared.Err? {
      return Err(Invalid(compared.error));
    }
    if compared.value.resources != [] {
      return Err(ResourceOverride(compared.value.resources[0].field));
    }
    var current, requested := d.effective.base, effective.base;
    if current.Some? && requested.Some? {
      var finer := Base.MatchBase(current.value, requested.value);
      if !finer {
        var encloses := Base.MatchBase(requested.value, current.value);
        if !encloses {
          return Err(EnclosingBase);
        }
        effective := effective.(base := current);
      }
    }
    var resources := RaiseResources(lib, d.effective.resources, effective.resources);
    result := Ok(d.(effective := effective.(resources := resources)));
  }

  method RaiseResources(lib: Library, prior: Resources, next: Resources) returns (out: Resources)
    ensures out == Raised(lib, prior, next, |Fields|)
  {
    hide Scalar;
    out := next;
    for i := 0 to |Fields|
      invariant out == Raised(lib, prior, next, i)
      invariant forall j :: i <= j < |Fields| ==> out.Get(Fields[j]) == next.Get(Fields[j])
    {
      var f := Fields[i];
      if prior.Get(f).Some? {
        if ScalarOf(lib, prior.Get(f), f) > ScalarOf(lib, out.Get(f), f) {
          out := out.With(f, prior.Get(f));
        }
      }
    }
  }

  // ---------------------------------------------------------------- the outcome as a meet

  lemma RaisedField(lib: Library, prior: Resources, next: Resources, f: Field)
    ensures Raised(lib, prior, next, |Fields|).Get(f) ==
            if prior.Get(f).Some? && ScalarOf(lib, prior.Get(f), f) > ScalarOf(lib, next.Get(f), f)
            then prior.Get(f) else next.Get(f)
  {
    hide Scalar;
    var r1, r2 := Raised(lib, prior, next, 1), Raised(lib, prior, next, 2);
    assert Raised(lib, prior, next, 0) == next;
    assert r1.memory == next.memory && r1.storage == next.storage;
    assert r2.cpu == r1.cpu && r2.storage == next.storage;
  }

  /** What a successful negotiation has established, field by field and for the base. */
  lemma NegotiatedShape(lib: Library, d: Demand, needs: Requirements)
    requires lib.Sound() && Negotiated(lib, d, needs).Ok?
    ensures var out := Negotiated(lib, d, needs).value;
            && out == d.(effective := out.effective)
            && out.effective.capabilities == d.effective.capabilities + needs.capabilities + d.overrides.capabilities
            && out.effective.packages == Distinct(d.effective.packages + needs.packages + d.overrides.packages)
            && Some(out.effective.base) == FinerBase(d.effective.base, Layered(d, needs).base)
            && Valid(lib, Layered(d, needs))
            && ValidResources(lib, needs.resources)
            && !BaseOverrideConflict(needs, d.overrides)
            && forall f :: FieldJoined(lib, f, d.effective.resources, needs.resources, d.overrides.resources, out.effective.resources)
  {
    hide Scalar, Normalized, Compared, FieldJoined, FinerBase, Supplies, SameField, ValidField, Distinct;
    var layered := Layered(d, needs);
    var effective := Normalized(lib, layered).value;
    NormalizedKeeps(lib, layered);
    AskedIsSupplied(lib, needs.resources, effective.resources);
    DistinctTwice(Overlay(d.effective, needs).packages + d.overrides.packages);
    DistinctFront(d.effective.packages + needs.packages, d.overrides.packages);
    forall f: Field
      ensures FieldJoined(lib, f, d.effective.resources, needs.resources, d.overrides.resources,
                          Negotiated(lib, d, needs).value.effective.resources)
    {
      FieldJoins(lib, f, d, needs, effective.resources);
    }
  }

  lemma AskedIsSupplied(lib: Library, needs: Resources, effective: Resources)
    requires lib.Sound()
    requires Compared(lib, OnlyResources(needs), Supplying(effective)).Ok?
    requires Compared(lib, OnlyResources(needs), Supplying(effective)).value.resources == []
    ensures ValidResources(lib, needs) && forall f :: Supplies(lib, f, needs, effective)
  {
    hide Scalar;
    AcceptsExactly(lib, OnlyResources(needs), Supplying(effective));
    assert Compared(lib, OnlyResources(needs), Supplying(effective)).value == NoMismatch;
    ValidExactly(lib, OnlyResources(needs));
  }

  lemma FieldJoins(lib: Library, f: Field, d: Demand, needs: Requirements, effective: Resources)
    requires Supplies(lib, f, needs.resources, effective)
    requires SameField(lib, Layered(d, needs).resources, effective, f)
    ensures FieldJoined(lib, f, d.effective.resources, needs.resources, d.overrides.resources,
                        Raised(lib, d.effective.resources, effective, |Fields|))
  {
    hide Scalar;
    RaisedField(lib, d.effective.resources, effective, f);
  }

  /** The negotiated field asks for the largest of the three quantities. */
  predicate FieldJoined(lib: Library, f: Field, prior: Resources, needs: Resources, overrides: Resources, out: Resources) {
    var p, n, o := prior.Get(f), needs.Get(f), overrides.Get(f);
    && (out.Get(f).Some? <==> p.Some? || n.Some? || o.Some?)
    && (out.Get(f).Some? ==>
          && (p.Some? ==> Scalar(lib, out.Get(f).value, f) >= Scalar(lib, p.value, f))
          && (n.Some? ==> Scalar(lib, out.Get(f).value, f) >= Scalar(lib, n.value, f))
          && (o.Some? ==> Scalar(lib, out.Get(f).value, f) >= Scalar(lib, o.value, f))
          && (Scalar(lib, out.Get(f).value, f) == ScalarOf(lib, p, f)
              || Scalar(lib, out.Get(f).value, f) == ScalarOf(lib, n, f)
              || Scalar(lib, out.Get(f).value, f) == ScalarOf(lib, o, f)))
  }

  lemma JoinedSupplies(lib: Library, f: Field, prior: Resources, needs: Resources, overrides: Resources, out: Resources, actual: Resources)
    requires FieldJoined(lib, f, prior, needs, overrides, out)
    ensures Supplies(lib, f, out, actual) <==>
              Supplies(lib, f, prior, actual) && Supplies(lib, f, needs, actual) && Supplies(lib, f, overrides, actual)
  {
    hide Scalar;
  }

  ghost predicate Covers(base: Option<string>, actual: string) {
    base.Some? ==> Base.Matches(base.value, actual)
  }

  /**
   The finer base covers a reported name exactly when all three do. For an unreported name it still
   implies the request and the overrides; the enclosing selector then fails exactly when the layered
   base is the lone `*` and the enclosing one is some other selector.
   */
  lemma NegotiatedBase(d: Demand, needs: Requirements, base: Option<string>, actual: string)
    requires Some(base) == FinerBase(d.effective.base, Layered(d, needs).base)
    requires !BaseOverrideConflict(needs, d.overrides)
    ensures actual != "" ==>
              (Covers(base, actual) <==>
                 Covers(d.effective.base, actual) && Covers(needs.base, actual) && Covers(d.overrides.base, actual))
    ensures Covers(base, actual) ==>
              && Covers(needs.base, actual) && Covers(d.overrides.base, actual)
              && (Covers(d.effective.base, actual) <==> actual != "" || !LoneStarRelaxes(d, needs))
  {
    var current, requested := d.effective.base, Layered(d, needs).base;
    if Covers(base, actual) && current.Some? {
      if base == requested {
        Base.MatchesTransitive(current.value, base.value, actual);
      } else {
        Base.MatchesTransitive(requested.value, base.value, actual);
      }
      assert Covers(requested, actual);
    }
    if needs.base.Some? && d.overrides.base.Some? && needs.base != d.overrides.base && Covers(requested, actual) {
      Base.MatchesTransitive(needs.base.value, d.overrides.base.value, actual);
    }
  }

  /** The layered base is the lone `*` although the enclosing demand uses another selector. */
  predicate LoneStarRelaxes(d: Demand, needs: Requirements) {
    Layered(d, needs).base == Some("*") && d.effective.base.Some? && d.effective.base != Some("*")
  }

  /** Nothing is lost from the demand, the request or the overrides, and their packages keep their order. */
  lemma NegotiatedPackages(lib: Library, d: Demand, needs: Requirements)
    requires lib.Sound() && Negotiated(lib, d, needs).Ok?
    ensures FirstOccurrences(Negotiated(lib, d, needs).value.effective.packages,
                             d.effective.packages + needs.packages + d.overrides.packages)
  {
    hide Negotiated, Distinct, FirstOccurrences;
    NegotiatedShape(lib, d, needs);
    DistinctIsFirstOccurrences(d.effective.packages + needs.packages + d.overrides.packages);
  }

  /** A successful negotiation leaves a valid demand if it was given one. */
  lemma NegotiatedValid(lib: Library, d: Demand, needs: Requirements)
    requires lib.Sound() && Negotiated(lib, d, needs).Ok? && Valid(lib, d.effective)
    ensures Valid(lib, Negotiated(lib, d, needs).value.effective)
  {
    hide Normalized, Compared, Distinct;
    NegotiatedShape(lib, d, needs);
    ValidExactly(lib, d.effective);
    ValidExactly(lib, Layered(d, needs));
    LayeredParts(d, needs);
    DistinctElements(d.effective.packages + needs.packages + d.overrides.packages);
    var effective := Negotiated(lib, d, needs).value.effective;
    ValidExactly(lib, effective);
    forall f: Field
      ensures ValidField(lib, effective.resources, f)
    {
      NegotiatedFieldValid(lib, d, needs, f);
    }
  }

  lemma NegotiatedFieldValid(lib: Library, d: Demand, needs: Requirements, f: Field)
    requires lib.Sound() && Negotiated(lib, d, needs).Ok? && ValidField(lib, d.effective.resources, f)
    ensures ValidField(lib, Negotiated(lib, d, needs).value.effective.resources, f)
  {
    hide Compared;
    var effective := Normalized(lib, Layered(d, needs)).value;
    NormalizedResourcesKeepValues(lib, Layered(d, needs).resources);
    assert ValidField(lib, effective.resources, f);
    RaisedField(lib, d.effective.resources, effective.resources, f);
  }

  /**
   Negotiation never weakens. Every allocation that meets the negotiated demand meets the request
   and the overrides, and it meets the enclosing demand unless it reports no base and the lone `*`
   relaxed another selector; that exception is exact.
   */
  lemma NeverWeakens(lib: Library, d: Demand, needs: Requirements, a: Allocation)
    requires lib.Sound() && Negotiated(lib, d, needs).Ok?
    requires Accepts(lib, Negotiated(lib, d, needs).value.effective, a)
    ensures Valid(lib, needs) ==> Accepts(lib, needs, a)
    ensures Valid(lib, d.overrides) ==> Accepts(lib, d.overrides, a)
    ensures Valid(lib, d.effective) ==>
              (Accepts(lib, d.effective, a) <==> a.base != "" || !LoneStarRelaxes(d, needs))
  {
    hide Compared, Negotiated, Normalized, NormalizedAllocation, FinerBase, FieldJoined;
    var out := Negotiated(lib, d, needs).value.effective;
    NegotiatedShape(lib, d, needs);
    AcceptsExactly(lib, out, a);
    AcceptsExactly(lib, d.effective, a);
    AcceptsExactly(lib, needs, a);
    AcceptsExactly(lib, d.overrides, a);
    NegotiatedBase(d, needs, out.base, a.base);
    forall f: Field
      ensures Supplies(lib, f, d.effective.resources, a.resources)
      ensures Supplies(lib, f, needs.resources, a.resources)
      ensures Supplies(lib, f, d.overrides.resources, a.resources)
    {
      JoinedSupplies(lib, f, d.effective.resources, needs.resources, d.overrides.resources, out.resources, a.resources);
    }
  }

  /** On allocations that report a base, negotiation is the exact meet of its operands. */
  lemma NegotiationIsMeet(lib: Library, d: Demand, needs: Requirements, a: Allocation)
    requires lib.Sound() && Negotiated(lib, d, needs).Ok? && a.base != ""
    requires Valid(lib, d.effective) && Valid(lib, needs) && Valid(lib, d.overrides)
    ensures Accepts(lib, Negotiated(lib, d, needs).value.effective, a) <==>
              Accepts(lib, d.effective, a) && Accepts(lib, needs, a) && Accepts(lib, d.overrides, a)
  {
    hide Compared, Negotiated, Normalized, NormalizedAllocation, FinerBase, FieldJoined;
    var out := Negotiated(lib, d, needs).value.effective;
    if Accepts(lib, out, a) {
      NeverWeakens(lib, d, needs, a);
    } else if Accepts(lib, d.effective, a) && Accepts(lib, needs, a) && Accepts(lib, d.overrides, a) {
      NegotiatedShape(lib, d, needs);
      NegotiatedValid(lib, d, needs);
      AcceptsExactly(lib, out, a);
      AcceptsExactly(lib, d.effective, a);
      AcceptsExactly(lib, needs, a);
      AcceptsExactly(lib, d.overrides, a);
      NegotiatedBase(d, needs, out.base, a.base);
      forall f: Field
        ensures Supplies(lib, f, out.resources, a.resources)
      {
        JoinedSupplies(lib, f, d.effective.resources, needs.resources, d.overrides.resources, out.resources, a.resources);
      }
    }
  }

  /** The exception is real: an unreported base meets the negotiated demand, not the enclosing one. */
  lemma LoneStarExample(lib: Library)
    requires lib.Sound()
    ensures var d := Demand(Nothing, 4, "resolved", Nothing.(base := Some("**")));
            var needs := Nothing.(base := Some("*"));
            var a := Supplying(NoResources);
            && Negotiated(lib, d, needs).Ok? && Valid(lib, d.effective)
            && Accepts(lib, Negotiated(lib, d, needs).value.effective, a) && !Accepts(lib, d.effective, a)
  {
    var d := Demand(Nothing, 4, "resolved", Nothing.(base := Some("**")));
    var needs := Nothing.(base := Some("*"));
    Base.UnreportedBaseBreaksRefinement();
    AcceptsExactly(lib, OnlyResources(NoResources), Supplying(NoResources));
    AcceptsExactly(lib, needs, Supplying(NoResources));
    AcceptsExactly(lib, d.effective, Supplying(NoResources));
    assert Layered(d, needs) == needs;
    assert NormalizedResources(lib, NoResources, |Fields|) == Ok(NoResources) by {
      assert NormalizedResources(lib, NoResources, 1) == Ok(NoResources);
      assert NormalizedResources(lib, NoResources, 2) == Ok(NoResources);
    }
    assert Normalized(lib, needs) == Ok(needs);
    assert FinerBase(d.effective.base, needs.base) == Some(needs.base);
    assert Raised(lib, NoResources, NoResources, |Fields|) == NoResources by {
      RaisedField(lib, NoResources, NoResources, CPU);
      RaisedField(lib, NoResources, NoResources, Memory);
      RaisedField(lib, NoResources, NoResources, EphemeralStorage);
    }
    assert Negotiated(lib, d, needs).value.effective == needs;
  }

  // ---------------------------------------------------------------- when negotiation succeeds

  /** The value a layer of overrides leaves in force: the last one given. */
  function InForce(current: Option<string>, needs: Option<string>, overrides: Option<string>): Option<string> {
    if overrides.Some? then overrides else if needs.Some? then needs else current
  }

  /** Names, the base in force and the quantities in force are all usable. */
  ghost predicate LayersValid(lib: Library, d: Demand, needs: Requirements) {
    && (forall c :: c in d.effective.capabilities || c in needs.capabilities || c in d.overrides.capabilities ==> lib.capabilityName(c))
    && (forall p :: p in d.effective.packages || p in needs.packages || p in d.overrides.packages ==> lib.packageRef(p))
    && var base := InForce(d.effective.base, needs.base, d.overrides.base);
       && (base.Some? ==> Base.ValidBase(base.value, false))
       && forall f: Field ::
            var v := InForce(d.effective.resources.Get(f), needs.resources.Get(f), d.overrides.resources.Get(f));
            v.Some? ==> lib.scalar(f, v.value).Some?
  }

  /** An override asks for less than the request. */
  predicate Undercut(lib: Library, d: Demand, needs: Requirements, f: Field) {
    && needs.resources.Get(f).Some? && d.overrides.resources.Get(f).Some?
    && Scalar(lib, d.overrides.resources.Get(f).value, f) < Scalar(lib, needs.resources.Get(f).value, f)
  }

  /** The base in force and the enclosing base can be combined: one of them covers the other. */
  ghost predicate Combinable(d: Demand, needs: Requirements) {
    var base := InForce(d.effective.base, needs.base, d.overrides.base);
    d.effective.base.Some? && base.Some? ==>
      Base.Matches(d.effective.base.value, base.value) || Base.Matches(base.value, d.effective.base.value)
  }

  lemma LayeredParts(d: Demand, needs: Requirements)
    ensures var l := Layered(d, needs);
            && l.base == InForce(d.effective.base, needs.base, d.overrides.base)
            && l.capabilities == d.effective.capabilities + needs.capabilities + d.overrides.capabilities
            && (forall p :: p in l.packages <==> p in d.effective.packages || p in needs.packages || p in d.overrides.packages)
            && forall f: Field ::
                 l.resources.Get(f) == InForce(d.effective.resources.Get(f), needs.resources.Get(f), d.overrides.resources.Get(f))
  {
    DistinctElements(d.effective.packages + needs.packages);
    DistinctElements(Distinct(d.effective.packages + needs.packages) + d.overrides.packages);
    hide Distinct;
  }

  lemma LayersValidExactly(lib: Library, d: Demand, needs: Requirements)
    requires lib.Sound()
    ensures Valid(lib, Layered(d, needs)) <==> LayersValid(lib, d, needs)
  {
    ValidExactly(lib, Layered(d, needs));
    LayeredParts(d, needs);
    hide Layered, Valid, Base.ValidBase;
    var l := Layered(d, needs);
    forall f: Field
      ensures ValidField(lib, l.resources, f) <==>
                var v := InForce(d.effective.resources.Get(f), needs.resources.Get(f), d.overrides.resources.Get(f));
                v.Some? ==> lib.scalar(f, v.value).Some?
    {
    }
    hide ValidField, InForce;
    assert forall c :: c in l.capabilities <==> c in d.effective.capabilities || c in needs.capabilities || c in d.overrides.capabilities;
    assert (forall p :: p in l.packages ==> lib.packageRef(p)) <==>
           (forall p :: p in d.effective.packages || p in needs.packages || p in d.overrides.packages ==> lib.packageRef(p));
  }

  /** The request is compared with what is in force: a mismatch is an override that undercuts it. */
  lemma UndercutExactly(lib: Library, d: Demand, needs: Requirements)
    requires lib.Sound() && Valid(lib, Layered(d, needs))
    ensures var effective := Normalized(lib, Layered(d, needs)).value.resources;
            var compared := Compared(lib, OnlyResources(needs.resources), Supplying(effective));
            && (compared.Ok? <==> ValidResources(lib, needs.resources))
            && (compared.Ok? ==> (compared.value.resources == [] <==> forall f :: !Undercut(lib, d, needs, f)))
  {
    var effective := Normalized(lib, Layered(d, needs)).value.resources;
    var asked, offered := OnlyResources(needs.resources), Supplying(effective);
    NormalizedKeeps(lib, Layered(d, needs));
    LayeredParts(d, needs);
    NormalizedResourcesKeepValues(lib, Layered(d, needs).resources);
    AllocationNormalizesExactly(lib, offered);
    ValidExactly(lib, asked);
    AcceptsExactly(lib, asked, offered);
    hide Scalar, Layered, Normalized, NormalizedAllocation, NormalizedResources, ResourceMismatches;
    forall f: Field
      ensures Supplies(lib, f, needs.resources, effective) <==> !Undercut(lib, d, needs, f)
    {
      assert SameField(lib, Layered(d, needs).resources, effective, f);
    }
    if Compared(lib, asked, offered).Ok? {
      var report := Compared(lib, asked, offered).value;
      assert report.missing == [] && report.base == [] by {
        NothingElseAsked(lib, asked, offered);
      }
    }
  }

  lemma NothingElseAsked(lib: Library, asked: Requirements, offered: Allocation)
    requires asked == OnlyResources(asked.resources) && Compared(lib, asked, offered).Ok?
    ensures Compared(lib, asked, offered).value.missing == [] && Compared(lib, asked, offered).value.base == []
  {
    hide NormalizedResources, ResourceMismatches;
  }

  /** Exactly when negotiation succeeds, and exactly which refusal it gives otherwise. */
  lemma NegotiatesExactly(lib: Library, d: Demand, needs: Requirements)
    requires lib.Sound()
    ensures var result := Negotiated(lib, d, needs);
            var usable := LayersValid(lib, d, needs);
            var conflict := BaseOverrideConflict(needs, d.overrides);
            var undercut := exists f :: Undercut(lib, d, needs, f);
            var asked := ValidResources(lib, needs.resources);
            && (result.Ok? <==> usable && !conflict && asked && !undercut && Combinable(d, needs))
            && (result == Err(BaseOverride) <==> usable && conflict)
            && (result.Err? && result.error.ResourceOverride? <==> usable && !conflict && asked && undercut)
            && (result == Err(EnclosingBase) <==> usable && !conflict && asked && !undercut && !Combinable(d, needs))
            && (result.Err? && result.error.Invalid? <==> !usable || (!conflict && !asked))
  {
    LayersValidExactly(lib, d, needs);
    LayeredParts(d, needs);
    if Valid(lib, Layered(d, needs)) {
      UndercutExactly(lib, d, needs);
      NormalizedKeeps(lib, Layered(d, needs));
    }
    hide Scalar, Normalized, Compared, Layered, LayersValid, Undercut, BaseOverrideConflict, Raised, ValidResources;
  }

  // ---------------------------------------------------------------- whole runs

  /** Any number of requests negotiated one after the other. */
  ghost function NegotiatedAll(lib: Library, d: Demand, requests: seq<Requirements>): Result<Demand, Refusal> {
    if requests == [] then Ok(d)
    else
      match NegotiatedAll(lib, d, requests[..|requests| - 1])
      case Err(e) => Err(e)
      case Ok(before) => Negotiated(lib, before, requests[|requests| - 1])
  }

  /** The demand after any run accepts exactly what the first demand, every request and the overrides accept. */
  lemma {:induction false} RunIsMeet(lib: Library, d: Demand, requests: seq<Requirements>, a: Allocation)
    requires lib.Sound() && a.base != "" && NegotiatedAll(lib, d, requests).Ok?
    requires Valid(lib, d.effective) && Valid(lib, d.overrides)
    requires forall i :: 0 <= i < |requests| ==> Valid(lib, requests[i])
    ensures var out := NegotiatedAll(lib, d, requests).value;
            && out.overrides == d.overrides && Valid(lib, out.effective)
            && (Accepts(lib, out.effective, a) <==>
                  && Accepts(lib, d.effective, a)
                  && (requests != [] ==> Accepts(lib, d.overrides, a))
                  && forall i :: 0 <= i < |requests| ==> Accepts(lib, requests[i], a))
  {
    hide Negotiated, Accepts, Valid;
    if requests != [] {
      var front, last := requests[..|requests| - 1], requests[|requests| - 1];
      assert forall i :: 0 <= i < |front| ==> front[i] == requests[i];
      RunIsMeet(lib, d, front, a);
      var before := NegotiatedAll(lib, d, front).value;
      NegotiatedShape(lib, before, last);
      NegotiatedValid(lib, before, last);
      NegotiationIsMeet(lib, before, last, a);
    }
  }

  /** All packages of a run one after the other: the demand's, and for each request its own and the overrides'. */
  function RunPackages(d: Demand, requests: seq<Requirements>): seq<string> {
    if requests == [] then d.effective.packages
    else RunPackages(d, requests[..|requests| - 1]) + requests[|requests| - 1].packages + d.overrides.packages
  }

  lemma {:induction false} RunDistinct(lib: Library, d: Demand, requests: seq<Requirements>)
    requires lib.Sound() && NegotiatedAll(lib, d, requests).Ok?
    ensures var out := NegotiatedAll(lib, d, requests).value;
            && out.overrides == d.overrides
            && (requests != [] ==> out.effective.packages == Distinct(RunPackages(d, requests)))
  {
    hide Negotiated, Distinct;
    if requests != [] {
      var front, last := requests[..|requests| - 1], requests[|requests| - 1];
      RunDistinct(lib, d, front);
      var before := NegotiatedAll(lib, d, front).value;
      NegotiatedShape(lib, before, last);
      var all, more := RunPackages(d, front), last.packages + d.overrides.packages;
      DistinctFront(all, more);
      assert Distinct(all) + last.packages + d.overrides.packages == Distinct(all) + more;
      assert RunPackages(d, requests) == all + more;
      if front == [] {
        assert all + last.packages + d.overrides.packages == all + more;
      }
    }
  }

  /** After any run with a request, every package asked for is there once, in the order of first occurrence. */
  lemma RunKeepsPackages(lib: Library, d: Demand, requests: seq<Requirements>)
    requires lib.Sound() && NegotiatedAll(lib, d, requests).Ok? && requests != []
    ensures FirstOccurrences(NegotiatedAll(lib, d, requests).value.effective.packages, RunPackages(d, requests))
  {
    RunDistinct(lib, d, requests);
    DistinctIsFirstOccurrences(RunPackages(d, requests));
  }
}
