/**
 Requirements, allocations and their comparison (pkg/execution/requirements.go,
 compatibility.go, packages.go, capabilities.go). The legacy image and platform fields are absent
 throughout, that is, nil.
 */
module Requirements {
  import opened Text
  import Base
  import Quantity

  const SchemaVersion := 2
  const LegacySchemaVersion := 1

  datatype Field = CPU | Memory | EphemeralStorage

  const Fields := [CPU, Memory, EphemeralStorage]

  function UnitOf(f: Field): Quantity.Unit {
    if f == CPU then Quantity.Cores else Quantity.Bytes
  }

  /**
   How names and quantities are read: the capability-name pattern, the local package-reference
   syntax, and for each resource field the number a text denotes and its canonical text.
   */
  datatype Library = Library(capabilityName: string -> bool, packageRef: string -> bool,
                             scalar: (Field, string) -> Option<nat>, normal: (Field, string) -> Option<string>) {
    /** Exactly the texts that denote a number have a canonical text, and it denotes the same number. */
    ghost predicate Sound() {
      forall f, v {:trigger normal(f, v)} ::
        && (normal(f, v).Some? <==> scalar(f, v).Some?)
        && (normal(f, v).Some? ==> scalar(f, normal(f, v).value) == scalar(f, v))
    }
  }

  function QuantityOf(f: Field, v: string): Option<nat> {
    Quantity.Parse(v, UnitOf(f))
  }

  function CanonicalText(f: Field, v: string, printed: string): Option<string> {
    if f == CPU then Quantity.NormalizeCPU(v) else Quantity.NormalizeBytes(v, printed)
  }

  /** The package's own reading of quantities; `printed` is the text the Kubernetes quantity type prints. */
  function Standard(capabilityName: string -> bool, packageRef: string -> bool, printed: string -> string): Library {
    Library(capabilityName, packageRef, QuantityOf, (f: Field, v: string) => CanonicalText(f, v, printed(v)))
  }

  lemma CanonicalTextKeepsValue(f: Field, v: string, printed: string)
    requires Quantity.Faithful(v, printed)
    ensures CanonicalText(f, v, printed).Some? <==> QuantityOf(f, v).Some?
    ensures CanonicalText(f, v, printed).Some? ==>
              QuantityOf(f, CanonicalText(f, v, printed).value) == QuantityOf(f, v)
  {
    hide Quantity.Parse, Quantity.NormalizeCPU, Quantity.NormalizeBytes;
    if f == CPU {
      Quantity.NormalizeCPUKeepsValue(v);
    } else {
      Quantity.NormalizeBytesKeepsValue(v, printed);
    }
  }

  /** It is sound when every text the printer gives a unit denotes the quantity that was printed. */
  lemma StandardSound(capabilityName: string -> bool, packageRef: string -> bool, printed: string -> string)
    requires forall v {:trigger printed(v)} :: Quantity.Faithful(v, printed(v))
    ensures Standard(capabilityName, packageRef, printed).Sound()
  {
    hide CanonicalText, QuantityOf, Quantity.Faithful;
    forall f, v
      ensures CanonicalText(f, v, printed(v)).Some? <==> QuantityOf(f, v).Some?
      ensures CanonicalText(f, v, printed(v)).Some? ==>
                QuantityOf(f, CanonicalText(f, v, printed(v)).value) == QuantityOf(f, v)
    {
      CanonicalTextKeepsValue(f, v, printed(v));
    }
  }

  datatype Resources = Resources(cpu: Option<string>, memory: Option<string>, storage: Option<string>) {
    function Get(f: Field): Option<string> {
      match f
      case CPU => cpu
      case Memory => memory
      case EphemeralStorage => storage
    }

    function With(f: Field, v: Option<string>): (r: Resources)
      ensures forall g :: r.Get(g) == if g == f then v else Get(g)
    {
      match f
      case CPU => this.(cpu := v)
      case Memory => this.(memory := v)
      case EphemeralStorage => this.(storage := v)
    }
  }

  const NoResources := Resources(None, None, None)

  /** Capabilities are kept sorted without repeats, so they are a set here, and listed in ascending order. */
  datatype Requirements = Requirements(base: Option<string>, capabilities: set<string>, packages: seq<string>,
                                       resources: Resources)

  const Nothing := Requirements(None, {}, [], NoResources)

  datatype Allocation = Allocation(schemaVersion: int, base: string, capabilities: set<string>, resources: Resources)

  datatype Problem = BadBase | BadCapability | BadPackage | BadResource(field: Field) | BadVersion

  // ---------------------------------------------------------------- overlay

  function Choose(base: Option<string>, override: Option<string>): Option<string> {
    if override.Some? then override else base
  }

  /** The first occurrence of every element, in order. */
  function Distinct(s: seq<string>): seq<string> {
    if s == [] then []
    else
      var d := Distinct(s[..|s| - 1]);
      if s[|s| - 1] in d then d else d + [s[|s| - 1]]
  }

  lemma DistinctSnoc(s: seq<string>, x: string)
    ensures Distinct(s + [x]) == if x in Distinct(s) then Distinct(s) else Distinct(s) + [x]
  {
    assert (s + [x])[..|s|] == s;
  }

  /** Nothing is lost, nothing is added, nothing repeats. */
  lemma {:induction false} DistinctElements(s: seq<string>)
    ensures forall x :: x in Distinct(s) <==> x in s
    ensures forall i, j :: 0 <= i < j < |Distinct(s)| ==> Distinct(s)[i] != Distinct(s)[j]
  {
    if s != [] {
      var front, x := s[..|s| - 1], s[|s| - 1];
      assert s == front + [x];
      DistinctElements(front);
      DistinctSnoc(front, x);
    }
  }

  /** The elements of `all` once each, in the order in which they first occur there. */
  ghost predicate FirstOccurrences(list: seq<string>, all: seq<string>) {
    && NoRepeats(list)
    && (forall x :: x in list <==> x in all)
    && (forall i, j :: 0 <= i < j < |list| ==> Position(all, list[i]) < Position(all, list[j]))
  }

  lemma PositionSnoc(all: seq<string>, x: string, y: string)
    ensures Position(all + [x], y) == if y in all then Position(all, y) else if x == y then |all| else |all| + 1
  {
    var p := if y in all then Position(all, y) else if x == y then |all| else |all| + 1;
    if y in all {
      assert Position(all, y) < |all|;
    }
    assert p <= |all| ==> (all + [x])[..p] == all[..p];
    assert all[..|all|] == all;
    FirstPosition(all + [x], y, p);
  }

  lemma {:induction false} DistinctIsFirstOccurrences(all: seq<string>)
    ensures FirstOccurrences(Distinct(all), all)
  {
    DistinctElements(all);
    if all != [] {
      var front, x := all[..|all| - 1], all[|all| - 1];
      assert all == front + [x];
      DistinctIsFirstOccurrences(front);
      DistinctSnoc(front, x);
      var list := Distinct(all);
      forall i, j | 0 <= i < j < |list|
        ensures Position(all, list[i]) < Position(all, list[j])
      {
        PositionSnoc(front, x, list[i]);
        PositionSnoc(front, x, list[j]);
      }
    }
  }

  /** mergePackages. */
  method MergePackages(base: seq<string>, override: seq<string>) returns (result: seq<string>)
    ensures result == Distinct(base + override)
  {
    var none: seq<string>, seen: set<string> := [], {};
    assert Distinct(none) == none;
    result, seen := AppendUnseen(none, none, seen, base);
    assert none + base == base;
    result, seen := AppendUnseen(base, result, seen, override);
  }

  /** One round of the outer loop of mergePackages: appends what `list` adds to what was read before. */
  method AppendUnseen(ghost before: seq<string>, start: seq<string>, startSeen: set<string>, list: seq<string>)
    returns (result: seq<string>, seen: set<string>)
    requires start == Distinct(before) && forall x :: x in startSeen <==> x in start
    ensures result == Distinct(before + list) && forall x :: x in seen <==> x in result
  {
    hide Distinct;
    result, seen := start, startSeen;
    assert before + list[..0] == before;
    for i := 0 to |list|
      invariant result == Distinct(before + list[..i])
      invariant forall x :: x in seen <==> x in result
    {
      DistinctSnoc(before + list[..i], list[i]);
      assert before + list[..i + 1] == before + list[..i] + [list[i]];
      if list[i] !in seen {
        result := result + [list[i]];
        seen := seen + {list[i]};
      }
    }
    assert list[..|list|] == list;
  }

  lemma {:induction false} DistinctTwice(a: seq<string>)
    ensures Distinct(Distinct(a)) == Distinct(a)
  {
    if a != [] {
      var front, x := a[..|a| - 1], a[|a| - 1];
      assert a == front + [x];
      DistinctTwice(front);
      DistinctSnoc(front, x);
      DistinctSnoc(Distinct(front), x);
    }
  }

  lemma {:induction false} DistinctFront(a: seq<string>, b: seq<string>)
    ensures Distinct(Distinct(a) + b) == Distinct(a + b)
  {
    hide Distinct;
    if b == [] {
      assert Distinct(a) + b == Distinct(a) && a + b == a;
      DistinctTwice(a);
    } else {
      var front, x := b[..|b| - 1], b[|b| - 1];
      DistinctFront(a, front);
      DistinctSnoc(Distinct(a) + front, x);
      DistinctSnoc(a + front, x);
      assert Distinct(a) + b == Distinct(a) + front + [x] && a + b == a + front + [x];
    }
  }

  lemma {:induction false} DistinctBack(a: seq<string>, b: seq<string>)
    ensures Distinct(a + Distinct(b)) == Distinct(a + b)
  {
    assert Distinct([]) == [];
    hide Distinct;
    if b == [] {
    } else {
      var front, x := b[..|b| - 1], b[|b| - 1];
      assert b == front + [x] && a + b == a + front + [x];
      DistinctBack(a, front);
      DistinctSnoc(front, x);
      DistinctSnoc(a + front, x);
      if x in Distinct(front) {
        DistinctElements(front);
        DistinctElements(a + front);
      } else {
        DistinctSnoc(a + Distinct(front), x);
        assert a + Distinct(b) == a + Distinct(front) + [x];
      }
    }
  }

  function Overlay(base: Requirements, override: Requirements): Requirements {
    Requirements(
      Choose(base.base, override.base),
      base.capabilities + override.capabilities,
      Distinct(base.packages + override.packages),
      Resources(
        Choose(base.resources.cpu, override.resources.cpu),
        Choose(base.resources.memory, override.resources.memory),
        Choose(base.resources.storage, override.resources.storage)))
  }

  /** Layers of overrides can be combined in either order of grouping. */
  lemma OverlayAssociative(a: Requirements, b: Requirements, c: Requirements)
    ensures Overlay(Overlay(a, b), c) == Overlay(a, Overlay(b, c))
  {
    hide Distinct;
    DistinctFront(a.packages + b.packages, c.packages);
    DistinctBack(a.packages, b.packages + c.packages);
    assert a.packages + b.packages + c.packages == a.packages + (b.packages + c.packages);
  }

  // ---------------------------------------------------------------- normal forms

  /** The first `n` resource fields in normal form, or the first that is not a quantity. */
  function NormalizedResources(lib: Library, r: Resources, n: nat): Result<Resources, Problem>
    requires n <= |Fields|
  {
    if n == 0 then Ok(r)
    else
      match NormalizedResources(lib, r, n - 1)
      case Err(e) => Err(e)
      case Ok(out) =>
        var f := Fields[n - 1];
        match r.Get(f)
        case None => Ok(out)
        case Some(v) =>
          match lib.normal(f, v)
          case None => Err(BadResource(f))
          case Some(text) => Ok(out.With(f, Some(text)))
  }

  function Normalized(lib: Library, r: Requirements): Result<Requirements, Problem> {
    if r.base.Some? && !Base.ValidBase(r.base.value, false) then Err(BadBase)
    else if exists c :: c in r.capabilities && !lib.capabilityName(c) then Err(BadCapability)
    else if exists p :: p in r.packages && !lib.packageRef(p) then Err(BadPackage)
    else
      match NormalizedResources(lib, r.resources, |Fields|)
      case Err(e) => Err(e)
      case Ok(resources) => Ok(r.(packages := Distinct(r.packages), resources := resources))
  }

  function NormalizedAllocation(lib: Library, a: Allocation): Result<Allocation, Problem> {
    if a.schemaVersion != SchemaVersion && a.schemaVersion != LegacySchemaVersion then Err(BadVersion)
    else if a.base != "" && a.schemaVersion == LegacySchemaVersion then Err(BadVersion)
    else if a.base != "" && !Base.ValidBase(a.base, true) then Err(BadBase)
    else
      match Normalized(lib, Nothing.(resources := a.resources, capabilities := a.capabilities))
      case Err(e) => Err(e)
      case Ok(r) => Ok(a.(resources := r.resources))
  }

  /** Requirements.Normalize. */
  method Normalize(lib: Library, r: Requirements) returns (result: Result<Requirements, Problem>)
    ensures result == Normalized(lib, r)
  {
    if r.base.Some? && !Base.ValidBase(r.base.value, false) {
      return Err(BadBase);
    }
    if exists c :: c in r.capabilities && !lib.capabilityName(c) {
      return Err(BadCapability);
    }
    if exists p :: p in r.packages && !lib.packageRef(p) {
      return Err(BadPackage);
    }
    var packages := MergePackages(r.packages, []);
    assert r.packages + [] == r.packages;
    var out := r.(packages := packages);
    for i := 0 to |Fields|
      invariant out == r.(packages := packages, resources := out.resources)
      invariant NormalizedResources(lib, r.resources, i) == Ok(out.resources)
      invariant forall j :: i <= j < |Fields| ==> out.resources.Get(Fields[j]) == r.resources.Get(Fields[j])
    {
      var f := Fields[i];
      if out.resources.Get(f).Some? {
        var value := lib.normal(f, out.resources.Get(f).value);
        if value.None? {
          FieldErrorStays(lib, r.resources, i + 1);
          return Err(BadResource(f));
        }
        out := out.(resources := out.resources.With(f, value));
      }
    }
    result := Ok(out);
  }

  lemma {:induction false} FieldErrorStays(lib: Library, r: Resources, n: nat)
    requires n <= |Fields| && NormalizedResources(lib, r, n).Err?
    ensures NormalizedResources(lib, r, |Fields|) == NormalizedResources(lib, r, n)
    decreases |Fields| - n
  {
    if n < |Fields| {
      FieldErrorStays(lib, r, n + 1);
    }
  }

  // ---------------------------------------------------------------- comparison

  datatype Mismatch = Mismatch(field: string, required: string, supplied: string, reason: string)

  /** The mismatches in the order they are found; those of capabilities carry only the name. */
  datatype Report = Report(missing: seq<string>, base: seq<Mismatch>, resources: seq<Mismatch>)

  const NoMismatch := Report([], [], [])

  function FieldName(f: Field): string {
    match f
    case CPU => "resources.cpu"
    case Memory => "resources.memory"
    case EphemeralStorage => "resources.ephemeral-storage"
  }

  /** The `check` closure. */
  function Check(field: string, required: string, actual: string, compatible: bool): seq<Mismatch> {
    if compatible then []
    else [Mismatch(field, required, actual, if actual == "" then "unknown_allocation" else "incompatible")]
  }

  /** What an ignored parse error leaves behind is zero. */
  function Scalar(lib: Library, value: string, f: Field): nat {
    var s := lib.scalar(f, value);
    if s.Some? then s.value else 0
  }

  function FieldMismatch(lib: Library, f: Field, required: Option<string>, actual: Option<string>): seq<Mismatch> {
    match required
    case None => []
    case Some(v) =>
      match actual
      case None => Check(FieldName(f), v, "", false)
      case Some(w) => Check(FieldName(f), v, w, Scalar(lib, w, f) >= Scalar(lib, v, f))
  }

  function ResourceMismatches(lib: Library, required: Resources, actual: Resources, n: nat): seq<Mismatch>
    requires n <= |Fields|
  {
    if n == 0 then []
    else
      var f := Fields[n - 1];
      ResourceMismatches(lib, required, actual, n - 1) + FieldMismatch(lib, f, required.Get(f), actual.Get(f))
  }

  ghost function Compared(lib: Library, required: Requirements, supplied: Allocation): Result<Report, Problem> {
    match Normalized(lib, required)
    case Err(e) => Err(e)
    case Ok(r) =>
      match NormalizedAllocation(lib, supplied)
      case Err(e) => Err(e)
      case Ok(a) =>
        Ok(Report(
             Listing(r.capabilities - a.capabilities),
             if r.base.None? then [] else Check("base", r.base.value, a.base, Base.Matches(r.base.value, a.base)),
             ResourceMismatches(lib, r.resources, a.resources, |Fields|)))
  }

  /** Compare. */
  method Compare(lib: Library, required: Requirements, supplied: Allocation) returns (result: Result<Report, Problem>)
    ensures result == Compared(lib, required, supplied)
  {
    hide Normalized, NormalizedAllocation;
    var normal := Normalize(lib, required);
    if normal.Err? {
      return Err(normal.error);
    }
    var r := normal.value;
    var usable := NormalizedAllocation(lib, supplied);
    if usable.Err? {
      return Err(usable.error);
    }
    var a := usable.value;
    var missing := MissingCapabilities(r.capabilities, a.capabilities);
    var base: seq<Mismatch> := [];
    if r.base.Some? {
      var ok := Base.MatchBase(r.base.value, a.base);
      base := Check("base", r.base.value, a.base, ok);
    }
    var resources := CompareResources(lib, r.resources, a.resources);
    result := Ok(Report(missing, base, resources));
  }

  /** The required capabilities in their order, without those supplied. */
  method MissingCapabilities(required: set<string>, supplied: set<string>) returns (missing: seq<string>)
    ensures missing == Listing(required - supplied)
  {
    var names := SortedCapabilities(required);
    missing := [];
    for i := 0 to |names|
      invariant Ascending(missing)
      invariant forall n :: n in missing <==> n in names[..i] && n !in supplied
    {
      assert names[..i + 1] == names[..i] + [names[i]];
      if names[i] !in supplied {
        forall j | 0 <= j < |missing|
          ensures Before(missing[j], names[i])
        {
          assert missing[j] in names[..i];
        }
        missing := missing + [names[i]];
      }
    }
    assert names[..|names|] == names;
    OneListing(missing, Listing(required - supplied));
  }

  /** How a requirement in normal form lists its capabilities. */
  method SortedCapabilities(capabilities: set<string>) returns (names: seq<string>)
    ensures names == Listing(capabilities)
  {
    names := [];
    var todo := capabilities;
    while todo != {}
      invariant todo <= capabilities && Ascending(names)
      invariant forall n :: n in names <==> n in capabilities - todo
      decreases todo
    {
      var name :| name in todo;
      InsertSorted(name, names);
      names := Insert(name, names);
      todo := todo - {name};
    }
    OneListing(names, Listing(capabilities));
  }

  method CompareResources(lib: Library, required: Resources, actual: Resources) returns (mismatches: seq<Mismatch>)
    ensures mismatches == ResourceMismatches(lib, required, actual, |Fields|)
  {
    hide FieldMismatch;
    mismatches := [];
    for i := 0 to |Fields|
      invariant mismatches == ResourceMismatches(lib, required, actual, i)
    {
      var f := Fields[i];
      mismatches := mismatches + FieldMismatch(lib, f, required.Get(f), actual.Get(f));
    }
  }

  // ---------------------------------------------------------------- what acceptance means

  ghost predicate Valid(lib: Library, r: Requirements) {
    Normalized(lib, r).Ok?
  }

  ghost predicate Accepts(lib: Library, r: Requirements, a: Allocation) {
    Compared(lib, r, a) == Ok(NoMismatch)
  }

  /** Field `f` of an allocation supplies at least the required quantity. */
  predicate Supplies(lib: Library, f: Field, required: Resources, actual: Resources) {
    required.Get(f).Some? ==> actual.Get(f).Some? && Scalar(lib, actual.Get(f).value, f) >= Scalar(lib, required.Get(f).value, f)
  }

  predicate ValidField(lib: Library, r: Resources, f: Field) {
    r.Get(f).Some? ==> lib.scalar(f, r.Get(f).value).Some?
  }

  predicate ValidResources(lib: Library, r: Resources) {
    forall f :: ValidField(lib, r, f)
  }

  predicate SameField(lib: Library, r: Resources, s: Resources, f: Field) {
    && (r.Get(f).Some? <==> s.Get(f).Some?)
    && (r.Get(f).Some? ==> Scalar(lib, r.Get(f).value, f) == Scalar(lib, s.Get(f).value, f))
  }

  lemma NormalizedResourcesKeepValues(lib: Library, r: Resources)
    requires lib.Sound()
    ensures NormalizedResources(lib, r, |Fields|).Ok? <==> ValidResources(lib, r)
    ensures NormalizedResources(lib, r, |Fields|).Ok? ==>
              var out := NormalizedResources(lib, r, |Fields|).value;
              ValidResources(lib, out) && forall f :: SameField(lib, r, out, f)
  {
    var r0, r1 := NormalizedResources(lib, r, 0), NormalizedResources(lib, r, 1);
    var r2, r3 := NormalizedResources(lib, r, 2), NormalizedResources(lib, r, 3);
    assert r1.Ok? <==> ValidField(lib, r, CPU);
    assert r2.Ok? <==> ValidField(lib, r, CPU) && ValidField(lib, r, Memory);
    assert r3.Ok? <==> ValidField(lib, r, CPU) && ValidField(lib, r, Memory) && ValidField(lib, r, EphemeralStorage);
  }

  /** A normal form differs from the requirement only in how packages repeat and quantities are written. */
  lemma NormalizedKeeps(lib: Library, r: Requirements)
    requires lib.Sound() && Normalized(lib, r).Ok?
    ensures var out := Normalized(lib, r).value;
            && out.base == r.base && out.capabilities == r.capabilities && out.packages == Distinct(r.packages)
            && ValidResources(lib, r.resources) && forall f :: SameField(lib, r.resources, out.resources, f)
  {
    NormalizedResourcesKeepValues(lib, r.resources);
  }

  /** Names and base of a requirement are usable, whatever its quantities. */
  ghost predicate ValidNames(lib: Library, r: Requirements) {
    && (r.base.Some? ==> Base.ValidBase(r.base.value, false))
    && (forall c :: c in r.capabilities ==> lib.capabilityName(c))
    && (forall p :: p in r.packages ==> lib.packageRef(p))
  }

  lemma ValidExactly(lib: Library, r: Requirements)
    requires lib.Sound()
    ensures Valid(lib, r) <==> ValidNames(lib, r) && ValidResources(lib, r.resources)
  {
    NormalizedResourcesKeepValues(lib, r.resources);
  }

  /** When an allocation can be compared: its version, what it may say of its base, and usable names and quantities. */
  lemma AllocationNormalizesExactly(lib: Library, a: Allocation)
    requires lib.Sound()
    ensures NormalizedAllocation(lib, a).Ok? <==>
              && (a.schemaVersion == 2 || (a.schemaVersion == 1 && a.base == ""))
              && (a.base != "" ==> |a.base| <= 4096 && forall c :: c in ['\0', ' ', '\t', '\r', '\n', '*'] ==> c !in a.base)
              && (forall c :: c in a.capabilities ==> lib.capabilityName(c))
              && ValidResources(lib, a.resources)
  {
    NormalizedResourcesKeepValues(lib, a.resources);
    hide NormalizedResources, ValidResources;
  }

  /** Each resource mismatch reported is one of a required field not supplied, and says what was asked, offered and why. */
  lemma ResourceReportExactly(lib: Library, required: Resources, actual: Resources, m: Mismatch)
    ensures m in ResourceMismatches(lib, required, actual, |Fields|) <==> exists f :: Reported(lib, f, required, actual, m)
  {
    hide Scalar;
    var m1, m2 := ResourceMismatches(lib, required, actual, 1), ResourceMismatches(lib, required, actual, 2);
    assert ResourceMismatches(lib, required, actual, 0) == [] && m1 == FieldMismatch(lib, CPU, required.cpu, actual.cpu);
    forall f: Field
      ensures m in FieldMismatch(lib, f, required.Get(f), actual.Get(f)) <==> Reported(lib, f, required, actual, m)
    {
    }
    assert m in ResourceMismatches(lib, required, actual, 3) <==> exists f :: Reported(lib, f, required, actual, m);
  }

  predicate Reported(lib: Library, f: Field, required: Resources, actual: Resources, m: Mismatch) {
    && !Supplies(lib, f, required, actual)
    && m.field == (match f case CPU => "resources.cpu" case Memory => "resources.memory"
                           case EphemeralStorage => "resources.ephemeral-storage")
    && Some(m.required) == required.Get(f)
    && m.supplied == (if actual.Get(f).Some? then actual.Get(f).value else "")
    && m.reason == if m.supplied == "" then "unknown_allocation" else "incompatible"
  }

  /** The base is reported exactly when it is required and not covered, with what was asked, offered and why. */
  lemma BaseReportExactly(lib: Library, required: Requirements, supplied: Allocation, m: Mismatch)
    requires lib.Sound() && Compared(lib, required, supplied).Ok?
    ensures m in Compared(lib, required, supplied).value.base <==>
              && Some(m.required) == required.base && !Base.Matches(m.required, supplied.base)
              && m.field == "base" && m.supplied == supplied.base
              && m.reason == if supplied.base == "" then "unknown_allocation" else "incompatible"
  {
    hide ResourceMismatches;
    NormalizedKeeps(lib, required);
  }

  /** Each quantity in its canonical text, and no other. */
  predicate CanonicalTexts(lib: Library, r: Resources, out: Resources) {
    forall f :: out.Get(f) == if r.Get(f).Some? then lib.normal(f, r.Get(f).value) else None
  }

  lemma ResourcesCanonical(lib: Library, r: Resources)
    requires NormalizedResources(lib, r, |Fields|).Ok?
    ensures CanonicalTexts(lib, r, NormalizedResources(lib, r, |Fields|).value)
  {
    var r1, r2 := NormalizedResources(lib, r, 1), NormalizedResources(lib, r, 2);
    assert NormalizedResources(lib, r, 0) == Ok(r);
    assert r1.value.memory == r.memory && r1.value.storage == r.storage;
    assert r2.value.cpu == r1.value.cpu && r2.value.storage == r.storage;
  }

  /** Normal forms write every quantity canonically; an allocation otherwise stays as it is. */
  lemma NormalFormsCanonical(lib: Library, r: Requirements, a: Allocation)
    ensures Normalized(lib, r).Ok? ==> CanonicalTexts(lib, r.resources, Normalized(lib, r).value.resources)
    ensures NormalizedAllocation(lib, a).Ok? ==>
              var out := NormalizedAllocation(lib, a).value;
              && CanonicalTexts(lib, a.resources, out.resources)
              && out.schemaVersion == a.schemaVersion && out.base == a.base && out.capabilities == a.capabilities
  {
    hide NormalizedResources, CanonicalTexts, Base.ValidBase;
    if NormalizedResources(lib, r.resources, |Fields|).Ok? {
      ResourcesCanonical(lib, r.resources);
    }
    if NormalizedResources(lib, a.resources, |Fields|).Ok? {
      ResourcesCanonical(lib, a.resources);
    }
  }

  /** How a requirement is refused: by its base, then a capability, then a package, then the first field that is no quantity. */
  lemma NormalizeRefused(lib: Library, r: Requirements)
    requires lib.Sound()
    ensures var result := Normalized(lib, r);
            var badBase := r.base.Some? && !Base.ValidBase(r.base.value, false);
            var badCapability := exists c :: c in r.capabilities && !lib.capabilityName(c);
            var badPackage := exists p :: p in r.packages && !lib.packageRef(p);
            && (result == Err(BadBase) <==> badBase)
            && (result == Err(BadCapability) <==> !badBase && badCapability)
            && (result == Err(BadPackage) <==> !badBase && !badCapability && badPackage)
            && (!badBase && !badCapability && !badPackage ==>
                  && (result == Err(BadResource(CPU)) <==> !ValidField(lib, r.resources, CPU))
                  && (result == Err(BadResource(Memory)) <==>
                        ValidField(lib, r.resources, CPU) && !ValidField(lib, r.resources, Memory))
                  && (result == Err(BadResource(EphemeralStorage)) <==>
                        && ValidField(lib, r.resources, CPU) && ValidField(lib, r.resources, Memory)
                        && !ValidField(lib, r.resources, EphemeralStorage)))
  {
    hide Distinct, Base.ValidBase;
    var r1, r2 := NormalizedResources(lib, r.resources, 1), NormalizedResources(lib, r.resources, 2);
    assert NormalizedResources(lib, r.resources, 0) == Ok(r.resources);
    assert r1.Ok? <==> ValidField(lib, r.resources, CPU);
    assert r2.Ok? <==> ValidField(lib, r.resources, CPU) && ValidField(lib, r.resources, Memory);
  }

  lemma NoMismatchMeansSupplied(lib: Library, required: Resources, actual: Resources)
    ensures ResourceMismatches(lib, required, actual, |Fields|) == [] <==> forall f :: Supplies(lib, f, required, actual)
  {
    forall f: Field
      ensures FieldMismatch(lib, f, required.Get(f), actual.Get(f)) == [] <==> Supplies(lib, f, required, actual)
    {
    }
    var m1, m2 := ResourceMismatches(lib, required, actual, 1), ResourceMismatches(lib, required, actual, 2);
    assert ResourceMismatches(lib, required, actual, 0) == [] && m1 == FieldMismatch(lib, CPU, required.cpu, actual.cpu);
    assert m1 == [] <==> Supplies(lib, CPU, required, actual);
    assert m2 == [] <==> m1 == [] && Supplies(lib, Memory, required, actual);
    assert ResourceMismatches(lib, required, actual, 3) == [] <==> m2 == [] && Supplies(lib, EphemeralStorage, required, actual);
  }

  lemma NoneMissing(required: set<string>, supplied: set<string>)
    ensures Listing(required - supplied) == [] <==> required <= supplied
  {
    forall c | c in required && c !in supplied
      ensures c in Listing(required - supplied)
    {
    }
    if required <= supplied {
      assert required - supplied == {};
    }
  }

  /**
   An allocation is compatible exactly when both operands are valid, every required capability is
   supplied, the base is covered, and every required quantity, as written, is supplied.
   */
  lemma AcceptsExactly(lib: Library, r: Requirements, a: Allocation)
    requires lib.Sound()
    ensures Accepts(lib, r, a) <==>
              && Valid(lib, r) && NormalizedAllocation(lib, a).Ok?
              && r.capabilities <= a.capabilities
              && (r.base.Some? ==> Base.Matches(r.base.value, a.base))
              && forall f :: Supplies(lib, f, r.resources, a.resources)
  {
    if Valid(lib, r) && NormalizedAllocation(lib, a).Ok? {
      var nr, na := Normalized(lib, r).value, NormalizedAllocation(lib, a).value;
      NormalizedResourcesKeepValues(lib, r.resources);
      NormalizedResourcesKeepValues(lib, a.resources);
      NoMismatchMeansSupplied(lib, nr.resources, na.resources);
      forall f: Field
        ensures Supplies(lib, f, nr.resources, na.resources) <==> Supplies(lib, f, r.resources, a.resources)
      {
        assert SameField(lib, r.resources, nr.resources, f) && SameField(lib, a.resources, na.resources, f);
      }
      NoneMissing(r.capabilities, a.capabilities);
      assert na.capabilities == a.capabilities && na.base == a.base && nr.base == r.base;
      var report := Compared(lib, r, a).value;
      assert report.missing == Listing(r.capabilities - a.capabilities);
      assert report.base == [] <==> (r.base.Some? ==> Base.Matches(r.base.value, a.base));
      assert report.resources == [] <==> forall f :: Supplies(lib, f, r.resources, a.resources);
    }
  }
}
