/**
 Recipe input contracts (pkg/recipe/input_contract.go, input_schema.go, schema_version.go,
 input_schema_v1.go): applying a schema to submitted data. Values are JSON data with configuration
 references; secret fields are not modelled.
 */
module InputContract {
  import opened Text

  /** A decoded configuration reference. */
  datatype Reference = Reference(kind: string, name: string, expectedType: string, default: Option<Json>)

  /** `Config` is a reference in decoded form; `NonFinite` is a number JSON cannot write. */
  datatype Json =
    | Null
    | Bool(b: bool)
    | Number(n: real)
    | NonFinite
    | Str(s: string)
    | Array(items: seq<Json>)
    | Object(fields: map<string, Json>)
    | Config(ref: Reference)

  datatype Schema = Schema(typ: string, required: bool, default: Option<Json>, properties: Fields,
                           items: Option<Schema>, extra: Option<Extra>)

  datatype Fields = NoFields | Fields(of: map<string, Schema>)

  datatype Extra = Extra(allowed: bool, schema: Option<Schema>)

  const WireKey := "$c2j_ref"
  const ObjectKey := "$c2j_object"
  const SimpleTypes := ["string", "number", "boolean"]
  const OpaqueTypes := ["artifact", "artifact_map", "checkpoint"]
  const AnyObject := Schema("object", false, None, NoFields, None, None)
  const AnyArray := Schema("array", false, None, NoFields, None, None)

  /**
   What other packages decide: which strings are reference templates, how an object with the wire key
   decodes, and which values the opaque types accept.
   */
  datatype Library = Library(template: string -> Option<Reference>, wire: map<string, Json> -> Option<Reference>,
                             accepts: (string, Json) -> bool)

  /** objects.Parse: the marker alone makes a map an object checkpoint, or a malformed one. */
  predicate Checkpoint(v: Json) {
    v.Object? && ObjectKey in v.fields
  }

  datatype Parsed = Plain | IsReference(ref: Reference) | Malformed

  predicate ValidReference(r: Reference) {
    && (r.default.Some? ==> r.default.value.Null? || r.default.value.Bool? || r.default.value.Number? || r.default.value.Str?)
    && (r.expectedType == "" || r.expectedType in SimpleTypes)
    && r.kind == "config"
    && (exists i :: 0 <= i < |r.name| && r.name[i] !in [' ', '\t', '\r', '\n'])
    && |r.name| <= 256
  }

  function Checked(r: Reference): Parsed {
    if ValidReference(r) then IsReference(r) else Malformed
  }

  /** configuration.Parse. */
  function Parse(lib: Library, v: Json): Parsed {
    match v
    case Config(r) => Checked(r)
    case Object(m) =>
      if WireKey !in m then Plain
      else if lib.wire(m).Some? then Checked(lib.wire(m).value)
      else Malformed
    case _ => Plain
  }

  /** configuration.Contains: a reference, or something that only looks like one, anywhere inside. */
  predicate Contains(lib: Library, v: Json) {
    || !Parse(lib, v).Plain?
    || (v.Object? && exists k :: k in v.fields && Contains(lib, v.fields[k]))
    || (v.Array? && exists i :: 0 <= i < |v.items| && Contains(lib, v.items[i]))
  }

  // ---------------------------------------------------------------- applying a schema

  /** InputSchema.validate for the types without inner structure. */
  predicate Validates(lib: Library, typ: string, v: Json) {
    match Parse(lib, v)
    case IsReference(_) => true
    case Malformed => false
    case Plain =>
      && !v.Null?
      && if typ == "string" then v.Str?
         else if typ == "number" then v.Number? || v.NonFinite?
         else if typ == "boolean" then v.Bool?
         else typ in OpaqueTypes && lib.accepts(typ, v)
  }

  /** The reference handling at the head of applyInputValue. */
  function Referenced(lib: Library, typ: string, v: Json): Option<Json> {
    var value := if v.Str? && lib.template(v.s).Some? then Config(lib.template(v.s).value) else v;
    match Parse(lib, value)
    case Malformed => None
    case Plain => Some(value)
    case IsReference(r) =>
      if typ !in SimpleTypes then None
      else if r.expectedType != "" && r.expectedType != typ then None
      else Some(Config(r.(expectedType := typ)))
  }

  /** Unconstrained schemas take part in no recursion over schemas, only over data. */
  predicate Unconstrained(def: Schema) {
    def == AnyObject || def == AnyArray
  }

  function Rank(def: Schema): nat {
    if Unconstrained(def) then 0 else 1
  }

  function Level(def: Schema): Schema {
    if Unconstrained(def) then AnyObject else def
  }

  function Properties(def: Schema): map<string, Schema> {
    if def.properties.Fields? then def.properties.of else map[]
  }

  function ExtraOf(def: Schema): Extra {
    if def.extra.Some? then def.extra.value else Extra(true, None)
  }

  /** The value of a declared field: present, defaulted, absent (Some(None)), or an error (None). */
  function AppliedField(lib: Library, def: Schema, data: Json, k: string): Option<Option<Json>>
    requires data.Object? && k in Properties(def)
    decreases Rank(def), Level(def), data, 0
  {
    var field := Properties(def)[k];
    if k in data.fields then
      match AppliedValue(lib, field, data.fields[k])
      case None => None
      case Some(v) => Some(Some(v))
    else if field.required && field.default.None? then None
    else if field.default.None? then Some(None)
    else
      match AppliedValue(lib, field, field.default.value)
      case None => None
      case Some(v) => Some(Some(v))
  }

  /** The value of a field that is not declared. */
  function AppliedExtra(lib: Library, def: Schema, data: Json, k: string): Option<Json>
    requires data.Object? && k in data.fields
    decreases Rank(def), Level(def), data, 0
  {
    var extra := ExtraOf(def);
    if extra.schema.Some? then AppliedValue(lib, extra.schema.value, data.fields[k])
    else if extra.allowed then CopiedJson(lib, data.fields[k])
    else None
  }

  /** applyInputFields, with the properties and the extra rule of `def`. */
  function AppliedFields(lib: Library, def: Schema, data: Json): Option<map<string, Json>>
    requires data.Object?
    decreases Rank(def), Level(def), data, 1
  {
    var fields := Properties(def);
    if && (forall k :: k in fields ==> AppliedField(lib, def, data, k).Some?)
       && (forall k :: k in data.fields && k !in fields ==> AppliedExtra(lib, def, data, k).Some?)
    then
      Some(map k | k in fields.Keys + data.fields.Keys && (k in fields ==> AppliedField(lib, def, data, k).value.Some?) ::
             if k in fields then AppliedField(lib, def, data, k).value.value else AppliedExtra(lib, def, data, k).value)
    else None
  }

  /** applyInputValue. */
  function AppliedValue(lib: Library, def: Schema, v: Json): Option<Json>
    decreases Rank(def), Level(def), v, 3
  {
    match Referenced(lib, def.typ, v)
    case None => None
    case Some(value) =>
      if def.typ == "object" then
        if !value.Object? || Checkpoint(value) then None
        else
          match AppliedFields(lib, def, value)
          case None => None
          case Some(m) => Some(Object(m))
      else if def.typ == "array" then
        if !value.Array? then None
        else
          match AppliedItems(lib, def, value, |value.items|)
          case None => None
          case Some(out) => Some(Array(out))
      else if Validates(lib, def.typ, value) then Some(value)
      else None
  }

  function AppliedItem(lib: Library, def: Schema, v: Json, i: nat): Option<Json>
    requires v.Array? && i < |v.items|
    decreases Rank(def), Level(def), v, 1
  {
    if def.items.Some? then AppliedValue(lib, def.items.value, v.items[i]) else CopiedJson(lib, v.items[i])
  }

  /** The first `n` items. */
  function AppliedItems(lib: Library, def: Schema, v: Json, n: nat): Option<seq<Json>>
    requires v.Array? && n <= |v.items|
    decreases Rank(def), Level(def), v, 2, n
  {
    if n == 0 then Some([])
    else
      match AppliedItems(lib, def, v, n - 1)
      case None => None
      case Some(front) =>
        match AppliedItem(lib, def, v, n - 1)
        case None => None
        case Some(x) => Some(front + [x])
  }

  /** copyInputJSON. */
  function CopiedJson(lib: Library, v: Json): Option<Json>
    decreases 0, AnyObject, v, 4
  {
    if Contains(lib, v) || Checkpoint(v) then None
    else
      match v
      case NonFinite => None
      case Config(_) => None
      case Object(_) => AppliedValue(lib, AnyObject, v)
      case Array(_) => AppliedValue(lib, AnyArray, v)
      case _ => Some(v)
  }

  /** A contract: a closed object of its declared inputs. */
  function Contract(inputs: map<string, Schema>): Schema {
    Schema("object", false, None, Fields(inputs), None, Some(Extra(false, None)))
  }

  /** InputContract.Apply. */
  function Apply(lib: Library, inputs: map<string, Schema>, data: map<string, Json>): Option<map<string, Json>> {
    AppliedFields(lib, Contract(inputs), Object(data))
  }

  // ---------------------------------------------------------------- the recursive descent with its loops

  method ApplyInputFields(lib: Library, def: Schema, data: Json) returns (result: Option<map<string, Json>>)
    requires data.Object?
    ensures result == AppliedFields(lib, def, data)
    decreases Rank(def), Level(def), data, 1
  {
    hide AppliedField, AppliedExtra, Rank, Level;
    var fields := Properties(def);
    var resolved: map<string, Json> := map[];
    var todo := fields.Keys;
    while todo != {}
      invariant todo <= fields.Keys
      invariant forall k :: k in fields.Keys - todo ==> AppliedField(lib, def, data, k).Some?
      invariant forall k :: k in resolved <==> k in fields.Keys - todo && AppliedField(lib, def, data, k).value.Some?
      invariant forall k :: k in resolved ==> AppliedField(lib, def, data, k) == Some(Some(resolved[k]))
      decreases todo
    {
      var k :| k in todo;
      var value := ApplyInputField(lib, def, data, k);
      if value.None? {
        return None;
      }
      if value.value.Some? {
        resolved := resolved[k := value.value.value];
      }
      todo := todo - {k};
    }
    ghost var declared := resolved;
    todo := data.fields.Keys - fields.Keys;
    while todo != {}
      invariant todo <= data.fields.Keys - fields.Keys
      invariant forall k :: k in data.fields.Keys - fields.Keys - todo ==> AppliedExtra(lib, def, data, k).Some?
      invariant resolved.Keys == declared.Keys + (data.fields.Keys - fields.Keys - todo)
      invariant forall k :: k in resolved ==>
                  if k in fields then k in declared && resolved[k] == declared[k]
                  else AppliedExtra(lib, def, data, k) == Some(resolved[k])
      decreases todo
    {
      var k :| k in todo;
      var value := ApplyInputExtra(lib, def, data, k);
      if value.None? {
        return None;
      }
      resolved := resolved[k := value.value];
      todo := todo - {k};
    }
    result := Some(resolved);
    assert resolved == AppliedFields(lib, def, data).value;
  }

  method ApplyInputField(lib: Library, def: Schema, data: Json, k: string) returns (result: Option<Option<Json>>)
    requires data.Object? && k in Properties(def)
    ensures result == AppliedField(lib, def, data, k)
    decreases Rank(def), Level(def), data, 0
  {
    hide AppliedValue;
    var field := Properties(def)[k];
    var value: Json;
    if k in data.fields {
      value := data.fields[k];
    } else {
      if field.required && field.default.None? {
        return None;
      }
      if field.default.None? {
        return Some(None);
      }
      value := field.default.value;
    }
    var normalized := ApplyInputValue(lib, field, value);
    if normalized.None? {
      return None;
    }
    result := Some(normalized);
  }

  method ApplyInputExtra(lib: Library, def: Schema, data: Json, k: string) returns (result: Option<Json>)
    requires data.Object? && k in data.fields
    ensures result == AppliedExtra(lib, def, data, k)
    decreases Rank(def), Level(def), data, 0
  {
    hide AppliedValue, CopiedJson;
    var extra := ExtraOf(def);
    if !extra.allowed && extra.schema.None? {
      return None;
    }
    if extra.schema.Some? {
      result := ApplyInputValue(lib, extra.schema.value, data.fields[k]);
    } else {
      result := CopyInputJSON(lib, data.fields[k]);
    }
  }

  method ApplyInputValue(lib: Library, def: Schema, v: Json) returns (result: Option<Json>)
    ensures result == AppliedValue(lib, def, v)
    decreases Rank(def), Level(def), v, 3
  {
    hide AppliedFields, AppliedItem, Validates, Rank, Level;
    var referenced := Referenced(lib, def.typ, v);
    if referenced.None? {
      return None;
    }
    var value := referenced.value;
    if def.typ == "object" {
      if !value.Object? || Checkpoint(value) {
        return None;
      }
      ContainersPassThrough(lib, def.typ, v);
      var m := ApplyInputFields(lib, def, value);
      if m.None? {
        return None;
      }
      return Some(Object(m.value));
    }
    if def.typ == "array" {
      if !value.Array? {
        return None;
      }
      ContainersPassThrough(lib, def.typ, v);
      var out: seq<Json> := [];
      for i := 0 to |value.items|
        invariant AppliedItems(lib, def, value, i) == Some(out)
      {
        var item := ApplyInputItem(lib, def, value, i);
        ItemErrorStays(lib, def, value, i + 1);
        if item.None? {
          return None;
        }
        out := out + [item.value];
      }
      return Some(Array(out));
    }
    if !Validates(lib, def.typ, value) {
      return None;
    }
    result := Some(value);
  }

  method ApplyInputItem(lib: Library, def: Schema, v: Json, i: nat) returns (result: Option<Json>)
    requires v.Array? && i < |v.items|
    ensures result == AppliedItem(lib, def, v, i)
    decreases Rank(def), Level(def), v, 1
  {
    hide AppliedValue, CopiedJson;
    if def.items.None? {
      result := CopyInputJSON(lib, v.items[i]);
    } else {
      result := ApplyInputValue(lib, def.items.value, v.items[i]);
    }
  }

  method CopyInputJSON(lib: Library, v: Json) returns (result: Option<Json>)
    ensures result == CopiedJson(lib, v)
    decreases 0, AnyObject, v, 4
  {
    hide AppliedValue, Contains;
    if Contains(lib, v) || Checkpoint(v) {
      return None;
    }
    match v
    case NonFinite => result := None;
    case Config(_) => result := None;
    case Object(_) => result := ApplyInputValue(lib, AnyObject, v);
    case Array(_) => result := ApplyInputValue(lib, AnyArray, v);
    case _ => result := Some(v);
  }

  lemma {:induction false} ItemErrorStays(lib: Library, def: Schema, v: Json, n: nat)
    requires v.Array? && n <= |v.items|
    ensures AppliedItems(lib, def, v, n).None? ==> AppliedItems(lib, def, v, |v.items|).None?
    decreases |v.items| - n
  {
    hide AppliedItem;
    if n < |v.items| {
      ItemErrorStays(lib, def, v, n + 1);
    }
  }

  predicate ItemApplies(lib: Library, def: Schema, v: Json, i: nat) {
    v.Array? && i < |v.items| && AppliedItem(lib, def, v, i).Some?
  }

  lemma {:induction false} ItemsExactly(lib: Library, def: Schema, v: Json, n: nat)
    requires v.Array? && n <= |v.items|
    ensures var r := AppliedItems(lib, def, v, n);
            && (r.Some? <==> forall i :: 0 <= i < n ==> ItemApplies(lib, def, v, i))
            && (r.Some? ==> |r.value| == n && forall i :: 0 <= i < n ==> AppliedItem(lib, def, v, i) == Some(r.value[i]))
  {
    hide AppliedItem;
    if n > 0 {
      ItemsExactly(lib, def, v, n - 1);
      assert ItemApplies(lib, def, v, n - 1) <==> AppliedItem(lib, def, v, n - 1).Some?;
    }
  }

  /** Reference handling leaves an object or array as it is. */
  lemma ContainersPassThrough(lib: Library, typ: string, v: Json)
    requires Referenced(lib, typ, v).Some?
    requires Referenced(lib, typ, v).value.Object? || Referenced(lib, typ, v).value.Array?
    ensures Referenced(lib, typ, v).value == v && Parse(lib, v).Plain?
  {
  }

  // ---------------------------------------------------------------- unconstrained data is copied as it is

  /** Data without references, checkpoints or numbers JSON cannot write. */
  predicate PlainData(lib: Library, v: Json) {
    && !Checkpoint(v)
    && match v
       case Object(m) => WireKey !in m && forall k :: k in m ==> PlainData(lib, m[k])
       case Array(items) => forall i :: 0 <= i < |items| ==> PlainData(lib, items[i])
       case NonFinite => false
       case Config(_) => false
       case _ => true
  }

  lemma {:induction false} PlainContainsNothing(lib: Library, v: Json)
    requires PlainData(lib, v)
    ensures !Contains(lib, v)
    decreases v
  {
    if v.Object? {
      forall k | k in v.fields
        ensures !Contains(lib, v.fields[k])
      {
        PlainContainsNothing(lib, v.fields[k]);
      }
    } else if v.Array? {
      forall i | 0 <= i < |v.items|
        ensures !Contains(lib, v.items[i])
      {
        PlainContainsNothing(lib, v.items[i]);
      }
    }
  }

  lemma CopiedObject(lib: Library, v: Json)
    requires v.Object? && !Contains(lib, v) && !Checkpoint(v)
    ensures CopiedJson(lib, v).Some? <==> forall k :: k in v.fields ==> CopiedJson(lib, v.fields[k]).Some?
    ensures (forall k :: k in v.fields ==> CopiedJson(lib, v.fields[k]) == Some(v.fields[k])) ==>
              CopiedJson(lib, v) == Some(v)
  {
    hide CopiedJson, Contains;
    CopiedContainer(lib, v);
    forall k | k in v.fields
      ensures AppliedExtra(lib, AnyObject, v, k) == CopiedJson(lib, v.fields[k])
    {
    }
    assert Referenced(lib, "object", v) == Some(v) && Properties(AnyObject) == map[];
    assert CopiedJson(lib, v).Some? <==> AppliedFields(lib, AnyObject, v).Some?;
    if forall k :: k in v.fields ==> CopiedJson(lib, v.fields[k]) == Some(v.fields[k]) {
      assert AppliedFields(lib, AnyObject, v).value == v.fields;
    }
  }

  lemma ArrayUnfolds(lib: Library, def: Schema, v: Json)
    requires def.typ == "array" && v.Array?
    ensures var r := AppliedValue(lib, def, v);
            && (r.Some? <==> forall i :: 0 <= i < |v.items| ==> ItemApplies(lib, def, v, i))
            && (r.Some? ==>
                  && r.value.Array? && |r.value.items| == |v.items|
                  && forall i :: 0 <= i < |v.items| ==> AppliedItem(lib, def, v, i) == Some(r.value.items[i]))
  {
    hide AppliedItem, AppliedItems;
    assert Referenced(lib, def.typ, v) == Some(v);
    ItemsExactly(lib, def, v, |v.items|);
  }

  lemma ArrayFixed(lib: Library, def: Schema, v: Json)
    requires def.typ == "array" && v.Array?
    ensures Fixed(lib, def, v) <==> forall i :: 0 <= i < |v.items| ==> AppliedItem(lib, def, v, i) == Some(v.items[i])
  {
    hide AppliedItem, AppliedValue;
    ArrayUnfolds(lib, def, v);
    if forall i :: 0 <= i < |v.items| ==> AppliedItem(lib, def, v, i) == Some(v.items[i]) {
      assert AppliedValue(lib, def, v).value.items == v.items;
    }
  }

  lemma CopiedContainer(lib: Library, v: Json)
    requires !Contains(lib, v) && !Checkpoint(v)
    ensures Parse(lib, v).Plain?
    ensures v.Object? ==> CopiedJson(lib, v) == AppliedValue(lib, AnyObject, v)
    ensures v.Array? ==> CopiedJson(lib, v) == AppliedValue(lib, AnyArray, v)
  {
    hide AppliedValue;
  }

  lemma CopiedArray(lib: Library, v: Json)
    requires v.Array? && !Contains(lib, v) && !Checkpoint(v)
    ensures CopiedJson(lib, v).Some? <==> forall i :: 0 <= i < |v.items| ==> CopiedJson(lib, v.items[i]).Some?
    ensures (forall i :: 0 <= i < |v.items| ==> CopiedJson(lib, v.items[i]) == Some(v.items[i])) ==>
              CopiedJson(lib, v) == Some(v)
  {
    hide CopiedJson, Contains;
    forall i | 0 <= i < |v.items|
      ensures AppliedItem(lib, AnyArray, v, i) == CopiedJson(lib, v.items[i])
    {
    }
    CopiedContainer(lib, v);
    hide AppliedValue, AppliedItem;
    ArrayUnfolds(lib, AnyArray, v);
    ArrayFixed(lib, AnyArray, v);
  }

  /** Exactly plain data may stand where no schema constrains it, and it is copied unchanged. */
  lemma {:induction false} CopiesExactlyPlainData(lib: Library, v: Json)
    ensures CopiedJson(lib, v) == if PlainData(lib, v) then Some(v) else None
    decreases v
  {
    hide AppliedValue;
    if PlainData(lib, v) {
      PlainContainsNothing(lib, v);
    }
    if !Contains(lib, v) && !Checkpoint(v) {
      CopiedContainer(lib, v);
      if v.Object? {
        forall k | k in v.fields
          ensures CopiedJson(lib, v.fields[k]) == if PlainData(lib, v.fields[k]) then Some(v.fields[k]) else None
        {
          CopiesExactlyPlainData(lib, v.fields[k]);
        }
        CopiedObject(lib, v);
      } else if v.Array? {
        forall i | 0 <= i < |v.items|
          ensures CopiedJson(lib, v.items[i]) == if PlainData(lib, v.items[i]) then Some(v.items[i]) else None
        {
          CopiesExactlyPlainData(lib, v.items[i]);
        }
        CopiedArray(lib, v);
      }
    }
  }

  // ---------------------------------------------------------------- applying a contract to its own result

  /** No value at an object position carries the reserved reference key or reads as a checkpoint. */
  predicate Settled(lib: Library, def: Schema, v: Json)
    decreases def
  {
    if def.typ == "object" then
      && v.Object? && WireKey !in v.fields && !Checkpoint(v)
      && (forall k :: k in v.fields && k in Properties(def) ==> Settled(lib, Properties(def)[k], v.fields[k]))
      && (def.extra.Some? && def.extra.value.schema.Some? ==>
            forall k :: k in v.fields && k !in Properties(def) ==> Settled(lib, def.extra.value.schema.value, v.fields[k]))
    else if def.typ == "array" then
      v.Array? && (def.items.Some? ==> forall i :: 0 <= i < |v.items| ==> Settled(lib, def.items.value, v.items[i]))
    else true
  }

  /** A value is a fixed point of its schema. */
  predicate Fixed(lib: Library, def: Schema, v: Json) {
    AppliedValue(lib, def, v) == Some(v)
  }

  predicate FixedField(lib: Library, def: Schema, v: Json, k: string)
    requires v.Object? && k in v.fields
  {
    if k in Properties(def) then Fixed(lib, Properties(def)[k], v.fields[k])
    else AppliedExtra(lib, def, v, k) == Some(v.fields[k])
  }

  lemma SimpleFixed(lib: Library, def: Schema, v: Json)
    requires def.typ != "object" && def.typ != "array" && AppliedValue(lib, def, v).Some?
    ensures Fixed(lib, def, AppliedValue(lib, def, v).value)
  {
  }

  /** An absent field of a result stays absent when the schema is applied again. */
  predicate AbsentStays(def: Schema, v: Json)
    requires v.Object?
  {
    forall k :: k in Properties(def) && k !in v.fields ==>
                  !Properties(def)[k].required && Properties(def)[k].default.None?
  }

  lemma FieldsFixed(lib: Library, def: Schema, v: Json)
    requires v.Object? && AbsentStays(def, v)
    ensures AppliedFields(lib, def, v) == Some(v.fields) <==> forall k :: k in v.fields ==> FixedField(lib, def, v, k)
  {
    hide AppliedValue, AppliedExtra;
    forall k | k in Properties(def)
      ensures k in v.fields ==>
                (AppliedField(lib, def, v, k) == Some(Some(v.fields[k])) <==> Fixed(lib, Properties(def)[k], v.fields[k]))
      ensures k !in v.fields ==> AppliedField(lib, def, v, k) == Some(None)
    {
    }
    if forall k :: k in v.fields ==> FixedField(lib, def, v, k) {
      forall k | k in v.fields
        ensures if k in Properties(def) then AppliedField(lib, def, v, k) == Some(Some(v.fields[k]))
                else AppliedExtra(lib, def, v, k) == Some(v.fields[k])
      {
        assert FixedField(lib, def, v, k);
      }
      assert AppliedFields(lib, def, v).value == v.fields;
    }
    if AppliedFields(lib, def, v) == Some(v.fields) {
      var m := AppliedFields(lib, def, v).value;
      forall k | k in v.fields
        ensures FixedField(lib, def, v, k)
      {
        assert k in m;
      }
    }
  }

  lemma ObjectFixed(lib: Library, def: Schema, v: Json)
    requires def.typ == "object" && v.Object? && AbsentStays(def, v)
    ensures Fixed(lib, def, v) <==>
              WireKey !in v.fields && !Checkpoint(v) && forall k :: k in v.fields ==> FixedField(lib, def, v, k)
  {
    hide AppliedFields, FixedField;
    FieldsFixed(lib, def, v);
  }

  /** What a field of a result came from. */
  lemma ResultFields(lib: Library, def: Schema, data: Json)
    requires data.Object? && AppliedFields(lib, def, data).Some?
    ensures var m := AppliedFields(lib, def, data).value;
            && AbsentStays(def, Object(m))
            && (forall k :: k in m && k in Properties(def) ==> AppliedField(lib, def, data, k) == Some(Some(m[k])))
            && (forall k :: k in m && k !in Properties(def) ==> k in data.fields && AppliedExtra(lib, def, data, k) == Some(m[k]))
  {
    hide AppliedValue, AppliedExtra;
  }

  lemma {:induction false} FieldSettles(lib: Library, def: Schema, data: Json, k: string, x: Json)
    requires data.Object? && k in Properties(def) && AppliedField(lib, def, data, k) == Some(Some(x))
    ensures Fixed(lib, Properties(def)[k], x) <==> Settled(lib, Properties(def)[k], x)
    decreases def, 0
  {
    hide AppliedValue;
    var field := Properties(def)[k];
    ResultSettles(lib, field, if k in data.fields then data.fields[k] else field.default.value);
  }

  lemma {:induction false} ExtraSettles(lib: Library, def: Schema, data: Json, m: map<string, Json>, k: string)
    requires data.Object? && k in data.fields && k in m && k !in Properties(def)
    requires AppliedExtra(lib, def, data, k) == Some(m[k])
    ensures AppliedExtra(lib, def, Object(m), k) == Some(m[k]) <==>
              (def.extra.Some? && def.extra.value.schema.Some? ==> Settled(lib, def.extra.value.schema.value, m[k]))
    decreases def, 0
  {
    hide AppliedValue, CopiedJson;
    if def.extra.Some? && def.extra.value.schema.Some? {
      ResultSettles(lib, def.extra.value.schema.value, data.fields[k]);
    } else {
      CopiesExactlyPlainData(lib, data.fields[k]);
    }
  }

  /** Applying a schema to its own result changes nothing exactly when the result is settled. */
  lemma {:induction false} ResultSettles(lib: Library, def: Schema, v: Json)
    requires AppliedValue(lib, def, v).Some?
    ensures var y := AppliedValue(lib, def, v).value;
            Fixed(lib, def, y) <==> Settled(lib, def, y)
    decreases def, 2
  {
    var y := AppliedValue(lib, def, v).value;
    if def.typ == "object" {
      ObjectSettles(lib, def, v);
    } else if def.typ == "array" {
      ContainersPassThrough(lib, def.typ, v);
      ArrayUnfolds(lib, def, v);
      ArrayFixed(lib, def, y);
      forall i | 0 <= i < |y.items|
        ensures AppliedItem(lib, def, y, i) == Some(y.items[i]) <==>
                  (def.items.Some? ==> Settled(lib, def.items.value, y.items[i]))
      {
        assert AppliedItem(lib, def, v, i) == Some(y.items[i]);
        if def.items.Some? {
          ResultSettles(lib, def.items.value, v.items[i]);
        } else {
          CopiesExactlyPlainData(lib, v.items[i]);
        }
      }
    } else {
      SimpleFixed(lib, def, v);
    }
  }

  lemma {:induction false} ObjectSettles(lib: Library, def: Schema, v: Json)
    requires def.typ == "object" && AppliedValue(lib, def, v).Some?
    ensures var y := AppliedValue(lib, def, v).value;
            Fixed(lib, def, y) <==> Settled(lib, def, y)
    decreases def, 1
  {
    hide AppliedFields, AppliedField, AppliedExtra;
    var y := AppliedValue(lib, def, v).value;
    ContainersPassThrough(lib, def.typ, v);
    ResultFields(lib, def, v);
    assert AppliedFields(lib, def, v) == Some(y.fields);
    ObjectFixed(lib, def, y);
    forall k | k in y.fields
      ensures FixedField(lib, def, y, k) <==>
                if k in Properties(def) then Settled(lib, Properties(def)[k], y.fields[k])
                else def.extra.Some? && def.extra.value.schema.Some? ==> Settled(lib, def.extra.value.schema.value, y.fields[k])
    {
      if k in Properties(def) {
        FieldSettles(lib, def, v, k, y.fields[k]);
      } else {
        ExtraSettles(lib, def, v, y.fields, k);
      }
    }
  }

  // ---------------------------------------------------------------- when defaults spoil the result

  /** A default would put a reserved key into an object of this schema. */
  predicate ReservedDefault(def: Schema) {
    || (WireKey in Properties(def) && Properties(def)[WireKey].default.Some?)
    || (ObjectKey in Properties(def) && Properties(def)[ObjectKey].default.Some?)
  }

  /** Applying `def` to `v` injects a reserved key somewhere: into an object that is given, or inside another default. */
  predicate Injects(def: Schema, v: Json)
    decreases def
  {
    if def.typ == "object" then
      v.Object? &&
      (|| ReservedDefault(def)
       || (exists k :: k in Properties(def) &&
             if k in v.fields then Injects(Properties(def)[k], v.fields[k])
             else Properties(def)[k].default.Some? && Injects(Properties(def)[k], Properties(def)[k].default.value))
       || (def.extra.Some? && def.extra.value.schema.Some? &&
             exists k :: k in v.fields && k !in Properties(def) && Injects(def.extra.value.schema.value, v.fields[k])))
    else if def.typ == "array" then
      v.Array? && def.items.Some? && exists i :: 0 <= i < |v.items| && Injects(def.items.value, v.items[i])
    else false
  }

  /** What a declared field is applied to, if anything: the value given, or the default. */
  function Source(def: Schema, fields: map<string, Json>, k: string): Option<Json>
    requires k in Properties(def)
  {
    if k in fields then Some(fields[k]) else Properties(def)[k].default
  }

  /** A result is settled exactly when no default injected a reserved key, which schema and data tell. */
  lemma {:induction false} SettledExactly(lib: Library, def: Schema, v: Json)
    requires AppliedValue(lib, def, v).Some?
    ensures Settled(lib, def, AppliedValue(lib, def, v).value) <==> !Injects(def, v)
    decreases def
  {
    hide AppliedFields;
    var y := AppliedValue(lib, def, v).value;
    if def.typ == "object" {
      ContainersPassThrough(lib, def.typ, v);
      assert AppliedFields(lib, def, v) == Some(y.fields);
      ReservedFields(lib, def, v);
      forall k | k in Properties(def)
        ensures k in y.fields <==> Source(def, v.fields, k).Some?
        ensures k in y.fields ==>
                  (Settled(lib, Properties(def)[k], y.fields[k]) <==> !Injects(Properties(def)[k], Source(def, v.fields, k).value))
      {
        FieldSource(lib, def, v, k);
        if k in y.fields {
          SettledExactly(lib, Properties(def)[k], Source(def, v.fields, k).value);
        }
      }
      if def.extra.Some? && def.extra.value.schema.Some? {
        forall k | k !in Properties(def)
          ensures k in y.fields <==> k in v.fields
          ensures k in y.fields ==>
                    (Settled(lib, def.extra.value.schema.value, y.fields[k]) <==> !Injects(def.extra.value.schema.value, v.fields[k]))
        {
          ExtraSource(lib, def, v, k);
          if k in v.fields {
            SettledExactly(lib, def.extra.value.schema.value, v.fields[k]);
          }
        }
      }
    } else if def.typ == "array" {
      ContainersPassThrough(lib, def.typ, v);
      ArrayUnfolds(lib, def, v);
      if def.items.Some? {
        forall i | 0 <= i < |y.items|
          ensures Settled(lib, def.items.value, y.items[i]) <==> !Injects(def.items.value, v.items[i])
        {
          assert AppliedItem(lib, def, v, i) == Some(y.items[i]);
          SettledExactly(lib, def.items.value, v.items[i]);
        }
      }
    }
  }

  lemma FieldSource(lib: Library, def: Schema, data: Json, k: string)
    requires data.Object? && AppliedFields(lib, def, data).Some? && k in Properties(def)
    ensures var m := AppliedFields(lib, def, data).value;
            && (k in m <==> Source(def, data.fields, k).Some?)
            && (k in m ==> AppliedValue(lib, Properties(def)[k], Source(def, data.fields, k).value) == Some(m[k]))
  {
    hide AppliedValue, AppliedExtra;
    assert AppliedField(lib, def, data, k).Some?;
  }

  lemma ExtraSource(lib: Library, def: Schema, data: Json, k: string)
    requires data.Object? && AppliedFields(lib, def, data).Some? && k !in Properties(def)
    ensures var m := AppliedFields(lib, def, data).value;
            && (k in m <==> k in data.fields)
            && (k in m ==> AppliedExtra(lib, def, data, k) == Some(m[k]))
  {
    hide AppliedValue, AppliedExtra;
  }

  /** An accepted object holds no reserved key, so its result holds one exactly when a default put it there. */
  lemma ReservedFields(lib: Library, def: Schema, v: Json)
    requires def.typ == "object" && v.Object? && AppliedValue(lib, def, v).Some?
    ensures AppliedFields(lib, def, v).Some?
    ensures var y := Object(AppliedFields(lib, def, v).value);
            (WireKey in y.fields || Checkpoint(y)) <==> ReservedDefault(def)
  {
    hide AppliedFields;
    ContainersPassThrough(lib, def.typ, v);
    assert WireKey !in v.fields && ObjectKey !in v.fields;
    forall key | key == WireKey || key == ObjectKey
      ensures key in AppliedFields(lib, def, v).value <==> key in Properties(def) && Properties(def)[key].default.Some?
    {
      if key in Properties(def) {
        FieldSource(lib, def, v, key);
      } else {
        ExtraSource(lib, def, v, key);
      }
    }
  }

  /** Some input of the contract, given or defaulted, has a reserved key injected. */
  predicate ContractInjects(inputs: map<string, Schema>, data: map<string, Json>) {
    exists k :: k in inputs && Source(Contract(inputs), data, k).Some? && Injects(inputs[k], Source(Contract(inputs), data, k).value)
  }

  /**
   Applying a contract to its own result gives the same result exactly when no default puts a reserved
   key into an object inside an input. Reserved names of the inputs themselves do no harm.
   */
  lemma ApplyIdempotentExactly(lib: Library, inputs: map<string, Schema>, data: map<string, Json>)
    requires Apply(lib, inputs, data).Some?
    ensures Apply(lib, inputs, Apply(lib, inputs, data).value) == Apply(lib, inputs, data) <==> !ContractInjects(inputs, data)
  {
    hide AppliedFields, AppliedField, Injects, Settled, Fixed;
    var def := Contract(inputs);
    var y := Apply(lib, inputs, data).value;
    ResultFields(lib, def, Object(data));
    FieldsFixed(lib, def, Object(y));
    forall k | k in y
      ensures k in inputs
      ensures FixedField(lib, def, Object(y), k) <==> Fixed(lib, inputs[k], y[k])
    {
    }
    forall k | k in inputs
      ensures k in y <==> Source(def, data, k).Some?
      ensures k in y ==> (Fixed(lib, inputs[k], y[k]) <==> !Injects(inputs[k], Source(def, data, k).value))
    {
      FieldSource(lib, def, Object(data), k);
      if k in y {
        ResultSettles(lib, inputs[k], Source(def, data, k).value);
        SettledExactly(lib, inputs[k], Source(def, data, k).value);
      }
    }
  }

  /** No object schema gives a default to a property with a reserved name. */
  predicate NoReservedDefault(def: Schema)
    decreases def
  {
    && !ReservedDefault(def)
    && (forall k :: k in Properties(def) ==> NoReservedDefault(Properties(def)[k]))
    && (def.items.Some? ==> NoReservedDefault(def.items.value))
    && (def.extra.Some? && def.extra.value.schema.Some? ==> NoReservedDefault(def.extra.value.schema.value))
  }

  lemma {:induction false} NothingInjected(def: Schema, v: Json)
    requires NoReservedDefault(def)
    ensures !Injects(def, v)
    decreases def
  {
    if def.typ == "object" && v.Object? {
      forall k | k in Properties(def) && Source(def, v.fields, k).Some?
        ensures !Injects(Properties(def)[k], Source(def, v.fields, k).value)
      {
        NothingInjected(Properties(def)[k], Source(def, v.fields, k).value);
      }
      forall k | k in v.fields && def.extra.Some? && def.extra.value.schema.Some?
        ensures !Injects(def.extra.value.schema.value, v.fields[k])
      {
        NothingInjected(def.extra.value.schema.value, v.fields[k]);
      }
    } else if def.typ == "array" && v.Array? && def.items.Some? {
      forall i | 0 <= i < |v.items|
        ensures !Injects(def.items.value, v.items[i])
      {
        NothingInjected(def.items.value, v.items[i]);
      }
    }
  }

  /** A contract without such defaults is idempotent on all data it accepts. */
  lemma ApplyIdempotent(lib: Library, inputs: map<string, Schema>, data: map<string, Json>)
    requires Apply(lib, inputs, data).Some?
    requires forall k :: k in inputs ==> NoReservedDefault(inputs[k])
    ensures Apply(lib, inputs, Apply(lib, inputs, data).value) == Apply(lib, inputs, data)
  {
    ApplyIdempotentExactly(lib, inputs, data);
    forall k | k in inputs && Source(Contract(inputs), data, k).Some?
      ensures !Injects(inputs[k], Source(Contract(inputs), data, k).value)
    {
      NothingInjected(inputs[k], Source(Contract(inputs), data, k).value);
    }
  }

  // ---------------------------------------------------------------- declarations

  const DeclaredTypes := SimpleTypes + OpaqueTypes + ["object", "array"]

  /** validateInputDeclaration. */
  predicate ValidDeclaration(lib: Library, def: Schema, depth: nat)
    decreases def
  {
    && depth <= 64
    && def.typ in DeclaredTypes
    && (def.items.Some? ==> def.typ == "array")
    && (def.properties.Fields? || def.extra.Some? ==> def.typ == "object")
    && (forall k :: k in Properties(def) ==> ValidDeclaration(lib, Properties(def)[k], depth + 1))
    && (def.items.Some? ==> ValidDeclaration(lib, def.items.value, depth + 1))
    && (def.extra.Some? && def.extra.value.schema.Some? ==> ValidDeclaration(lib, def.extra.value.schema.value, depth + 1))
    && (def.default.Some? ==> AppliedValue(lib, def, def.default.value).Some?)
  }

  predicate ValidProperties(lib: Library, def: Schema, depth: nat) {
    forall k :: k in Properties(def) ==> ValidDeclaration(lib, Properties(def)[k], depth)
  }

  /**
   Against validated properties, an object is rejected only for a present value its schema rejects, a
   missing field that is required and has no default, or an undeclared field the extra rule rejects:
   an injected default never fails.
   */
  lemma FieldsExactly(lib: Library, def: Schema, data: Json, depth: nat)
    requires data.Object? && ValidProperties(lib, def, depth)
    ensures AppliedFields(lib, def, data).Some? <==>
              && (forall k :: k in Properties(def) && k in data.fields ==>
                    AppliedValue(lib, Properties(def)[k], data.fields[k]).Some?)
              && (forall k :: k in Properties(def) && k !in data.fields ==>
                    Properties(def)[k].required ==> Properties(def)[k].default.Some?)
              && (forall k :: k in data.fields && k !in Properties(def) ==> AppliedExtra(lib, def, data, k).Some?)
  {
    hide AppliedValue, AppliedExtra;
    forall k | k in Properties(def)
      ensures AppliedField(lib, def, data, k).Some? <==>
                if k in data.fields then AppliedValue(lib, Properties(def)[k], data.fields[k]).Some?
                else Properties(def)[k].required ==> Properties(def)[k].default.Some?
    {
      assert ValidDeclaration(lib, Properties(def)[k], depth);
    }
  }

  datatype Compiled = Compiled(inputs: map<string, Schema>, openIncludes: bool)

  /** adaptLegacyInputSchema, for one declaration. */
  function Adapted(def: Schema): Schema {
    var flat := def.(properties := NoFields, items := None, extra := None);
    if def.typ == "object" then flat.(typ := "checkpoint")
    else if def.typ in SimpleTypes || def.typ == "artifact" || def.typ == "artifact_map" then flat
    else flat.(typ := "")
  }

  /** CompileInputSchema: the version dispatch. */
  function Compile(lib: Library, version: int, inputs: map<string, Schema>): Option<Compiled> {
    if version == 0 || version == 1 then Some(Compiled(map k | k in inputs :: Adapted(inputs[k]), inputs == map[]))
    else if version == 2 && forall k :: k in inputs ==> ValidDeclaration(lib, inputs[k], 0) then Some(Compiled(inputs, false))
    else None
  }

  /** The loop of adaptLegacyInputSchema, rewriting one declaration at a time. */
  method AdaptLegacyInputSchema(inputs: map<string, Schema>) returns (compiled: Compiled)
    ensures compiled == Compiled(map k | k in inputs :: Adapted(inputs[k]), inputs == map[])
  {
    var normalized: map<string, Schema> := map[];
    var todo := inputs.Keys;
    while todo != {}
      invariant todo <= inputs.Keys
      invariant normalized == map k | k in inputs && k !in todo :: Adapted(inputs[k])
      decreases todo
    {
      var name :| name in todo;
      var def := inputs[name].(properties := NoFields, items := None, extra := None);
      if def.typ == "object" {
        def := def.(typ := "checkpoint");
      } else if def.typ !in SimpleTypes && def.typ != "artifact" && def.typ != "artifact_map" {
        def := def.(typ := "");
      }
      normalized := normalized[name := def];
      todo := todo - {name};
    }
    compiled := Compiled(normalized, inputs == map[]);
  }

  /** InputContract.ApplyIncluded. */
  function ApplyIncluded(lib: Library, c: Compiled, data: map<string, Json>): Option<map<string, Json>> {
    if c.openIncludes then Some(data) else Apply(lib, c.inputs, data)
  }

  /** An include may pass undeclared inputs exactly to a legacy contract that declares none. */
  lemma UndeclaredInputsExactly(lib: Library, version: int, inputs: map<string, Schema>, data: map<string, Json>, k: string)
    requires Compile(lib, version, inputs).Some? && k in data && k !in inputs
    ensures ApplyIncluded(lib, Compile(lib, version, inputs).value, data).Some? <==> version != 2 && inputs == map[]
  {
    hide AppliedValue, ValidDeclaration;
    var c := Compile(lib, version, inputs).value;
    assert k !in Properties(Contract(c.inputs));
    assert AppliedExtra(lib, Contract(c.inputs), Object(data), k).None?;
  }

  /**
   A current contract accepts exactly the data of declared inputs in which every value given is accepted
   by its schema and every required input is given or has a default; in particular the empty submission
   exactly when every required input has a default.
   */
  lemma CurrentContractExactly(lib: Library, inputs: map<string, Schema>, data: map<string, Json>)
    requires Compile(lib, 2, inputs).Some?
    ensures Apply(lib, inputs, data).Some? <==>
              && data.Keys <= inputs.Keys
              && (forall k :: k in data && k in inputs ==> AppliedValue(lib, inputs[k], data[k]).Some?)
              && (forall k :: k in inputs && k !in data && inputs[k].required ==> inputs[k].default.Some?)
    ensures Apply(lib, inputs, map[]).Some? <==> forall k :: k in inputs && inputs[k].required ==> inputs[k].default.Some?
  {
    hide AppliedValue, AppliedFields, ValidDeclaration;
    var def := Contract(inputs);
    assert ValidProperties(lib, def, 0);
    FieldsExactly(lib, def, Object(data), 0);
    FieldsExactly(lib, def, Object(map[]), 0);
  }

  /**
   In a legacy contract a type it does not support, array and checkpoint included, rejects every value,
   a default too, and is harmless while the input is optional and absent.
   */
  lemma LegacyUnsupportedType(lib: Library, inputs: map<string, Schema>, data: map<string, Json>, k: string)
    requires k in inputs && Adapted(inputs[k]).typ == ""
    ensures var c := Compile(lib, 1, inputs).value;
            AppliedField(lib, Contract(c.inputs), Object(data), k) ==
            if k in data || inputs[k].required || inputs[k].default.Some? then None else Some(None)
  {
    var c := Compile(lib, 1, inputs).value;
    assert c.inputs[k].typ == "" && "" !in SimpleTypes && "" !in OpaqueTypes;
  }

  const ReservedInput := Schema("object", false, None,
                                Fields(map[WireKey := Schema("number", false, Some(Number(1.0)), NoFields, None, None)]), None, None)

  /** The exception exists: a contract that compiles, and rejects its own result on a default under the reserved name. */
  lemma ReservedDefaultExample(lib: Library)
    ensures var inputs, data := map["o" := ReservedInput], map["o" := Object(map[])];
            && Compile(lib, 2, inputs) == Some(Compiled(inputs, false))
            && Apply(lib, inputs, data).Some?
            && Apply(lib, inputs, Apply(lib, inputs, data).value).None?
  {
    var inputs, data := map["o" := ReservedInput], map["o" := Object(map[])];
    var number := Properties(ReservedInput)[WireKey];
    assert AppliedValue(lib, number, Number(1.0)) == Some(Number(1.0));
    assert ValidDeclaration(lib, number, 1);
    assert ValidDeclaration(lib, ReservedInput, 0);
    assert AppliedField(lib, ReservedInput, Object(map[]), WireKey) == Some(Some(Number(1.0)));
    assert AppliedFields(lib, ReservedInput, Object(map[])).Some?;
    var filled := Object(AppliedFields(lib, ReservedInput, Object(map[])).value);
    assert WireKey in filled.fields;
    assert AppliedValue(lib, ReservedInput, Object(map[])) == Some(filled);
    assert AppliedField(lib, Contract(inputs), Object(data), "o") == Some(Some(filled));
    assert Apply(lib, inputs, data).Some? && Apply(lib, inputs, data).value["o"] == filled;
    var again := Object(Apply(lib, inputs, data).value);
    assert AppliedValue(lib, ReservedInput, filled).None?;
    assert AppliedField(lib, Contract(inputs), again, "o").None?;
  }
}
