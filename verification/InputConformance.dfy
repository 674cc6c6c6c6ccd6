/**
 The declarative reading of an input schema, independent of how it is applied
 (pkg/recipe/input_contract.go, input_schema.go): results conform to the schema, and data is left as
 it is exactly when it conforms already.
 */
module InputConformance {
  import opened Text
  import opened InputContract

  /** A value of a simple type, or a reference that promises one. */
  predicate ConformsSimply(lib: Library, typ: string, v: Json) {
    || (v.Config? && ValidReference(v.ref) && v.ref.expectedType == typ)
    || (typ == "string" && v.Str? && lib.template(v.s).None?)
    || (typ == "number" && (v.Number? || v.NonFinite?))
    || (typ == "boolean" && v.Bool?)
  }

  predicate ConformsOpaquely(lib: Library, typ: string, v: Json) {
    && typ in OpaqueTypes && Parse(lib, v).Plain? && !v.Null? && lib.accepts(typ, v)
    && (v.Str? ==> lib.template(v.s).None?)
  }

  /** Declared fields conform and are absent only if optional without a default; others obey the extra rule. */
  predicate Conforms(lib: Library, def: Schema, v: Json)
    decreases def
  {
    if def.typ == "object" then
      && v.Object? && AbsentStays(def, v)
      && (forall k :: k in v.fields && k in Properties(def) ==> Conforms(lib, Properties(def)[k], v.fields[k]))
      && (forall k :: k in v.fields && k !in Properties(def) ==>
            if def.extra.Some? && def.extra.value.schema.Some? then Conforms(lib, def.extra.value.schema.value, v.fields[k])
            else ExtraOf(def).allowed && PlainData(lib, v.fields[k]))
    else if def.typ == "array" then
      && v.Array?
      && (forall i :: 0 <= i < |v.items| ==>
            if def.items.Some? then Conforms(lib, def.items.value, v.items[i]) else PlainData(lib, v.items[i]))
    else if def.typ in SimpleTypes then ConformsSimply(lib, def.typ, v)
    else ConformsOpaquely(lib, def.typ, v)
  }

  lemma SimpleConforms(lib: Library, def: Schema, v: Json)
    requires def.typ != "object" && def.typ != "array"
    ensures AppliedValue(lib, def, v).Some? ==> Conforms(lib, def, AppliedValue(lib, def, v).value)
    ensures Conforms(lib, def, v) ==> Fixed(lib, def, v)
  {
  }

  lemma {:induction false} ExtraConforms(lib: Library, def: Schema, data: Json, k: string, x: Json)
    requires data.Object? && k in data.fields && k !in Properties(def) && AppliedExtra(lib, def, data, k) == Some(x)
    ensures if def.extra.Some? && def.extra.value.schema.Some? then Conforms(lib, def.extra.value.schema.value, x)
            else ExtraOf(def).allowed && PlainData(lib, x)
    decreases def, 0
  {
    hide AppliedValue, CopiedJson, Conforms;
    if def.extra.Some? && def.extra.value.schema.Some? {
      ResultConforms(lib, def.extra.value.schema.value, data.fields[k]);
    } else {
      CopiesExactlyPlainData(lib, data.fields[k]);
    }
  }

  lemma {:induction false} FieldsConform(lib: Library, def: Schema, data: Json)
    requires def.typ == "object" && data.Object? && AppliedFields(lib, def, data).Some?
    ensures Conforms(lib, def, Object(AppliedFields(lib, def, data).value))
    decreases def, 1
  {
    hide AppliedValue, AppliedFields, AppliedExtra;
    ResultFields(lib, def, data);
    var m := AppliedFields(lib, def, data).value;
    forall k | k in m && k in Properties(def)
      ensures Conforms(lib, Properties(def)[k], m[k])
    {
      var field := Properties(def)[k];
      ResultConforms(lib, field, if k in data.fields then data.fields[k] else field.default.value);
    }
    forall k | k in m && k !in Properties(def)
      ensures if def.extra.Some? && def.extra.value.schema.Some? then Conforms(lib, def.extra.value.schema.value, m[k])
              else ExtraOf(def).allowed && PlainData(lib, m[k])
    {
      ExtraConforms(lib, def, data, k, m[k]);
    }
  }

  /** Whatever applying a schema returns conforms to the schema, injected defaults included. */
  lemma {:induction false} ResultConforms(lib: Library, def: Schema, v: Json)
    requires AppliedValue(lib, def, v).Some?
    ensures Conforms(lib, def, AppliedValue(lib, def, v).value)
    decreases def, 2
  {
    var y := AppliedValue(lib, def, v).value;
    if def.typ == "object" {
      ContainersPassThrough(lib, def.typ, v);
      FieldsConform(lib, def, v);
    } else if def.typ == "array" {
      ContainersPassThrough(lib, def.typ, v);
      ArrayUnfolds(lib, def, v);
      forall i | 0 <= i < |y.items|
        ensures if def.items.Some? then Conforms(lib, def.items.value, y.items[i]) else PlainData(lib, y.items[i])
      {
        ItemConforms(lib, def, v, i, y.items[i]);
      }
    } else {
      SimpleConforms(lib, def, v);
    }
  }

  lemma {:induction false} ItemConforms(lib: Library, def: Schema, v: Json, i: nat, x: Json)
    requires v.Array? && i < |v.items| && AppliedItem(lib, def, v, i) == Some(x)
    ensures if def.items.Some? then Conforms(lib, def.items.value, x) else PlainData(lib, x)
    decreases def, 0
  {
    hide AppliedValue, CopiedJson, Conforms;
    if def.items.Some? {
      ResultConforms(lib, def.items.value, v.items[i]);
    } else {
      CopiesExactlyPlainData(lib, v.items[i]);
    }
  }

  lemma {:induction false} ConformingFieldFixed(lib: Library, def: Schema, v: Json, k: string)
    requires def.typ == "object" && Conforms(lib, def, v) && Settled(lib, def, v) && k in v.fields
    ensures FixedField(lib, def, v, k)
    decreases def, 0
  {
    hide AppliedValue, CopiedJson;
    if k in Properties(def) {
      ConformingStays(lib, Properties(def)[k], v.fields[k]);
    } else if def.extra.Some? && def.extra.value.schema.Some? {
      ConformingStays(lib, def.extra.value.schema.value, v.fields[k]);
    } else {
      CopiesExactlyPlainData(lib, v.fields[k]);
    }
  }

  lemma {:induction false} ConformingStays(lib: Library, def: Schema, v: Json)
    requires Conforms(lib, def, v) && Settled(lib, def, v)
    ensures Fixed(lib, def, v)
    decreases def, 1
  {
    hide AppliedValue, CopiedJson, FixedField, Fixed;
    if def.typ == "object" {
      forall k | k in v.fields
        ensures FixedField(lib, def, v, k)
      {
        ConformingFieldFixed(lib, def, v, k);
      }
      ObjectFixed(lib, def, v);
    } else if def.typ == "array" {
      forall i | 0 <= i < |v.items|
        ensures AppliedItem(lib, def, v, i) == Some(v.items[i])
      {
        ConformingItemFixed(lib, def, v, i);
      }
      ArrayFixed(lib, def, v);
    } else {
      SimpleConforms(lib, def, v);
    }
  }

  lemma {:induction false} ConformingItemFixed(lib: Library, def: Schema, v: Json, i: nat)
    requires def.typ == "array" && Conforms(lib, def, v) && Settled(lib, def, v) && i < |v.items|
    ensures AppliedItem(lib, def, v, i) == Some(v.items[i])
    decreases def, 0
  {
    hide AppliedValue, CopiedJson;
    if def.items.Some? {
      ConformingStays(lib, def.items.value, v.items[i]);
    } else {
      CopiesExactlyPlainData(lib, v.items[i]);
    }
  }

  /** A schema leaves a value as it is exactly when the value conforms to it and is settled. */
  lemma FixedExactly(lib: Library, def: Schema, v: Json)
    ensures Fixed(lib, def, v) <==> Conforms(lib, def, v) && Settled(lib, def, v)
  {
    hide AppliedValue, Conforms, Settled;
    if Fixed(lib, def, v) {
      ResultConforms(lib, def, v);
      ResultSettles(lib, def, v);
    } else if Conforms(lib, def, v) && Settled(lib, def, v) {
      ConformingStays(lib, def, v);
    }
  }

  /** What a contract returns holds every declared input it must, each in its type, and nothing undeclared. */
  lemma ContractResultConforms(lib: Library, inputs: map<string, Schema>, data: map<string, Json>)
    requires Apply(lib, inputs, data).Some?
    ensures var y := Apply(lib, inputs, data).value;
            && y.Keys <= inputs.Keys
            && (forall k :: k in y ==> k in inputs && Conforms(lib, inputs[k], y[k]))
            && (forall k :: k in inputs && k !in y ==> !inputs[k].required && inputs[k].default.None? && k !in data)
  {
    FieldsConform(lib, Contract(inputs), Object(data));
    var y := Apply(lib, inputs, data).value;
    forall k | k in inputs && k !in y
      ensures !inputs[k].required && inputs[k].default.None? && k !in data
    {
      assert AppliedField(lib, Contract(inputs), Object(data), k).Some?;
    }
  }

  // ---------------------------------------------------------------- what becomes of simple values

  /** The three ways to write a reference: decoded, as a template, and as an object with the reserved key. */
  predicate RefersTo(lib: Library, v: Json, r: Reference) {
    || v == Config(r)
    || (v.Str? && lib.template(v.s) == Some(r))
    || (v.Object? && WireKey in v.fields && lib.wire(v.fields) == Some(r))
  }

  /** More than white space. */
  predicate HasText(s: string) {
    exists i :: 0 <= i < |s| && s[i] != ' ' && s[i] != '\t' && s[i] != '\r' && s[i] != '\n'
  }

  /**
   A reference is accepted exactly for a simple type it does not contradict. Its name and default survive,
   and it is told the type to deliver.
   */
  lemma ReferenceSurvives(lib: Library, def: Schema, v: Json, r: Reference)
    requires RefersTo(lib, v, r)
    ensures AppliedValue(lib, def, v) ==
            if && def.typ in ["string", "number", "boolean"] && r.expectedType in ["", def.typ]
               && r.kind == "config" && |r.name| <= 256 && HasText(r.name)
               && (r.default.Some? ==> r.default.value.Null? || r.default.value.Bool? || r.default.value.Number? || r.default.value.Str?)
            then Some(Config(Reference(r.kind, r.name, def.typ, r.default)))
            else None
  {
    hide AppliedFields, AppliedItems;
  }

  /** A value that refers to nothing is kept by a simple type exactly when it is of that type. */
  lemma PlainValueKept(lib: Library, def: Schema, v: Json)
    requires Parse(lib, v).Plain? && (v.Str? ==> lib.template(v.s).None?)
    requires def.typ in ["string", "number", "boolean"]
    ensures AppliedValue(lib, def, v) ==
            if (def.typ == "string" && v.Str?) || (def.typ == "number" && (v.Number? || v.NonFinite?)) || (def.typ == "boolean" && v.Bool?)
            then Some(v) else None
  {
    hide AppliedFields, AppliedItems;
  }

  /** In a legacy contract simple and artifact types mean what they mean now, and an object is a checkpoint. */
  lemma LegacySupportedType(lib: Library, def: Schema, v: Json)
    ensures def.typ in ["string", "number", "boolean", "artifact", "artifact_map"] ==>
              AppliedValue(lib, Adapted(def), v) == AppliedValue(lib, def, v)
    ensures def.typ == "object" ==>
              AppliedValue(lib, Adapted(def), v) == if ConformsOpaquely(lib, "checkpoint", v) then Some(v) else None
  {
    hide AppliedFields, AppliedItems;
  }

  // ---------------------------------------------------------------- which contracts compile

  predicate KnownType(typ: string) {
    typ in ["string", "number", "boolean", "artifact", "artifact_map", "checkpoint", "object", "array"]
  }

  lemma KnownTypesDeclared(typ: string)
    ensures typ in DeclaredTypes <==> KnownType(typ)
  {
    assert DeclaredTypes == ["string", "number", "boolean", "artifact", "artifact_map", "checkpoint", "object", "array"];
  }

  /** The rules of a declaration that may be nested `left` levels more. */
  predicate Declared(lib: Library, def: Schema, left: int)
    decreases def
  {
    && left >= 0
    && KnownType(def.typ)
    && (def.typ != "array" ==> def.items.None?)
    && (def.typ != "object" ==> def.properties.NoFields? && def.extra.None?)
    && (forall k :: k in Properties(def) ==> Declared(lib, Properties(def)[k], left - 1))
    && (def.items.Some? ==> Declared(lib, def.items.value, left - 1))
    && (def.extra.Some? && def.extra.value.schema.Some? ==> Declared(lib, def.extra.value.schema.value, left - 1))
    && (def.default.Some? ==> AppliedValue(lib, def, def.default.value).Some?)
  }

  /** The declarations directly inside one. */
  function Inside(def: Schema): set<Schema> {
    (set k | k in Properties(def) :: Properties(def)[k])
    + (if def.items.Some? then {def.items.value} else {})
    + (if def.extra.Some? && def.extra.value.schema.Some? then {def.extra.value.schema.value} else {})
  }

  lemma ValidByParts(lib: Library, def: Schema, depth: nat)
    ensures ValidDeclaration(lib, def, depth) <==>
              && depth <= 64 && def.typ in DeclaredTypes && (def.items.Some? ==> def.typ == "array")
              && (def.properties.Fields? || def.extra.Some? ==> def.typ == "object")
              && (forall d :: d in Inside(def) ==> ValidDeclaration(lib, d, depth + 1))
              && (def.default.Some? ==> AppliedValue(lib, def, def.default.value).Some?)
  {
    hide AppliedValue;
    assert forall k :: k in Properties(def) ==> Properties(def)[k] in Inside(def);
    assert def.items.Some? ==> def.items.value in Inside(def);
    assert def.extra.Some? && def.extra.value.schema.Some? ==> def.extra.value.schema.value in Inside(def);
  }

  lemma DeclaredByParts(lib: Library, def: Schema, left: int)
    ensures Declared(lib, def, left) <==>
              && left >= 0 && KnownType(def.typ) && (def.typ != "array" ==> def.items.None?)
              && (def.typ != "object" ==> def.properties.NoFields? && def.extra.None?)
              && (forall d :: d in Inside(def) ==> Declared(lib, d, left - 1))
              && (def.default.Some? ==> AppliedValue(lib, def, def.default.value).Some?)
  {
    hide AppliedValue, KnownType;
    assert forall k :: k in Properties(def) ==> Properties(def)[k] in Inside(def);
    assert def.items.Some? ==> def.items.value in Inside(def);
    assert def.extra.Some? && def.extra.value.schema.Some? ==> def.extra.value.schema.value in Inside(def);
  }

  lemma InsideIsSmaller(def: Schema, d: Schema)
    requires d in Inside(def)
    ensures d < def
  {
  }

  lemma {:induction false} DeclaredExactly(lib: Library, def: Schema, depth: nat)
    ensures ValidDeclaration(lib, def, depth) <==> Declared(lib, def, 64 - depth)
    decreases def
  {
    hide AppliedValue, KnownType, ValidDeclaration, Declared;
    ValidByParts(lib, def, depth);
    DeclaredByParts(lib, def, 64 - depth);
    KnownTypesDeclared(def.typ);
    forall d | d in Inside(def)
      ensures ValidDeclaration(lib, d, depth + 1) <==> Declared(lib, d, 64 - depth - 1)
    {
      InsideIsSmaller(def, d);
      DeclaredExactly(lib, d, depth + 1);
    }
  }

  /** Legacy contracts always compile, current ones exactly when every declaration follows the rules, and no others. */
  lemma ContractCompilesExactly(lib: Library, version: int, inputs: map<string, Schema>)
    ensures Compile(lib, version, inputs).Some? <==>
              version == 0 || version == 1 || (version == 2 && forall k :: k in inputs ==> Declared(lib, inputs[k], 64))
    ensures version == 2 && Compile(lib, version, inputs).Some? ==> Compile(lib, version, inputs).value.inputs == inputs
    ensures version == 0 || version == 1 ==> Compile(lib, version, inputs).value.inputs.Keys == inputs.Keys
  {
    hide ValidDeclaration, Declared, Adapted;
    forall k | k in inputs
      ensures ValidDeclaration(lib, inputs[k], 0) <==> Declared(lib, inputs[k], 64)
    {
      DeclaredExactly(lib, inputs[k], 0);
    }
  }
}
