/** JSON values as a configuration file parses them. Numbers are exact reals. */
module Json {
  datatype Json =
    | JNull
    | JBool(b: bool)
    | JNumber(n: real)
    | JString(s: string)
    | JArray(elems: seq<Json>)
    | JObject(fields: map<string, Json>)

  /** JSON Schema's "integer": a number with no fractional part (so `1.0` counts). */
  predicate IsIntegral(n: real) {
    n.Floor as real == n
  }
}

/** The part of JSON Schema (draft-07) the configuration schemas use: `type`,
    `properties`, `required`, `additionalProperties: false`, `items` and `oneOf`. */
module JsonSchema {
  import opened Wrappers
  import opened Json

  datatype SchemaType = TNull | TBoolean | TInteger | TNumber | TString | TArray | TObject

  /** A schema; an absent keyword is `None`, an empty list or `false`. */
  datatype Schema = Schema(
    typ: Option<SchemaType>,
    properties: map<string, Schema>,
    required: seq<string>,
    noAdditional: bool,
    items: Option<Schema>,
    oneOf: seq<Schema>)

  /** The draft-07 `type` keyword: booleans are not numbers, and an integral
      number is both an "integer" and a "number". */
  predicate HasType(v: Json, t: SchemaType) {
    match t
    case TNull => v.JNull?
    case TBoolean => v.JBool?
    case TInteger => v.JNumber? && IsIntegral(v.n)
    case TNumber => v.JNumber?
    case TString => v.JString?
    case TArray => v.JArray?
    case TObject => v.JObject?
  }

  /** `v` is valid against `s`. The object keywords constrain objects only, and
      `items` arrays only; `oneOf` needs exactly one alternative to hold. */
  predicate Conforms(v: Json, s: Schema)
    decreases s
  {
    && (s.typ.Some? ==> HasType(v, s.typ.value))
    && (v.JObject? ==>
          && (forall k :: k in s.required ==> k in v.fields)
          && (forall k :: k in s.properties && k in v.fields ==> Conforms(v.fields[k], s.properties[k]))
          && (s.noAdditional ==> v.fields.Keys <= s.properties.Keys))
    && (v.JArray? && s.items.Some? ==>
          forall i :: 0 <= i < |v.elems| ==> Conforms(v.elems[i], s.items.value))
    && (|s.oneOf| > 0 ==> |set i | 0 <= i < |s.oneOf| && Conforms(v, s.oneOf[i])| == 1)
  }

  // ---------------------------------------------------------------------
  // Building blocks

  function TypeOnly(t: SchemaType): Schema {
    Schema(Some(t), map[], [], false, None, [])
  }

  /** `{"type": "array", "items": {"type": "string"}}`. */
  function StringArray(): Schema {
    Schema(Some(TArray), map[], [], false, Some(TypeOnly(TString)), [])
  }

  /** `{"type": "object", "properties": ..., "required": ..., "additionalProperties": false}`. */
  function ClosedObject(properties: map<string, Schema>, required: seq<string>): Schema {
    Schema(Some(TObject), properties, required, true, None, [])
  }

  predicate IsStringArray(v: Json) {
    v.JArray? && forall i :: 0 <= i < |v.elems| ==> v.elems[i].JString?
  }

  // ---------------------------------------------------------------------
  // Properties

  lemma TypeOnlyMeaning(v: Json, t: SchemaType)
    ensures Conforms(v, TypeOnly(t)) <==> HasType(v, t)
  {
  }

  lemma StringArrayMeaning(v: Json)
    ensures Conforms(v, StringArray()) <==> IsStringArray(v)
  {
    if IsStringArray(v) {
      forall i | 0 <= i < |v.elems| ensures Conforms(v.elems[i], TypeOnly(TString)) {
        TypeOnlyMeaning(v.elems[i], TString);
      }
    }
  }

  /** A closed object schema accepts an object exactly when every required key is
      present, every key is declared, and every declared key present conforms. */
  lemma ClosedObjectMeaning(v: Json, properties: map<string, Schema>, required: seq<string>)
    ensures Conforms(v, ClosedObject(properties, required)) <==>
              && v.JObject?
              && (forall k :: k in required ==> k in v.fields)
              && v.fields.Keys <= properties.Keys
              && (forall k :: k in properties && k in v.fields ==> Conforms(v.fields[k], properties[k]))
  {
  }

  /** A `oneOf` of alternatives no value satisfies together accepts exactly the
      values one of them accepts. */
  lemma OneOfOfTwoDisjoint(v: Json, a: Schema, b: Schema)
    requires !(Conforms(v, a) && Conforms(v, b))
    ensures Conforms(v, Schema(None, map[], [], false, None, [a, b])) <==> Conforms(v, a) || Conforms(v, b)
  {
    var s := Schema(None, map[], [], false, None, [a, b]);
    var hits := set i | 0 <= i < |s.oneOf| && Conforms(v, s.oneOf[i]);
    if Conforms(v, a) {
      assert hits == {0};
    } else if Conforms(v, b) {
      assert hits == {1};
    } else {
      assert hits == {};
    }
  }
}
