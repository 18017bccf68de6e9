/**
 The compiler from JSON Schema to Zod validators, the validators' meaning, and the meaning
 of the schemas (JSON Schema 2020-12).
 */
module SchemaCompiler {
  import opened Wrappers

  datatype Json =
    | Null
    | Bool(b: bool)
    | Num(n: real)
    | Str(s: string)
    | Arr(items: seq<Json>)
    | Obj(members: map<string, Json>)

  // ---------------------------------------------------------------------------
  // Zod
  // ---------------------------------------------------------------------------

  datatype Zod =
    | ZString
    | ZNumber
    | ZInteger
    | ZBoolean
    | ZNull
    | ZUnknown
    | ZLiteral(value: Json)
    | ZEnum(values: seq<string>)
    | ZUnion(options: seq<Zod>)
    | ZArray(element: Zod)
    | ZObject(shape: map<string, Zod>, strict: bool)
    | ZOptional(inner: Zod)

  predicate IsInteger(n: real) {
    n == n.Floor as real
  }

  predicate IsScalar(v: Json) {
    !v.Arr? && !v.Obj?
  }

  /** What a validator is given: a value, or what reading a missing member yields. */
  datatype Input = Missing | Inherited | Given(value: Json)

  /** The functions every JavaScript object has without a member of that name. */
  const INHERITED := {"constructor", "hasOwnProperty", "isPrototypeOf", "propertyIsEnumerable", "toLocaleString", "toString", "valueOf",
                      "__defineGetter__", "__defineSetter__", "__lookupGetter__", "__lookupSetter__"}

  /** Reading a member of an object: a missing one is `undefined`, or an inherited function. */
  function Lookup(members: map<string, Json>, key: string): Input {
    if key in members then Given(members[key])
    else if key in INHERITED then Inherited
    else Missing
  }

  /** Whether a validator accepts an input. */
  predicate Accepts(z: Zod, input: Input)
    decreases z
  {
    match z
    case ZString => input.Given? && input.value.Str?
    case ZNumber => input.Given? && input.value.Num?
    case ZInteger => input.Given? && input.value.Num? && IsInteger(input.value.n)
    case ZBoolean => input.Given? && input.value.Bool?
    case ZNull => input == Given(Null)
    case ZUnknown => true
    case ZLiteral(value) => input == Given(value) && IsScalar(value)
    case ZEnum(values) => input.Given? && input.value.Str? && input.value.s in values
    case ZUnion(options) => exists i :: 0 <= i < |options| && Accepts(options[i], input)
    case ZArray(element) =>
      input.Given? && input.value.Arr? && forall i :: 0 <= i < |input.value.items| ==> Accepts(element, Given(input.value.items[i]))
    case ZObject(shape, strict) =>
      && input.Given? && input.value.Obj?
      && (forall key :: key in shape ==> Accepts(shape[key], Lookup(input.value.members, key)))
      && (strict ==> input.value.members.Keys <= shape.Keys)
    case ZOptional(inner) => input.Missing? || Accepts(inner, input)
  }

  // ---------------------------------------------------------------------------
  // The compiler
  // ---------------------------------------------------------------------------

  predicate HasArray(m: map<string, Json>, keyword: string) {
    keyword in m && m[keyword].Arr?
  }

  function UnionOf(options: seq<Zod>): Zod {
    if |options| >= 2 then ZUnion(options) else if |options| == 1 then options[0] else ZUnknown
  }

  function Literals(values: seq<Json>): (zs: seq<Zod>)
    ensures |zs| == |values| && forall i :: 0 <= i < |values| ==> zs[i] == ZLiteral(values[i])
  {
    seq(|values|, i requires 0 <= i < |values| => ZLiteral(values[i]))
  }

  function StringsOf(values: seq<Json>): (r: seq<string>)
    ensures forall s :: s in r <==> Str(s) in values
  {
    if values == [] then [] else (if values[0].Str? then [values[0].s] else []) + StringsOf(values[1..])
  }

  function EnumSchema(values: seq<Json>): Zod {
    if |StringsOf(values)| == |values| && |values| > 0 then ZEnum(StringsOf(values))
    else UnionOf(Literals(values))
  }

  function SchemaType(m: map<string, Json>): Option<string> {
    if "type" !in m then None
    else if m["type"].Str? then Some(m["type"].s)
    else if m["type"].Arr? && |m["type"].items| > 0 && m["type"].items[0].Str? then Some(m["type"].items[0].s)
    else None
  }

  function RequiredNames(m: map<string, Json>): set<string> {
    if HasArray(m, "required") then set s | s in StringsOf(m["required"].items) else {}
  }

  function Properties(m: map<string, Json>): map<string, Json> {
    if "properties" in m && m["properties"].Obj? then m["properties"].members else map[]
  }

  predicate IsStrict(m: map<string, Json>) {
    "additionalProperties" in m && m["additionalProperties"] == Bool(false)
  }

  function Convert(schema: Json): Zod
    requires schema.Obj?
    decreases schema, 2
  {
    var m := schema.members;
    if "const" in m then EnumSchema([m["const"]])
    else if HasArray(m, "enum") && |m["enum"].items| > 0 then EnumSchema(m["enum"].items)
    else if HasArray(m, "anyOf") then UnionOf(ConvertAll(m["anyOf"].items))
    else if HasArray(m, "oneOf") then UnionOf(ConvertAll(m["oneOf"].items))
    else if HasArray(m, "type") && |m["type"].items| > 1 then UnionOf(ConvertTypes(schema, StringsOf(m["type"].items)))
    else
      var t := SchemaType(m);
      if t.None? then ZUnknown else ConvertType(schema, t.value)
  }

  /** `unionSchema`'s list: entries that are not objects are dropped. */
  function ConvertAll(schemas: seq<Json>): seq<Zod>
    decreases schemas, 0
  {
    if schemas == [] then []
    else (if schemas[0].Obj? then [Convert(schemas[0])] else []) + ConvertAll(schemas[1..])
  }

  /** One validator for each listed type. */
  function ConvertTypes(schema: Json, types: seq<string>): (zs: seq<Zod>)
    requires schema.Obj?
    ensures |zs| == |types|
    decreases schema, 1, |types|
  {
    if types == [] then [] else [ConvertType(schema, types[0])] + ConvertTypes(schema, types[1..])
  }

  /** The schema read as if `type` were this one name. */
  function ConvertType(schema: Json, t: string): Zod
    requires schema.Obj?
    decreases schema, 0
  {
    var m := schema.members;
    if t == "object" then
      var properties := Properties(m);
      ZObject(map key | key in properties :: ConvertProperty(properties[key], key in RequiredNames(m)), IsStrict(m))
    else if t == "array" then
      if "items" in m && m["items"].Obj? then ZArray(Convert(m["items"])) else ZArray(ZUnknown)
    else if t == "string" then ZString
    else if t == "number" then ZNumber
    else if t == "integer" then ZInteger
    else if t == "boolean" then ZBoolean
    else if t == "null" then ZNull
    else ZUnknown
  }

  function ConvertProperty(schema: Json, required: bool): Zod
    decreases schema, 3
  {
    if !schema.Obj? then ZUnknown
    else if required then Convert(schema)
    else ZOptional(Convert(schema))
  }

  // ---------------------------------------------------------------------------
  // JSON Schema
  // ---------------------------------------------------------------------------

  predicate HasType(v: Json, t: string) {
    || (t == "object" && v.Obj?)
    || (t == "array" && v.Arr?)
    || (t == "string" && v.Str?)
    || (t == "number" && v.Num?)
    || (t == "integer" && v.Num? && IsInteger(v.n))
    || (t == "boolean" && v.Bool?)
    || (t == "null" && v.Null?)
  }

  /**
   What the compiler does not look at: the verdict of every other keyword of a schema, and
   which names a pattern matches.
   */
  datatype Context = Context(others: (Json, Json) -> bool, matches: (string, string) -> bool)

  /**
   Whether an instance is valid: every keyword present must hold. A schema is an object or a
   boolean; anything else says nothing.
   */
  ghost predicate Valid(schema: Json, v: Json, c: Context)
    decreases schema, 1
  {
    if schema.Bool? then schema.b
    else if !schema.Obj? then true
    else
      var m := schema.members;
      && c.others(schema, v)
      && ("const" in m ==> v == m["const"])
      && (HasArray(m, "enum") ==> v in m["enum"].items)
      && (HasArray(m, "anyOf") ==> exists i :: 0 <= i < |m["anyOf"].items| && Valid(m["anyOf"].items[i], v, c))
      && (HasArray(m, "oneOf") ==>
            exists i :: (
              && 0 <= i < |m["oneOf"].items| && Valid(m["oneOf"].items[i], v, c)
              && forall j :: 0 <= j < |m["oneOf"].items| && j != i ==> !Valid(m["oneOf"].items[j], v, c)))
      && ("type" in m ==> TypeHolds(m["type"], v))
      && (v.Obj? ==> ValidObject(schema, v.members, c))
      && (v.Arr? ==> ValidArray(schema, v.items, c))
  }

  /** Section 6.1.1 of JSON Schema Validation. */
  predicate TypeHolds(t: Json, v: Json) {
    match t
    case Str(name) => HasType(v, name)
    case Arr(names) => exists name :: name in StringsOf(names) && HasType(v, name)
    case _ => true
  }

  predicate MatchesPattern(m: map<string, Json>, key: string, c: Context) {
    "patternProperties" in m && m["patternProperties"].Obj? && exists p :: p in m["patternProperties"].members && c.matches(p, key)
  }

  /** Sections 10.3.2 of JSON Schema Core and 6.5.3 of JSON Schema Validation. */
  ghost predicate ValidObject(schema: Json, members: map<string, Json>, c: Context)
    requires schema.Obj?
    decreases schema, 0
  {
    var m := schema.members;
    && (forall key :: key in Properties(m) && key in members ==> Valid(Properties(m)[key], members[key], c))
    && RequiredNames(m) <= members.Keys
    && ("patternProperties" in m && m["patternProperties"].Obj? ==>
          forall p, key :: p in m["patternProperties"].members && key in members && c.matches(p, key) ==>
            Valid(m["patternProperties"].members[p], members[key], c))
    && ("additionalProperties" in m ==>
          forall key :: key in members && key !in Properties(m) && !MatchesPattern(m, key, c) ==>
            Valid(m["additionalProperties"], members[key], c))
  }

  /** Section 10.3.1 of JSON Schema Core: `items` starts behind the items that `prefixItems` describes. */
  ghost predicate ValidArray(schema: Json, items: seq<Json>, c: Context)
    requires schema.Obj?
    decreases schema, 0
  {
    var m := schema.members;
    var described := if HasArray(m, "prefixItems") then |m["prefixItems"].items| else 0;
    && (HasArray(m, "prefixItems") ==>
          forall i :: 0 <= i < |items| && i < described ==> Valid(m["prefixItems"].items[i], items[i], c))
    && ("items" in m ==> forall i :: described <= i < |items| ==> Valid(m["items"], items[i], c))
  }
}
