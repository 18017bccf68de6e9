/** The compiled validator against the schema: never too strict, and where it is exact. */
module SchemaCompilerProofs {
  import opened Wrappers
  import opened SchemaCompiler

  // ---------------------------------------------------------------------------
  // Schemas whose validator is never too strict
  // ---------------------------------------------------------------------------

  /** The conditions hold wherever the compiler looks. */
  predicate Compilable(schema: Json)
    requires schema.Obj?
    decreases schema, 2
  {
    var m := schema.members;
    if "const" in m then IsScalar(m["const"])
    else if HasArray(m, "enum") && |m["enum"].items| > 0 then
      forall i :: 0 <= i < |m["enum"].items| ==> IsScalar(m["enum"].items[i])
    else if HasArray(m, "anyOf") then AllCompilable(m["anyOf"].items)
    else if HasArray(m, "oneOf") then AllCompilable(m["oneOf"].items)
    else if HasArray(m, "type") && |m["type"].items| > 1 then
      forall t :: t in StringsOf(m["type"].items) ==> TypeCompilable(schema, t)
    else SchemaType(m).Some? ==> TypeCompilable(schema, SchemaType(m).value)
  }

  /** No boolean among the alternatives: the compiler drops it. */
  predicate AllCompilable(schemas: seq<Json>)
    decreases schemas, 0
  {
    forall i :: 0 <= i < |schemas| ==> schemas[i].Obj? && Compilable(schemas[i])
  }

  /** A strict object has no pattern properties, an array no prefix items, and names are safe. */
  predicate TypeCompilable(schema: Json, t: string)
    requires schema.Obj?
    decreases schema, 1
  {
    var m := schema.members;
    && (t == "object" ==>
          && (IsStrict(m) ==> "patternProperties" !in m)
          && (forall key :: key in Properties(m) && Properties(m)[key].Obj? ==> Compilable(Properties(m)[key]))
          && NamesCompilable(m))
    && (t == "array" && "items" in m && m["items"].Obj? ==> !HasArray(m, "prefixItems") && Compilable(m["items"]))
  }

  /** An optional property under an inherited name constrains nothing that an inherited function would fail. */
  predicate NamesCompilable(m: map<string, Json>) {
    forall key :: key in Properties(m) && key in INHERITED && Properties(m)[key].Obj? && key !in RequiredNames(m) ==>
      AllowsMissing(Properties(m)[key])
  }

  lemma {:induction false} StringsOfAll(values: seq<Json>)
    ensures |StringsOf(values)| <= |values|
    ensures |StringsOf(values)| == |values| <==> forall i :: 0 <= i < |values| ==> values[i].Str?
  {
    if values != [] {
      StringsOfAll(values[1..]);
      assert forall i :: 0 <= i < |values| - 1 ==> values[1..][i] == values[i + 1];
      assert (forall i :: 0 <= i < |values| ==> values[i].Str?)
        <==> values[0].Str? && forall i :: 0 <= i < |values| - 1 ==> values[1..][i].Str?;
    }
  }

  lemma UnionAccepts(options: seq<Zod>, input: Input)
    requires options != []
    ensures Accepts(UnionOf(options), input) <==> exists i :: 0 <= i < |options| && Accepts(options[i], input)
  {
  }

  /** An enumeration accepts exactly those of its members that are scalars. */
  lemma EnumAccepts(values: seq<Json>, input: Input)
    requires values != []
    ensures Accepts(EnumSchema(values), input) <==> input.Given? && input.value in values && IsScalar(input.value)
  {
    StringsOfAll(values);
    if |StringsOf(values)| < |values| {
      var zs := Literals(values);
      UnionAccepts(zs, input);
      if input.Given? && input.value in values && IsScalar(input.value) {
        var i :| 0 <= i < |values| && values[i] == input.value;
        assert Accepts(zs[i], input);
      }
    }
  }

  lemma {:induction false} ConvertTypesAre(schema: Json, types: seq<string>)
    requires schema.Obj?
    ensures |ConvertTypes(schema, types)| == |types|
    ensures forall i :: 0 <= i < |types| ==> ConvertTypes(schema, types)[i] == ConvertType(schema, types[i])
  {
    hide ConvertType;
    if types != [] {
      ConvertTypesAre(schema, types[1..]);
    }
  }

  lemma {:induction false} ConvertAllHas(schemas: seq<Json>, z: Zod)
    ensures z in ConvertAll(schemas) <==> exists schema :: schema in schemas && schema.Obj? && Convert(schema) == z
  {
    hide Convert;
    if schemas != [] {
      ConvertAllHas(schemas[1..], z);
      assert schemas == [schemas[0]] + schemas[1..];
    }
  }

  lemma ConvertAllHolds(schemas: seq<Json>, input: Input)
    ensures ConvertAll(schemas) == [] <==> forall schema :: schema in schemas ==> !schema.Obj?
    ensures (exists z :: z in ConvertAll(schemas) && Accepts(z, input))
       <==> exists schema :: schema in schemas && schema.Obj? && Accepts(Convert(schema), input)
  {
    hide Convert, ConvertAll, Accepts;
    var zs := ConvertAll(schemas);
    forall z ensures z in zs <==> exists schema :: schema in schemas && schema.Obj? && Convert(schema) == z {
      ConvertAllHas(schemas, z);
    }
    forall schema | schema in schemas && schema.Obj? ensures Convert(schema) in zs {
    }
    if zs != [] {
      assert zs[0] in zs;
    }
  }

  /**
   What becomes of any list of alternatives: it is accepted where some alternative that is an
   object is, and everywhere if there is none. Booleans among them say nothing, and it does not
   matter how many accept.
   */
  lemma AlternativesAccept(schemas: seq<Json>, input: Input)
    ensures Accepts(UnionOf(ConvertAll(schemas)), input)
       <==> || (forall i :: 0 <= i < |schemas| ==> !schemas[i].Obj?)
            || exists i :: 0 <= i < |schemas| && schemas[i].Obj? && Accepts(Convert(schemas[i]), input)
  {
    hide Convert, Accepts, ConvertAll, UnionOf;
    var zs := ConvertAll(schemas);
    ConvertAllHolds(schemas, input);
    if zs == [] {
      NoAlternative(input);
    } else {
      UnionAccepts(zs, input);
      assert (exists k :: 0 <= k < |zs| && Accepts(zs[k], input)) <==> exists z :: z in zs && Accepts(z, input);
    }
  }

  lemma NoAlternative(input: Input)
    ensures Accepts(UnionOf([]), input)
  {
  }

  /**
   Main result: wherever the conditions hold, every valid instance is accepted, whatever the
   keywords the compiler ignores say.
   */
  lemma {:induction false} ValidIsAccepted(schema: Json, v: Json, c: Context)
    requires schema.Obj? && Compilable(schema) && Valid(schema, v, c)
    ensures Accepts(Convert(schema), Given(v))
    decreases schema, 2
  {
    hide TypeCompilable, ConvertType, ValidObject, ValidArray, HasType;
    var m := schema.members;
    if "const" in m {
      EnumAccepts([m["const"]], Given(v));
    } else if HasArray(m, "enum") && |m["enum"].items| > 0 {
      EnumAccepts(m["enum"].items, Given(v));
    } else if HasArray(m, "anyOf") {
      AlternativeValid(m["anyOf"].items, v, c);
    } else if HasArray(m, "oneOf") {
      AlternativeValid(m["oneOf"].items, v, c);
    } else if HasArray(m, "type") && |m["type"].items| > 1 {
      var types := StringsOf(m["type"].items);
      var t :| t in types && HasType(v, t);
      var i :| 0 <= i < |types| && types[i] == t;
      TypedIsAccepted(schema, t, v, c);
      ConvertTypesAre(schema, types);
      UnionAccepts(ConvertTypes(schema, types), Given(v));
      assert Accepts(ConvertTypes(schema, types)[i], Given(v));
    } else if SchemaType(m).Some? {
      if m["type"].Arr? {
        assert m["type"].items == [m["type"].items[0]];
      }
      TypedIsAccepted(schema, SchemaType(m).value, v, c);
    }
  }

  lemma {:induction false} AlternativeValid(schemas: seq<Json>, v: Json, c: Context)
    requires AllCompilable(schemas) && exists i :: 0 <= i < |schemas| && Valid(schemas[i], v, c)
    ensures Accepts(UnionOf(ConvertAll(schemas)), Given(v))
    decreases schemas, 0
  {
    var i :| 0 <= i < |schemas| && Valid(schemas[i], v, c);
    ValidIsAccepted(schemas[i], v, c);
    AlternativesAccept(schemas, Given(v));
  }

  lemma {:induction false} TypedIsAccepted(schema: Json, t: string, v: Json, c: Context)
    requires schema.Obj? && TypeCompilable(schema, t) && HasType(v, t)
    requires v.Obj? ==> ValidObject(schema, v.members, c)
    requires v.Arr? ==> ValidArray(schema, v.items, c)
    ensures Accepts(ConvertType(schema, t), Given(v))
    decreases schema, 1
  {
    hide Valid, Convert, Compilable;
    if t == "object" {
      ObjectIsAccepted(schema, v.members, c);
    } else if t == "array" {
      ArrayIsAccepted(schema, v.items, c);
    }
  }

  lemma {:induction false} ArrayIsAccepted(schema: Json, items: seq<Json>, c: Context)
    requires schema.Obj? && TypeCompilable(schema, "array") && ValidArray(schema, items, c)
    ensures Accepts(ConvertType(schema, "array"), Given(Arr(items)))
    decreases schema, 0
  {
    hide Valid, Convert, Compilable;
    var m := schema.members;
    if "items" in m && m["items"].Obj? {
      forall i | 0 <= i < |items| ensures Accepts(Convert(m["items"]), Given(items[i])) {
        ValidIsAccepted(m["items"], items[i], c);
      }
    }
  }

  /** An object validator asks each property for itself, and a strict one for nothing else. */
  lemma ObjectAccepts(schema: Json, members: map<string, Json>)
    requires schema.Obj?
    ensures var m := schema.members;
      Accepts(ConvertType(schema, "object"), Given(Obj(members))) <==>
        (forall key :: key in Properties(m) ==>
           Accepts(ConvertProperty(Properties(m)[key], key in RequiredNames(m)), Lookup(members, key)))
        && (IsStrict(m) ==> members.Keys <= Properties(m).Keys)
  {
    hide Convert, ConvertProperty, IsStrict, RequiredNames, Lookup, Properties;
    var m := schema.members;
    var z := ConvertType(schema, "object");
    assert z.shape.Keys == Properties(m).Keys;
    assert forall key :: key in z.shape ==> z.shape[key] == ConvertProperty(Properties(m)[key], key in RequiredNames(m));
  }

  /**
   A present member is asked of the property's validator. A missing one passes when the
   property is optional and the name not inherited, or when its schema allows a missing member.
   */
  lemma PropertyAccepts(property: Json, required: bool, members: map<string, Json>, key: string)
    requires property.Obj?
    ensures key in members ==>
      (Accepts(ConvertProperty(property, required), Lookup(members, key)) <==> Accepts(Convert(property), Given(members[key])))
    ensures key !in members ==>
      (Accepts(ConvertProperty(property, required), Lookup(members, key)) <==>
         (!required && key !in INHERITED) || AllowsMissing(property))
  {
    hide Convert, AllowsMissing;
    MissingIsExact(property, Missing);
    MissingIsExact(property, Inherited);
  }

  lemma {:induction false} ObjectIsAccepted(schema: Json, members: map<string, Json>, c: Context)
    requires schema.Obj? && TypeCompilable(schema, "object") && ValidObject(schema, members, c)
    ensures Accepts(ConvertType(schema, "object"), Given(Obj(members)))
    decreases schema, 0
  {
    hide Convert, ConvertProperty, ConvertType, Accepts, Compilable, Valid, RequiredNames;
    var m := schema.members;
    var properties, required := Properties(m), RequiredNames(m);
    ObjectAccepts(schema, members);
    forall key | key in properties
      ensures Accepts(ConvertProperty(properties[key], key in required), Lookup(members, key))
    {
      if properties[key].Obj? {
        PropertyAccepts(properties[key], key in required, members, key);
        if key in members {
          ValidIsAccepted(properties[key], members[key], c);
        }
      } else {
        AnythingGoes(properties[key], key in required, Lookup(members, key));
      }
    }
    if IsStrict(m) {
      AdditionalIsExact(m, members, c);
    }
  }

  lemma AnythingGoes(property: Json, required: bool, input: Input)
    requires !property.Obj?
    ensures Accepts(ConvertProperty(property, required), input)
  {
  }

  // ---------------------------------------------------------------------------
  // Schemas whose validator is exact
  // ---------------------------------------------------------------------------

  const KEYWORDS := {"const", "enum", "anyOf", "oneOf", "type", "properties", "required", "additionalProperties", "patternProperties", "items", "prefixItems"}
  const TYPES := {"object", "array", "string", "number", "integer", "boolean", "null"}

  /**
   Only what the compiler handles occurs. A constant or an enumeration may stand beside anything
   but alternatives, as long as its members have the listed type.
   */
  predicate Exact(schema: Json)
    requires schema.Obj?
    decreases schema, 1
  {
    var m := schema.members;
    var used := m.Keys * KEYWORDS;
    if ListedMembers(m) != [] then
      && "anyOf" !in m && "oneOf" !in m && (forall v :: v in ListedMembers(m) ==> MemberFits(m, v))
      && ("const" in m && HasArray(m, "enum") ==> m["const"] in m["enum"].items)
    else if "anyOf" in m then
      used == {"anyOf"} && HasArray(m, "anyOf") && |m["anyOf"].items| > 0
      && forall i :: 0 <= i < |m["anyOf"].items| ==> m["anyOf"].items[i].Obj? && Exact(m["anyOf"].items[i])
    else if "type" in m then
      && used <= {"type", "properties", "required", "additionalProperties", "items"}
      && TypesNamed(m["type"]) && ObjectExact(schema) && ArrayExact(schema)
    else used == {}
  }

  /** The members a schema lists, in a constant or an enumeration. */
  function ListedMembers(m: map<string, Json>): seq<Json> {
    if "const" in m then [m["const"]] else if HasArray(m, "enum") then m["enum"].items else []
  }

  /** A listed member is a scalar of the type the schema gives. */
  predicate MemberFits(m: map<string, Json>, member: Json) {
    IsScalar(member) && ("type" in m ==> TypeHolds(m["type"], member))
  }

  /** Nothing in the schema asks for a value: its validator lets a missing member pass, required or not. */
  predicate AllowsMissing(schema: Json)
    requires schema.Obj?
    decreases schema, 1
  {
    var m := schema.members;
    if "const" in m || (HasArray(m, "enum") && |m["enum"].items| > 0) then false
    else if HasArray(m, "anyOf") then SomeAllowsMissing(m["anyOf"].items)
    else if HasArray(m, "oneOf") then SomeAllowsMissing(m["oneOf"].items)
    else if HasArray(m, "type") && |m["type"].items| > 1 then
      StringsOf(m["type"].items) == [] || exists t :: t in StringsOf(m["type"].items) && t !in TYPES
    else SchemaType(m).None? || SchemaType(m).value !in TYPES
  }

  predicate SomeAllowsMissing(schemas: seq<Json>)
    decreases schemas, 0
  {
    || (forall i :: 0 <= i < |schemas| ==> !schemas[i].Obj?)
    || exists i :: 0 <= i < |schemas| && schemas[i].Obj? && AllowsMissing(schemas[i])
  }

  /** What lets a missing member pass, read off the schema. */
  lemma {:induction false} MissingIsExact(schema: Json, input: Input)
    requires schema.Obj? && !input.Given?
    ensures Accepts(Convert(schema), input) <==> AllowsMissing(schema)
    decreases schema, 1
  {
    hide ConvertType, SomeAllowsMissing, UnionOf, EnumSchema, Accepts;
    var m := schema.members;
    if "const" in m {
      EnumAccepts([m["const"]], input);
    } else if HasArray(m, "enum") && |m["enum"].items| > 0 {
      EnumAccepts(m["enum"].items, input);
    } else if HasArray(m, "anyOf") {
      SomeMissingIsExact(m["anyOf"].items, input);
    } else if HasArray(m, "oneOf") {
      SomeMissingIsExact(m["oneOf"].items, input);
    } else if HasArray(m, "type") && |m["type"].items| > 1 {
      TypesMissing(schema, StringsOf(m["type"].items), input);
    } else if SchemaType(m).Some? {
      TypeMissing(schema, SchemaType(m).value, input);
    } else {
      AcceptsAll(input);
    }
  }

  lemma {:induction false} SomeMissingIsExact(schemas: seq<Json>, input: Input)
    requires !input.Given?
    ensures Accepts(UnionOf(ConvertAll(schemas)), input) <==> SomeAllowsMissing(schemas)
    decreases schemas, 0
  {
    hide Convert, ConvertAll, UnionOf, Accepts, AllowsMissing;
    AlternativesAccept(schemas, input);
    forall i | 0 <= i < |schemas| && schemas[i].Obj? ensures Accepts(Convert(schemas[i]), input) <==> AllowsMissing(schemas[i]) {
      MissingIsExact(schemas[i], input);
    }
  }

  lemma TypeMissing(schema: Json, t: string, input: Input)
    requires schema.Obj? && !input.Given?
    ensures Accepts(ConvertType(schema, t), input) <==> t !in TYPES
  {
    hide Convert, ConvertProperty, Properties, RequiredNames, IsStrict;
  }

  lemma TypesMissing(schema: Json, types: seq<string>, input: Input)
    requires schema.Obj? && !input.Given?
    ensures Accepts(UnionOf(ConvertTypes(schema, types)), input) <==> types == [] || exists t :: t in types && t !in TYPES
  {
    hide ConvertType, ConvertTypes, UnionOf, Accepts;
    if types == [] {
      NoAlternative(input);
    } else {
      ConvertTypesAre(schema, types);
      UnionAccepts(ConvertTypes(schema, types), input);
      forall i | 0 <= i < |types| ensures Accepts(ConvertTypes(schema, types)[i], input) <==> types[i] !in TYPES {
        TypeMissing(schema, types[i], input);
      }
    }
  }

  predicate TypesNamed(t: Json) {
    match t
    case Str(name) => name in TYPES
    case Arr(names) => names != [] && forall i :: 0 <= i < |names| ==> names[i].Str? && names[i].s in TYPES
    case _ => false
  }

  /** Every property is a schema, and every required name is a property that must not be missing. */
  predicate ObjectExact(schema: Json)
    requires schema.Obj?
    decreases schema, 0
  {
    var m := schema.members;
    && (forall key :: key in Properties(m) ==>
          if Properties(m)[key].Obj? then Exact(Properties(m)[key]) else Properties(m)[key] != Bool(false))
    && (forall name :: name in RequiredNames(m) ==>
          name in Properties(m) && Properties(m)[name].Obj? && !AllowsMissing(Properties(m)[name]))
    && NamesCompilable(m)
    && ("additionalProperties" in m ==> m["additionalProperties"].Bool?)
  }

  predicate ArrayExact(schema: Json)
    requires schema.Obj?
    decreases schema, 0
  {
    var m := schema.members;
    "items" in m ==> if m["items"].Obj? then Exact(m["items"]) else m["items"] != Bool(false)
  }

  /** Nothing but the keywords above constrains an instance. */
  ghost predicate Plain(c: Context) {
    forall s, v :: c.others(s, v)
  }

  ghost predicate ShapeHolds(schema: Json, v: Json, c: Context)
    requires schema.Obj?
  {
    (v.Obj? ==> ValidObject(schema, v.members, c)) && (v.Arr? ==> ValidArray(schema, v.items, c))
  }

  lemma {:induction false} StringsOfStrings(names: seq<Json>)
    requires forall i :: 0 <= i < |names| ==> names[i].Str?
    ensures |StringsOf(names)| == |names|
    ensures forall i :: 0 <= i < |names| ==> StringsOf(names)[i] == names[i].s
  {
    if names != [] {
      StringsOfStrings(names[1..]);
    }
  }

  /** Main result: on exact schemas the validator accepts exactly the valid instances. */
  lemma {:induction false} AcceptedIsValid(schema: Json, v: Json, c: Context)
    requires schema.Obj? && Exact(schema) && Plain(c)
    ensures Accepts(Convert(schema), Given(v)) <==> Valid(schema, v, c)
    decreases schema, 3
  {
    hide Convert, Valid, TypeHolds, ShapeHolds, ConvertType, ObjectExact, ArrayExact, TypesNamed, Accepts, EnumSchema, UnionOf;
    var m := schema.members;
    assert forall k :: k in m && k in KEYWORDS ==> k in m.Keys * KEYWORDS;
    ExactMeaning(schema, v, c);
    ExactConversion(schema);
    if ListedMembers(m) != [] {
      EnumAccepts(ListedMembers(m), Given(v));
    } else if "anyOf" in m {
      AlternativesExact(m["anyOf"].items, v, c);
    } else if "type" in m {
      TypesAreExact(schema, v, c);
    } else {
      AcceptsAll(Given(v));
    }
  }

  /** What is left of validity when only one keyword of the four decides. */
  lemma ExactMeaning(schema: Json, v: Json, c: Context)
    requires schema.Obj? && Exact(schema) && Plain(c)
    ensures var m := schema.members;
      Valid(schema, v, c) <==>
        if ListedMembers(m) != [] then v in ListedMembers(m)
        else if "anyOf" in m then exists i :: 0 <= i < |m["anyOf"].items| && Valid(m["anyOf"].items[i], v, c)
        else "type" in m ==> TypeHolds(m["type"], v) && ShapeHolds(schema, v, c)
  {
    hide ValidObject, ValidArray, TypeHolds, ObjectExact, ArrayExact, TypesNamed;
    var m := schema.members;
    assert forall k :: k in m && k in KEYWORDS ==> k in m.Keys * KEYWORDS;
    if ListedMembers(m) == [] && "type" !in m {
      Unconstrained(schema, v, c);
    }
  }

  lemma ExactConversion(schema: Json)
    requires schema.Obj? && Exact(schema)
    ensures var m := schema.members;
      && (ListedMembers(m) != [] ==> Convert(schema) == EnumSchema(ListedMembers(m)))
      && (ListedMembers(m) == [] && "anyOf" in m ==> Convert(schema) == UnionOf(ConvertAll(m["anyOf"].items)))
      && (ListedMembers(m) == [] && "anyOf" !in m && "type" !in m ==> Convert(schema) == ZUnknown)
  {
    hide ObjectExact, ArrayExact, EnumSchema, UnionOf, ConvertType;
    var m := schema.members;
    assert forall k :: k in m && k in KEYWORDS ==> k in m.Keys * KEYWORDS;
  }

  lemma AcceptsAll(input: Input)
    ensures Accepts(ZUnknown, input)
  {
  }

  lemma Unconstrained(schema: Json, v: Json, c: Context)
    requires schema.Obj? && Exact(schema) && ListedMembers(schema.members) == [] && "type" !in schema.members
    ensures ShapeHolds(schema, v, c)
  {
    var m := schema.members;
    assert forall k :: k in m && k in KEYWORDS ==> k in m.Keys * KEYWORDS;
    assert Properties(m) == map[] && RequiredNames(m) == {};
  }

  lemma {:induction false} AlternativesExact(schemas: seq<Json>, v: Json, c: Context)
    requires schemas != [] && Plain(c) && forall i :: 0 <= i < |schemas| ==> schemas[i].Obj? && Exact(schemas[i])
    ensures Accepts(UnionOf(ConvertAll(schemas)), Given(v)) <==> exists i :: 0 <= i < |schemas| && Valid(schemas[i], v, c)
    decreases schemas, 0
  {
    hide Exact, Valid, Convert, Accepts;
    AlternativesAccept(schemas, Given(v));
    forall i | 0 <= i < |schemas| ensures Accepts(Convert(schemas[i]), Given(v)) <==> Valid(schemas[i], v, c) {
      AcceptedIsValid(schemas[i], v, c);
    }
  }

  /** What a schema with `type` compiles to, for one name and for several. */
  lemma TypedConversion(schema: Json)
    requires schema.Obj? && Exact(schema) && ListedMembers(schema.members) == [] && "type" in schema.members
    ensures var m := schema.members;
      && TypesNamed(m["type"]) && ObjectExact(schema) && ArrayExact(schema) && "patternProperties" !in m && "prefixItems" !in m
      && (m["type"].Str? ==> Convert(schema) == ConvertType(schema, m["type"].s))
      && (m["type"].Arr? && |m["type"].items| == 1 ==> Convert(schema) == ConvertType(schema, m["type"].items[0].s))
      && (m["type"].Arr? && |m["type"].items| > 1 ==>
            Convert(schema) == UnionOf(ConvertTypes(schema, StringsOf(m["type"].items))))
  {
    hide ObjectExact, ArrayExact, EnumSchema, UnionOf, ConvertType, ConvertTypes, StringsOf;
    var m := schema.members;
    assert forall k :: k in m && k in KEYWORDS ==> k in m.Keys * KEYWORDS;
  }

  lemma {:induction false} TypesAreExact(schema: Json, v: Json, c: Context)
    requires schema.Obj? && Exact(schema) && Plain(c) && ListedMembers(schema.members) == [] && "type" in schema.members
    ensures Accepts(Convert(schema), Given(v))
       <==> TypeHolds(schema.members["type"], v) && ShapeHolds(schema, v, c)
    decreases schema, 2
  {
    hide Convert, ConvertType, ConvertTypes, Exact, ShapeHolds, HasType, ObjectExact, ArrayExact, Accepts, UnionOf, StringsOf;
    var m := schema.members;
    TypedConversion(schema);
    if m["type"].Str? {
      TypeIsExact(schema, m["type"].s, v, c);
    } else {
      var names := m["type"].items;
      var types := StringsOf(names);
      StringsOfStrings(names);
      forall i | 0 <= i < |types|
        ensures Accepts(ConvertType(schema, types[i]), Given(v))
           <==> HasType(v, types[i]) && ShapeHolds(schema, v, c)
      {
        assert types[i] == names[i].s;
        TypeIsExact(schema, types[i], v, c);
      }
      ConvertTypesAre(schema, types);
      UnionAccepts(ConvertTypes(schema, types), Given(v));
    }
  }

  lemma {:induction false} TypeIsExact(schema: Json, t: string, v: Json, c: Context)
    requires schema.Obj? && t in TYPES && ObjectExact(schema) && ArrayExact(schema) && Plain(c)
    requires "patternProperties" !in schema.members && "prefixItems" !in schema.members
    ensures Accepts(ConvertType(schema, t), Given(v))
       <==> HasType(v, t) && ShapeHolds(schema, v, c)
    decreases schema, 1
  {
    hide Valid, Convert, Exact;
    if t == "object" && v.Obj? {
      ObjectIsExact(schema, v.members, c);
    } else if t == "array" && v.Arr? {
      ArrayIsExact(schema, v.items, c);
    }
  }

  lemma {:induction false} ArrayIsExact(schema: Json, items: seq<Json>, c: Context)
    requires schema.Obj? && ArrayExact(schema) && Plain(c) && "prefixItems" !in schema.members
    ensures Accepts(ConvertType(schema, "array"), Given(Arr(items))) <==> ValidArray(schema, items, c)
    decreases schema, 0
  {
    hide Valid, Convert, Exact;
    var m := schema.members;
    var element := if "items" in m && m["items"].Obj? then Convert(m["items"]) else ZUnknown;
    forall i | 0 <= i < |items| ensures Accepts(element, Given(items[i])) <==> ("items" in m ==> Valid(m["items"], items[i], c)) {
      if "items" in m && m["items"].Obj? {
        AcceptedIsValid(m["items"], items[i], c);
      } else if "items" in m {
        NotASchema(m["items"], c);
      }
    }
  }

  /** Anything that is neither an object nor `false` constrains nothing. */
  lemma NotASchema(schema: Json, c: Context)
    requires !schema.Obj? && schema != Bool(false)
    ensures forall v :: Valid(schema, v, c)
  {
  }

  lemma {:induction false} ObjectIsExact(schema: Json, members: map<string, Json>, c: Context)
    requires schema.Obj? && ObjectExact(schema) && Plain(c) && "patternProperties" !in schema.members
    ensures Accepts(ConvertType(schema, "object"), Given(Obj(members))) <==> ValidObject(schema, members, c)
    decreases schema, 0
  {
    hide Convert, ConvertProperty, ConvertType, Accepts, Exact, Valid, RequiredNames;
    var m := schema.members;
    var properties, required := Properties(m), RequiredNames(m);
    ObjectAccepts(schema, members);
    forall key | key in properties
      ensures Accepts(ConvertProperty(properties[key], key in required), Lookup(members, key))
         <==> (key in members ==> Valid(properties[key], members[key], c)) && (key in required ==> key in members)
    {
      if properties[key].Obj? {
        PropertyAccepts(properties[key], key in required, members, key);
        if key in members {
          AcceptedIsValid(properties[key], members[key], c);
        }
      } else {
        AnythingGoes(properties[key], key in required, Lookup(members, key));
        NotASchema(properties[key], c);
      }
    }
    AdditionalIsExact(m, members, c);
  }

  lemma AdditionalIsExact(m: map<string, Json>, members: map<string, Json>, c: Context)
    requires "patternProperties" !in m && ("additionalProperties" in m ==> m["additionalProperties"].Bool?)
    ensures (IsStrict(m) ==> members.Keys <= Properties(m).Keys)
       <==> ("additionalProperties" in m ==>
               forall key :: key in members && key !in Properties(m) && !MatchesPattern(m, key, c) ==>
                 Valid(m["additionalProperties"], members[key], c))
  {
  }

  // ---------------------------------------------------------------------------
  // Where the conditions matter
  // ---------------------------------------------------------------------------

  /** Reading a schema with one listed type in place of the list is what `convert` does with it. */
  lemma OneListedType(schema: Json, t: string)
    requires schema.Obj?
    requires var m := schema.members;
      "const" !in m && !(HasArray(m, "enum") && |m["enum"].items| > 0) && !HasArray(m, "anyOf") && !HasArray(m, "oneOf")
    ensures Convert(Obj(schema.members["type" := Str(t)])) == ConvertType(schema, t)
  {
    var m, n := schema.members, schema.members["type" := Str(t)];
    assert Properties(n) == Properties(m) && RequiredNames(n) == RequiredNames(m);
  }

  /** A required name without a property schema of its own is never enforced. */
  lemma UnlistedRequiredIsIgnored(schema: Json, name: string, members: map<string, Json>)
    requires schema.Obj? && name in RequiredNames(schema.members)
    requires name !in Properties(schema.members) || !Properties(schema.members)[name].Obj?
    requires Accepts(ConvertType(schema, "object"), Given(Obj(members)))
    ensures Accepts(ConvertType(schema, "object"), Given(Obj(members - {name})))
    ensures forall c :: !ValidObject(schema, members - {name}, c)
  {
    hide Convert, ConvertType, Accepts;
    var m := schema.members;
    ObjectAccepts(schema, members);
    ObjectAccepts(schema, members - {name});
    if name in Properties(m) {
      AnythingGoes(Properties(m)[name], name in RequiredNames(m), Lookup(members - {name}, name));
    }
    forall key | key in Properties(m)
      ensures Accepts(ConvertProperty(Properties(m)[key], key in RequiredNames(m)), Lookup(members - {name}, key))
    {
      assert key != name ==> Lookup(members - {name}, key) == Lookup(members, key);
    }
  }

  /**
   A property under an inherited name whose schema asks for a value refuses every object without
   the member, required or not. Validity refuses it only when it is required.
   */
  lemma InheritedNameIsRefused(schema: Json, key: string, members: map<string, Json>)
    requires schema.Obj? && key in INHERITED && key in Properties(schema.members) && Properties(schema.members)[key].Obj?
    requires key !in members && !AllowsMissing(Properties(schema.members)[key])
    ensures !Accepts(ConvertType(schema, "object"), Given(Obj(members)))
  {
    hide Convert, ConvertType, Accepts, AllowsMissing, ConvertProperty;
    ObjectAccepts(schema, members);
    PropertyAccepts(Properties(schema.members)[key], key in RequiredNames(schema.members), members, key);
  }

  /** So a schema with one optional string under such a name refuses the empty object, which is valid. */
  lemma InheritedNameHidesValid(key: string, c: Context)
    requires key in INHERITED && Plain(c)
    ensures var schema := Obj(map["type" := Str("object"), "properties" := Obj(map[key := Obj(map["type" := Str("string")])])]);
      Valid(schema, Obj(map[]), c) && !Accepts(ConvertType(schema, "object"), Given(Obj(map[])))
  {
    hide Convert, ConvertType, Accepts;
    var schema := Obj(map["type" := Str("object"), "properties" := Obj(map[key := Obj(map["type" := Str("string")])])]);
    assert Properties(schema.members)[key].members["type"] == Str("string");
    InheritedNameIsRefused(schema, key, map[]);
  }

  /** A constant is accepted exactly when it is a scalar, although it is valid for itself. */
  lemma ConstIsAcceptedIfScalar(schema: Json)
    requires schema.Obj? && "const" in schema.members
    ensures Accepts(Convert(schema), Given(schema.members["const"])) <==> IsScalar(schema.members["const"])
  {
    EnumAccepts([schema.members["const"]], Given(schema.members["const"]));
  }

  const ANY := Obj(map[])

  lemma AnyIsValid(v: Json, c: Context)
    requires Plain(c)
    ensures Valid(ANY, v, c)
  {
  }

  /** The alternatives that allow a value, and the ones the compiler looks at. */
  ghost predicate Allowed(schemas: seq<Json>, v: Json, c: Context) {
    exists i :: 0 <= i < |schemas| && Valid(schemas[i], v, c)
  }

  /** Every alternative that is an object has an exact validator at this value. */
  ghost predicate ExactAt(schemas: seq<Json>, v: Json, c: Context) {
    forall i :: 0 <= i < |schemas| && schemas[i].Obj? ==> (Accepts(Convert(schemas[i]), Given(v)) <==> Valid(schemas[i], v, c))
  }

  predicate HasObject(schemas: seq<Json>) {
    exists i :: 0 <= i < |schemas| && schemas[i].Obj?
  }

  /** An alternative that is neither an object nor `false`: it allows every value. */
  predicate HasPermissive(schemas: seq<Json>) {
    exists i :: 0 <= i < |schemas| && !schemas[i].Obj? && schemas[i] != Bool(false)
  }

  lemma AllowedBy(schemas: seq<Json>, v: Json, c: Context)
    ensures Allowed(schemas, v, c)
       <==> HasPermissive(schemas) || exists i :: 0 <= i < |schemas| && schemas[i].Obj? && Valid(schemas[i], v, c)
  {
    forall i | 0 <= i < |schemas| && !schemas[i].Obj? ensures Valid(schemas[i], v, c) <==> schemas[i] != Bool(false) {
    }
    hide Valid;
  }

  /**
   With exact objects as alternatives, `anyOf` agrees with validity at a value if and only if:
   there are objects, and nothing beside them is permissive or one of them allows the value
   itself; or there are none, and something is permissive.
   */
  lemma AnyOfIsExactUnless(schemas: seq<Json>, v: Json, c: Context)
    requires ExactAt(schemas, v, c)
    ensures (Accepts(UnionOf(ConvertAll(schemas)), Given(v)) <==> Allowed(schemas, v, c))
       <==> if HasObject(schemas)
            then HasPermissive(schemas) ==> exists i :: 0 <= i < |schemas| && schemas[i].Obj? && Valid(schemas[i], v, c)
            else HasPermissive(schemas)
  {
    hide Convert, Accepts, Valid, UnionOf, ConvertAll, Allowed, HasPermissive;
    AlternativesAccept(schemas, Given(v));
    AllowedBy(schemas, v, c);
  }

  /** Section 10.2.1.3 of JSON Schema Core. */
  ghost predicate OneAllowed(schemas: seq<Json>, v: Json, c: Context) {
    exists i :: (
      && 0 <= i < |schemas| && Valid(schemas[i], v, c)
      && forall j :: 0 <= j < |schemas| && j != i ==> !Valid(schemas[j], v, c))
  }

  ghost predicate TwoAllowed(schemas: seq<Json>, v: Json, c: Context) {
    exists i, k :: 0 <= i < k < |schemas| && Valid(schemas[i], v, c) && Valid(schemas[k], v, c)
  }

  lemma OneOrTwoAllowed(schemas: seq<Json>, v: Json, c: Context)
    ensures OneAllowed(schemas, v, c) <==> Allowed(schemas, v, c) && !TwoAllowed(schemas, v, c)
    ensures TwoAllowed(schemas, v, c) ==> Allowed(schemas, v, c)
  {
    hide Valid;
    if Allowed(schemas, v, c) && !TwoAllowed(schemas, v, c) {
      var i :| 0 <= i < |schemas| && Valid(schemas[i], v, c);
      assert forall j :: 0 <= j < |schemas| && j != i ==> !Valid(schemas[j], v, c);
    }
  }

  /** With exact objects as alternatives, `oneOf` goes wrong at a value exactly when two of them allow it. */
  lemma OneOfIsExactUnless(schemas: seq<Json>, v: Json, c: Context)
    requires schemas != [] && ExactAt(schemas, v, c) && forall i :: 0 <= i < |schemas| ==> schemas[i].Obj?
    ensures (Accepts(UnionOf(ConvertAll(schemas)), Given(v)) <==> OneAllowed(schemas, v, c)) <==> !TwoAllowed(schemas, v, c)
  {
    hide Convert, Accepts, Valid, UnionOf, ConvertAll, OneAllowed, TwoAllowed;
    AlternativesAccept(schemas, Given(v));
    OneOrTwoAllowed(schemas, v, c);
    assert schemas[0].Obj?;
  }

  /** The alternative `true` is dropped: whatever an object beside it refuses is valid and refused. */
  lemma TrueAlternativeIsLost(schema: Json, v: Json, c: Context)
    requires schema.Obj? && !Accepts(Convert(schema), Given(v))
    ensures Allowed([Bool(true), schema], v, c) && !Accepts(UnionOf(ConvertAll([Bool(true), schema])), Given(v))
  {
    hide Convert, Accepts, UnionOf, ConvertAll;
    var schemas := [Bool(true), schema];
    AlternativesAccept(schemas, Given(v));
    assert schemas[1].Obj? && Valid(schemas[0], v, c);
  }

  /** A strict object whose members match a pattern. */
  function PatternOnly(pattern: string): Json {
    Obj(map["type" := Str("object"), "additionalProperties" := Bool(false), "patternProperties" := Obj(map[pattern := ANY])])
  }

  /** A strict object refuses every member without a property schema, whatever its patterns say. */
  lemma UnlistedMemberIsRefused(schema: Json, members: map<string, Json>, key: string)
    requires schema.Obj? && IsStrict(schema.members) && key in members && key !in Properties(schema.members)
    ensures !Accepts(ConvertType(schema, "object"), Given(Obj(members)))
  {
    hide ConvertType, Accepts, ConvertProperty;
    ObjectAccepts(schema, members);
    assert key in members.Keys;
  }

  /** So it refuses the members its patterns describe, valid as they are. */
  lemma PatternMemberIsRefused(pattern: string, key: string, v: Json, c: Context)
    requires Plain(c) && c.matches(pattern, key)
    ensures Valid(PatternOnly(pattern), Obj(map[key := v]), c)
    ensures !Accepts(Convert(PatternOnly(pattern)), Given(Obj(map[key := v])))
  {
    hide Convert, Valid, Accepts;
    PatternMemberIsValid(pattern, key, v, c);
    OneListedType(PatternOnly(pattern), "object");
    assert PatternOnly(pattern).members["type" := Str("object")] == PatternOnly(pattern).members;
    UnlistedMemberIsRefused(PatternOnly(pattern), map[key := v], key);
  }

  lemma PatternMemberIsValid(pattern: string, key: string, v: Json, c: Context)
    requires Plain(c) && c.matches(pattern, key)
    ensures Valid(PatternOnly(pattern), Obj(map[key := v]), c)
  {
    AnyIsValid(v, c);
    assert MatchesPattern(PatternOnly(pattern).members, key, c) by {
      assert pattern in PatternOnly(pattern).members["patternProperties"].members;
    }
  }

  /** An array is accepted when each item is accepted as `items` says, those that `prefixItems` describes included. */
  lemma ArrayAccepts(schema: Json, items: seq<Json>)
    requires schema.Obj?
    ensures var m := schema.members;
      Accepts(ConvertType(schema, "array"), Given(Arr(items))) <==>
        ("items" in m && m["items"].Obj? ==> forall i :: 0 <= i < |items| ==> Accepts(Convert(m["items"]), Given(items[i])))
  {
    hide Convert;
  }

  /**
   Where `items` and the described items have exact validators, `prefixItems` goes wrong at an
   array that is valid exactly when `items` does not allow some item that is described.
   */
  lemma PrefixItemIsRefused(schema: Json, items: seq<Json>, c: Context)
    requires schema.Obj? && "items" in schema.members && schema.members["items"].Obj? && HasArray(schema.members, "prefixItems")
    requires ValidArray(schema, items, c)
    requires forall v :: v in items ==> (Accepts(Convert(schema.members["items"]), Given(v)) <==> Valid(schema.members["items"], v, c))
    ensures !Accepts(ConvertType(schema, "array"), Given(Arr(items))) <==>
      exists i :: 0 <= i < |items| && i < |schema.members["prefixItems"].items| && !Valid(schema.members["items"], items[i], c)
  {
    hide Convert, Valid, Accepts, ConvertType;
    ArrayAccepts(schema, items);
    forall i | 0 <= i < |items| ensures items[i] in items {
    }
  }
}
