/**
 What a compiled validator accepts, read off the schema and the value alone. The reading names
 no validator and none of the compiler's own helpers; it covers every schema and every input,
 those the compiler misjudges included.
 */
module SchemaReading {
  import opened SchemaCompiler
  import opened SchemaCompilerProofs

  /** A constant decides before an enumeration, that before alternatives, and those before types. */
  ghost predicate Passes(schema: Json, input: Input)
    requires schema.Obj?
    decreases schema, 3
  {
    var m := schema.members;
    if "const" in m then
      input == Given(m["const"]) && !m["const"].Arr? && !m["const"].Obj?
    else if "enum" in m && m["enum"].Arr? && m["enum"].items != [] then
      input.Given? && input.value in m["enum"].items && !input.value.Arr? && !input.value.Obj?
    else if "anyOf" in m && m["anyOf"].Arr? then SomePasses(m["anyOf"].items, input)
    else if "oneOf" in m && m["oneOf"].Arr? then SomePasses(m["oneOf"].items, input)
    else if "type" in m && m["type"].Str? then TypePasses(schema, m["type"].s, input)
    else if "type" in m && m["type"].Arr? then
      || (forall i :: 0 <= i < |m["type"].items| ==> !m["type"].items[i].Str?)
      || exists i :: 0 <= i < |m["type"].items| && m["type"].items[i].Str? && TypePasses(schema, m["type"].items[i].s, input)
    else true
  }

  /** An alternative that is an object passes, or there is none. */
  ghost predicate SomePasses(schemas: seq<Json>, input: Input)
    decreases schemas, 0
  {
    || (forall i :: 0 <= i < |schemas| ==> !schemas[i].Obj?)
    || exists i :: 0 <= i < |schemas| && schemas[i].Obj? && Passes(schemas[i], input)
  }

  /** One type name; an unknown one says nothing. */
  ghost predicate TypePasses(schema: Json, t: string, input: Input)
    requires schema.Obj?
    decreases schema, 2
  {
    && (t == "object" ==> input.Given? && input.value.Obj? && ObjectPasses(schema, input.value.members))
    && (t == "array" ==> input.Given? && input.value.Arr? && ItemsPass(schema, input.value.items))
    && (t == "string" ==> input.Given? && input.value.Str?)
    && (t == "number" ==> input.Given? && input.value.Num?)
    && (t == "integer" ==> input.Given? && input.value.Num? && exists k: int :: Equals(input.value.n, k))
    && (t == "boolean" ==> input.Given? && input.value.Bool?)
    && (t == "null" ==> input == Given(Null))
  }

  predicate Equals(n: real, k: int) {
    n == k as real
  }

  ghost predicate ItemsPass(schema: Json, items: seq<Json>)
    requires schema.Obj?
    decreases schema, 1
  {
    var m := schema.members;
    "items" in m && m["items"].Obj? ==> forall i :: 0 <= i < |items| ==> Passes(m["items"], Given(items[i]))
  }

  /**
   Each property that is an object is asked: of its member when there is one, and when there is
   none of the inherited function, or of nothing if it is required. Only `additionalProperties:
   false` refuses members that have no property.
   */
  ghost predicate ObjectPasses(schema: Json, members: map<string, Json>)
    requires schema.Obj?
    decreases schema, 1
  {
    var m := schema.members;
    && ("properties" in m && m["properties"].Obj? ==>
          forall key :: key in m["properties"].members && m["properties"].members[key].Obj? ==>
            if key in members then Passes(m["properties"].members[key], Given(members[key]))
            else if key in INHERITED then Passes(m["properties"].members[key], Inherited)
            else Requires(m, key) ==> Passes(m["properties"].members[key], Missing))
    && ("additionalProperties" in m && m["additionalProperties"] == Bool(false) ==>
          forall key :: key in members ==> "properties" in m && m["properties"].Obj? && key in m["properties"].members)
  }

  predicate Requires(m: map<string, Json>, key: string) {
    "required" in m && m["required"].Arr? && Str(key) in m["required"].items
  }

  /** Main result: every schema, every input. */
  lemma {:induction false} ReadingIsExact(schema: Json, input: Input)
    requires schema.Obj?
    ensures Accepts(Convert(schema), input) <==> Passes(schema, input)
    decreases schema, 4
  {
    hide ConvertType, Accepts, UnionOf, EnumSchema, TypePasses, SomePasses, ConvertAll, ConvertTypes;
    var m := schema.members;
    if "const" in m {
      EnumAccepts([m["const"]], input);
    } else if HasArray(m, "enum") && |m["enum"].items| > 0 {
      EnumAccepts(m["enum"].items, input);
    } else if HasArray(m, "anyOf") {
      SomeIsExact(m["anyOf"].items, input);
    } else if HasArray(m, "oneOf") {
      SomeIsExact(m["oneOf"].items, input);
    } else if "type" in m && m["type"].Str? {
      TypePassesIsExact(schema, m["type"].s, input);
    } else if HasArray(m, "type") {
      ListIsExact(schema, m["type"].items, input);
      AcceptsAll(input);
    } else {
      AcceptsAll(input);
    }
  }

  lemma {:induction false} SomeIsExact(schemas: seq<Json>, input: Input)
    ensures Accepts(UnionOf(ConvertAll(schemas)), input) <==> SomePasses(schemas, input)
    decreases schemas, 0
  {
    hide Convert, ConvertAll, UnionOf, Accepts, Passes;
    AlternativesAccept(schemas, input);
    forall i | 0 <= i < |schemas| && schemas[i].Obj? ensures Accepts(Convert(schemas[i]), input) <==> Passes(schemas[i], input) {
      ReadingIsExact(schemas[i], input);
    }
  }

  lemma {:induction false} ListIsExact(schema: Json, names: seq<Json>, input: Input)
    requires schema.Obj? && "type" in schema.members && schema.members["type"] == Arr(names)
    ensures (if |names| > 1 then Accepts(UnionOf(ConvertTypes(schema, StringsOf(names))), input)
             else SchemaType(schema.members).Some? ==> Accepts(ConvertType(schema, SchemaType(schema.members).value), input))
       <==> || (forall i :: 0 <= i < |names| ==> !names[i].Str?)
            || exists i :: 0 <= i < |names| && names[i].Str? && TypePasses(schema, names[i].s, input)
    decreases schema, 3
  {
    hide ConvertType, ConvertTypes, UnionOf, Accepts, TypePasses, StringsOf;
    var types := StringsOf(names);
    forall t ensures Accepts(ConvertType(schema, t), input) <==> TypePasses(schema, t, input) {
      TypePassesIsExact(schema, t, input);
    }
    assert forall i :: 0 <= i < |names| && names[i].Str? ==> Str(names[i].s) in names;
    if |names| > 1 {
      TypesAccept(schema, types, input);
      forall t | t in types ensures exists i :: 0 <= i < |names| && names[i] == Str(t) {
      }
      if types != [] {
        assert types[0] in types;
      }
    }
  }

  /** Several types are accepted where one of them is, and no type at all everywhere. */
  lemma TypesAccept(schema: Json, types: seq<string>, input: Input)
    requires schema.Obj?
    ensures Accepts(UnionOf(ConvertTypes(schema, types)), input)
       <==> types == [] || exists t :: t in types && Accepts(ConvertType(schema, t), input)
  {
    hide ConvertType, ConvertTypes, UnionOf, Accepts;
    if types == [] {
      NoAlternative(input);
    } else {
      ConvertTypesAre(schema, types);
      UnionAccepts(ConvertTypes(schema, types), input);
      forall t | t in types ensures exists i :: 0 <= i < |types| && ConvertTypes(schema, types)[i] == ConvertType(schema, t) {
        var i :| 0 <= i < |types| && types[i] == t;
        assert ConvertTypes(schema, types)[i] == ConvertType(schema, t);
      }
    }
  }

  lemma {:induction false} TypePassesIsExact(schema: Json, t: string, input: Input)
    requires schema.Obj?
    ensures Accepts(ConvertType(schema, t), input) <==> TypePasses(schema, t, input)
    decreases schema, 2
  {
    hide Convert, ConvertProperty, ObjectPasses, ItemsPass, Properties, RequiredNames, IsStrict;
    if t == "object" && input.Given? && input.value.Obj? {
      ObjectPassesIsExact(schema, input.value.members);
    } else if t == "array" && input.Given? && input.value.Arr? {
      ItemsPassIsExact(schema, input.value.items);
    } else if t == "integer" && input.Given? && input.value.Num? {
      var n := input.value.n;
      assert Equals(n, n.Floor) <==> IsInteger(n);
      assert IsInteger(n) <==> exists k: int :: Equals(n, k);
    }
  }

  lemma {:induction false} ItemsPassIsExact(schema: Json, items: seq<Json>)
    requires schema.Obj?
    ensures Accepts(ConvertType(schema, "array"), Given(Arr(items))) <==> ItemsPass(schema, items)
    decreases schema, 1
  {
    hide Convert, Passes, Accepts, ConvertType;
    var m := schema.members;
    ArrayAccepts(schema, items);
    if "items" in m && m["items"].Obj? {
      forall i | 0 <= i < |items| ensures Accepts(Convert(m["items"]), Given(items[i])) <==> Passes(m["items"], Given(items[i])) {
        ReadingIsExact(m["items"], Given(items[i]));
      }
    }
  }

  lemma {:induction false} ObjectPassesIsExact(schema: Json, members: map<string, Json>)
    requires schema.Obj?
    ensures Accepts(ConvertType(schema, "object"), Given(Obj(members))) <==> ObjectPasses(schema, members)
    decreases schema, 1
  {
    hide Convert, ConvertType, ConvertProperty, Accepts, Passes, RequiredNames;
    var m := schema.members;
    ObjectAccepts(schema, members);
    forall key | key in Properties(m)
      ensures Accepts(ConvertProperty(Properties(m)[key], key in RequiredNames(m)), Lookup(members, key)) <==>
        (Properties(m)[key].Obj? ==>
           if key in members then Passes(Properties(m)[key], Given(members[key]))
           else if key in INHERITED then Passes(Properties(m)[key], Inherited)
           else Requires(m, key) ==> Passes(Properties(m)[key], Missing))
    {
      if Properties(m)[key].Obj? {
        PropertyPassesIsExact(m, Properties(m)[key], key, members);
      } else {
        AnythingGoes(Properties(m)[key], key in RequiredNames(m), Lookup(members, key));
      }
    }
  }

  lemma {:induction false} PropertyPassesIsExact(m: map<string, Json>, property: Json, key: string, members: map<string, Json>)
    requires property.Obj?
    ensures Accepts(ConvertProperty(property, key in RequiredNames(m)), Lookup(members, key)) <==>
      if key in members then Passes(property, Given(members[key]))
      else if key in INHERITED then Passes(property, Inherited)
      else Requires(m, key) ==> Passes(property, Missing)
    decreases property, 5
  {
    hide Convert, Passes;
    ReadingIsExact(property, Lookup(members, key));
  }
}
