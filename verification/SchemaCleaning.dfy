/** Making a JSON schema acceptable to the Gemini schema parser (`cleanAntigravityGeminiSchema`). */
module SchemaCleaning {
  import opened Prelude

  /** A JSON document. Objects have no duplicate keys, and the order of keys does not matter. */
  datatype Json =
    | Null
    | Bool(b: bool)
    | Number(text: string)
    | Str(s: string)
    | Arr(items: seq<Json>)
    | Obj(fields: map<string, Json>)

  const UNSUPPORTED: set<string> := {
    "$defs", "$id", "$ref", "$schema", "additionalProperties", "default", "definitions", "deprecated",
    "enumTitles", "examples", "exclusiveMaximum", "exclusiveMinimum", "format", "maxItems", "maxLength",
    "minItems", "minLength", "nullable", "pattern", "patternProperties", "prefill", "propertyNames",
    "title", "uniqueItems"
  }

  predicate HasString(m: map<string, Json>, key: string, value: string) {
    key in m && m[key] == Str(value)
  }

  predicate IsStringArray(j: Json) {
    j.Arr? && forall x | x in j.items :: x.Str?
  }

  // ---------- Reference ----------

  /** A schema that only enumerates strings. */
  predicate IsStringEnum(v: Json) {
    v.Obj? && HasString(v.fields, "type", "string") && "enum" in v.fields && IsStringArray(v.fields["enum"])
  }

  /** The variants of a union are all string enumerations. */
  predicate IsEnumUnion(j: Json) {
    j.Arr? && j.items != [] && forall v | v in j.items :: IsStringEnum(v)
  }

  /** The strings of `items` that are not in `seen` yet, each once. */
  function AddNew(seen: seq<string>, items: seq<Json>): (r: seq<string>)
    requires forall x | x in items :: x.Str?
  {
    if items == [] then seen
    else
      var front := AddNew(seen, items[..|items| - 1]);
      if items[|items| - 1].s in front then front else front + [items[|items| - 1].s]
  }

  /** The values of a union of string enumerations, without repetition. */
  function UnionValues(variants: seq<Json>): seq<string>
    requires forall v | v in variants :: IsStringEnum(v)
  {
    if variants == [] then []
    else
      var last := variants[|variants| - 1];
      assert last in variants && IsStringEnum(last);
      AddNew(UnionValues(variants[..|variants| - 1]), last.fields["enum"].items)
  }

  function Strings(values: seq<string>): (r: Json)
    ensures r.Arr?
  {
    Arr(seq(|values|, i requires 0 <= i < |values| => Str(values[i])))
  }

  function ConstToEnum(m: map<string, Json>): map<string, Json> {
    if "const" !in m then m
    else (if "enum" in m then m else m["enum" := Arr([m["const"]])]) - {"const"}
  }

  predicate Flattens(m: map<string, Json>) {
    "anyOf" in m && IsEnumUnion(m["anyOf"]) && UnionValues(m["anyOf"].items) != []
  }

  function Flattened(m: map<string, Json>): map<string, Json> {
    if Flattens(m) then m["type" := Str("string")]["enum" := Strings(UnionValues(m["anyOf"].items))] - {"anyOf"} else m
  }

  function Declared(m: map<string, Json>): map<string, Json> {
    if !HasString(m, "type", "object") then m
    else
      var p := if "properties" in m && m["properties"].Obj? then m else m["properties" := Obj(map[])];
      if "required" in p && IsStringArray(p["required"]) then p else p["required" := Arr([])]
  }

  function CleanedObject(m: map<string, Json>): map<string, Json> {
    Declared(Flattened(ConstToEnum(m)) - UNSUPPORTED)
  }

  /** The whole cleaning. `propertiesMap` marks objects whose keys are property names. */
  function Cleaned(j: Json, propertiesMap: bool): Json {
    match j
    case Obj(m) =>
      var children := map k | k in m :: Cleaned(m[k], k == "properties");
      Obj(if propertiesMap then children else CleanedObject(children))
    case Arr(items) => Arr(seq(|items|, i requires 0 <= i < |items| => Cleaned(items[i], false)))
    case _ => j
  }

  // ---------- What cleaning achieves ----------

  /** An object the parser accepts as a schema, and that flattening has nothing to do with any more. */
  ghost predicate AcceptableObject(m: map<string, Json>) {
    && "const" !in m && m.Keys !! UNSUPPORTED && !Flattens(m)
    && (HasString(m, "type", "object") ==>
          "properties" in m && m["properties"].Obj? && "required" in m && IsStringArray(m["required"]))
  }

  /** Every object that is reached as a schema is acceptable. */
  ghost predicate Acceptable(j: Json, propertiesMap: bool) {
    match j
    case Obj(m) => (forall k | k in m :: Acceptable(m[k], k == "properties"))
      && (!propertiesMap ==> AcceptableObject(m))
    case Arr(items) => forall x | x in items :: Acceptable(x, false)
    case _ => true
  }

  ghost predicate AcceptableFields(m: map<string, Json>) {
    forall k | k in m :: Acceptable(m[k], k == "properties")
  }

  lemma ConstLeavesFields(m: map<string, Json>)
    requires AcceptableFields(m)
    ensures AcceptableFields(ConstToEnum(m)) && "const" !in ConstToEnum(m)
    ensures "anyOf" in ConstToEnum(m) <==> "anyOf" in m
    ensures "anyOf" in m ==> ConstToEnum(m)["anyOf"] == m["anyOf"]
  {
  }

  lemma FlatteningLeavesFields(m: map<string, Json>)
    requires AcceptableFields(m)
    ensures AcceptableFields(Flattened(m)) && !Flattens(Flattened(m))
    ensures "const" !in m ==> "const" !in Flattened(m)
  {
  }

  lemma DeclaringLeavesFields(m: map<string, Json>)
    requires AcceptableFields(m) && "const" !in m && m.Keys !! UNSUPPORTED && !Flattens(m)
    ensures AcceptableFields(Declared(m)) && AcceptableObject(Declared(m))
  {
    hide IsEnumUnion, UnionValues, IsStringEnum;
    assert Acceptable(Obj(map[]), true) && Acceptable(Arr([]), false);
  }

  lemma ObjectAcceptable(m: map<string, Json>)
    requires AcceptableFields(m)
    ensures AcceptableFields(CleanedObject(m)) && AcceptableObject(CleanedObject(m))
  {
    hide Acceptable, Flattened, ConstToEnum, Declared, IsEnumUnion, AcceptableObject;
    ConstLeavesFields(m);
    FlatteningLeavesFields(ConstToEnum(m));
    var f := Flattened(ConstToEnum(m));
    assert !Flattens(f - UNSUPPORTED);
    DeclaringLeavesFields(f - UNSUPPORTED);
  }

  /** The result of cleaning is acceptable everywhere. */
  lemma {:induction false} CleanedIsAcceptable(j: Json, propertiesMap: bool)
    ensures Acceptable(Cleaned(j, propertiesMap), propertiesMap)
  {
    match j
    case Obj(m) =>
      var children := map k | k in m :: Cleaned(m[k], k == "properties");
      forall k | k in m
        ensures Acceptable(children[k], k == "properties")
      {
        CleanedIsAcceptable(m[k], k == "properties");
      }
      if !propertiesMap {
        ObjectAcceptable(children);
      }
    case Arr(items) =>
      forall i | 0 <= i < |items|
        ensures Acceptable(Cleaned(items[i], false), false)
      {
        CleanedIsAcceptable(items[i], false);
      }
    case _ =>
  }

  lemma AcceptableObjectStays(m: map<string, Json>)
    requires AcceptableObject(m)
    ensures CleanedObject(m) == m
  {
  }

  /** What is acceptable is left as it is. */
  lemma {:induction false} AcceptableStays(j: Json, propertiesMap: bool)
    requires Acceptable(j, propertiesMap)
    ensures Cleaned(j, propertiesMap) == j
  {
    hide AcceptableObject, CleanedObject;
    match j
    case Obj(m) =>
      var children := map k | k in m :: Cleaned(m[k], k == "properties");
      forall k | k in m
        ensures children[k] == m[k]
      {
        AcceptableStays(m[k], k == "properties");
      }
      assert children == m;
      if !propertiesMap {
        AcceptableObjectStays(m);
      }
    case Arr(items) =>
      forall i | 0 <= i < |items|
        ensures Cleaned(items[i], false) == items[i]
      {
        AcceptableStays(items[i], false);
      }
    case _ =>
  }

  /** A second cleaning changes nothing. */
  lemma CleaningTwice(j: Json, propertiesMap: bool)
    ensures Cleaned(Cleaned(j, propertiesMap), propertiesMap) == Cleaned(j, propertiesMap)
  {
    CleanedIsAcceptable(j, propertiesMap);
    AcceptableStays(Cleaned(j, propertiesMap), propertiesMap);
  }

  /** Property names survive, whatever they are; below them only their schemas are cleaned. */
  lemma PropertyNamesSurvive(m: map<string, Json>)
    ensures Cleaned(Obj(m), true).Obj? && Cleaned(Obj(m), true).fields.Keys == m.Keys
    ensures forall k | k in m :: Cleaned(Obj(m), true).fields[k] == Cleaned(m[k], k == "properties")
  {
  }

  const REWRITTEN: set<string> := {"const", "enum", "type", "anyOf", "properties", "required"}

  /** A schema object loses the listed keywords; of the rest only six keys can change. */
  lemma OtherKeysSurvive(m: map<string, Json>, k: string)
    requires k !in REWRITTEN
    ensures var r := Cleaned(Obj(m), false);
            && r.Obj? && (k in r.fields <==> k in m && k !in UNSUPPORTED)
            && (k in r.fields ==> r.fields[k] == Cleaned(m[k], false))
  {
  }

  /** The strings of all variants, one after the other. */
  function Listed(variants: seq<Json>): seq<Json>
    requires forall v | v in variants :: IsStringEnum(v)
  {
    if variants == [] then []
    else
      var last := variants[|variants| - 1];
      assert last in variants && IsStringEnum(last);
      Listed(variants[..|variants| - 1]) + last.fields["enum"].items
  }

  /** `values` are the elements of `all`, each once, in the order in which they first occur. */
  ghost predicate FirstOccurrences(values: seq<Json>, all: seq<Json>) {
    && (forall i, j | 0 <= i < j < |values| :: values[i] != values[j])
    && (forall v :: v in values <==> v in all)
    && (forall j | 0 <= j < |values| :: FirstAfter(values, j, all))
  }

  /** Before the first occurrence of `values[j]` stand exactly the earlier values. */
  ghost predicate FirstAfter(values: seq<Json>, j: nat, all: seq<Json>)
    requires j < |values|
  {
    exists p :: 0 <= p < |all| && all[p] == values[j] && forall v :: v in all[..p] <==> v in values[..j]
  }

  lemma OneMoreListed(values: seq<Json>, all: seq<Json>, x: Json)
    requires FirstOccurrences(values, all)
    ensures FirstOccurrences(if x in values then values else values + [x], all + [x])
  {
    var next := if x in values then values else values + [x];
    forall j | 0 <= j < |next|
      ensures FirstAfter(next, j, all + [x])
    {
      if j < |values| {
        assert FirstAfter(values, j, all);
        var p :| 0 <= p < |all| && all[p] == values[j] && forall v :: v in all[..p] <==> v in values[..j];
        assert (all + [x])[..p] == all[..p] && next[..j] == values[..j];
      } else {
        assert (all + [x])[..|all|] == all && next[..j] == values;
      }
    }
  }

  lemma StringsNext(values: seq<string>, x: Json)
    requires x.Str?
    ensures x in Strings(values).items <==> x.s in values
    ensures Strings(values + [x.s]).items == Strings(values).items + [x]
  {
    if x.s in values {
      var i :| 0 <= i < |values| && values[i] == x.s;
      assert Strings(values).items[i] == x;
    }
  }

  lemma {:induction false} AddedInOrder(seen: seq<string>, before: seq<Json>, items: seq<Json>)
    requires FirstOccurrences(Strings(seen).items, before) && forall x | x in items :: x.Str?
    ensures FirstOccurrences(Strings(AddNew(seen, items)).items, before + items)
  {
    hide FirstOccurrences, Strings;
    if items == [] {
      assert before + items == before;
    } else {
      var front, last := items[..|items| - 1], items[|items| - 1];
      AddedInOrder(seen, before, front);
      OneMoreListed(Strings(AddNew(seen, front)).items, before + front, last);
      StringsNext(AddNew(seen, front), last);
      assert before + front + [last] == before + items;
    }
  }

  /** Some variant enumerates `x`. */
  ghost predicate Enumerates(variants: seq<Json>, x: Json) {
    exists v :: v in variants && IsStringEnum(v) && x in v.fields["enum"].items
  }

  /** Flattening a union of string enumerations allows exactly the strings of its variants, each once. */
  lemma {:induction false} UnionKept(variants: seq<Json>)
    requires forall v | v in variants :: IsStringEnum(v)
    ensures var values := Strings(UnionValues(variants)).items;
            FirstOccurrences(values, Listed(variants)) && forall x :: x in Listed(variants) <==> Enumerates(variants, x)
  {
    hide FirstOccurrences, Strings;
    if variants == [] {
      NothingListed();
    } else {
      var front, last := variants[..|variants| - 1], variants[|variants| - 1];
      assert variants == front + [last] && last in variants;
      UnionKept(front);
      AddedInOrder(UnionValues(front), Listed(front), last.fields["enum"].items);
      EnumeratesNext(front, last);
    }
  }

  lemma EnumeratesNext(variants: seq<Json>, v: Json)
    requires (forall u | u in variants :: IsStringEnum(u)) && IsStringEnum(v)
    ensures forall x :: Enumerates(variants + [v], x) <==> Enumerates(variants, x) || x in v.fields["enum"].items
  {
    forall x
      ensures Enumerates(variants + [v], x) <==> Enumerates(variants, x) || x in v.fields["enum"].items
    {
      if Enumerates(variants, x) {
        var u :| u in variants && IsStringEnum(u) && x in u.fields["enum"].items;
        assert u in variants + [v];
      }
      assert v in variants + [v];
    }
  }

  lemma NothingListed()
    ensures FirstOccurrences(Strings([]).items, [])
  {
  }

  lemma {:induction false} SomeListed(variants: seq<Json>)
    requires forall v | v in variants :: IsStringEnum(v)
    ensures UnionValues(variants) != [] <==> exists v :: v in variants && v.fields["enum"].items != []
  {
    hide AddNew;
    if variants != [] {
      var front, last := variants[..|variants| - 1], variants[|variants| - 1];
      assert variants == front + [last] && IsStringEnum(last);
      SomeListed(front);
      SomeAdded(UnionValues(front), last.fields["enum"].items);
    }
  }

  lemma {:induction false} SomeAdded(seen: seq<string>, items: seq<Json>)
    requires forall x | x in items :: x.Str?
    ensures AddNew(seen, items) != [] <==> seen != [] || items != []
  {
    if items != [] {
      SomeAdded(seen, items[..|items| - 1]);
    }
  }

  // ---------- The rewritten keys ----------

  /** Every variant enumerates strings and nothing else. */
  ghost predicate EnumeratesStrings(union: Json) {
    union.Arr? && forall v | v in union.items ::
      && v.Obj? && "type" in v.fields && v.fields["type"] == Str("string")
      && "enum" in v.fields && v.fields["enum"].Arr? && forall x | x in v.fields["enum"].items :: x.Str?
  }

  /** The key is neither dropped nor added, and its value is only cleaned itself. */
  predicate Stays(m: map<string, Json>, r: map<string, Json>, key: string) {
    (key in r <==> key in m) && (key in m ==> r[key] == Cleaned(m[key], key == "properties"))
  }

  /** An "anyOf" whose variants all enumerate strings, some string among them, is replaced by one string
      enumeration of exactly these strings, in the order in which they first occur. Any other "anyOf" stays,
      and so do the type and a given enumeration; a constant without one becomes one of one value. */
  lemma UnionFlattened(m: map<string, Json>)
    ensures var union := if "anyOf" in m then Cleaned(m["anyOf"], false) else Null;
            var r := Cleaned(Obj(m), false);
            && r.Obj?
            && if EnumeratesStrings(union) && exists v :: v in union.items && v.fields["enum"].items != [] then
                 && "anyOf" !in r.fields && "type" in r.fields && r.fields["type"] == Str("string")
                 && "enum" in r.fields && r.fields["enum"].Arr?
                 && FirstOccurrences(r.fields["enum"].items, Listed(union.items))
                 && (forall x :: x in r.fields["enum"].items
                                 <==> exists v :: v in union.items && x in v.fields["enum"].items)
               else
                 && Stays(m, r.fields, "anyOf") && Stays(m, r.fields, "type")
                 && ("enum" in m || "const" !in m ==> Stays(m, r.fields, "enum"))
                 && ("enum" !in m && "const" in m ==>
                       "enum" in r.fields && r.fields["enum"] == Arr([Cleaned(m["const"], false)]))
  {
    hide FirstOccurrences, Listed, Cleaned, CleanedObject, IsEnumUnion, UnionValues;
    var c := CleanedFields(m);
    ObjectUnion(c);
    if "anyOf" in m {
      StringEnums(c["anyOf"]);
      if EnumeratesStrings(c["anyOf"]) {
        SomeListed(c["anyOf"].items);
        UnionKept(c["anyOf"].items);
        AllEnumerated(c["anyOf"].items);
      }
    }
  }

  lemma AllEnumerated(variants: seq<Json>)
    requires forall v | v in variants :: IsStringEnum(v)
    ensures FirstOccurrences(Strings(UnionValues(variants)).items, Listed(variants)) ==>
            forall x :: x in Strings(UnionValues(variants)).items <==> x in Listed(variants)
  {
    hide FirstAfter, Strings;
  }

  lemma CleanedFields(m: map<string, Json>) returns (c: map<string, Json>)
    ensures c.Keys == m.Keys && forall k | k in m :: c[k] == Cleaned(m[k], k == "properties")
    ensures Cleaned(Obj(m), false) == Obj(CleanedObject(c))
  {
    hide CleanedObject;
    c := map k | k in m :: Cleaned(m[k], k == "properties");
  }

  lemma StringEnums(union: Json)
    ensures EnumeratesStrings(union) <==> union.Arr? && forall v | v in union.items :: IsStringEnum(v)
    ensures IsEnumUnion(union) <==> EnumeratesStrings(union) && union.items != []
  {
  }

  predicate SameAt(m: map<string, Json>, r: map<string, Json>, key: string) {
    (key in r <==> key in m) && (key in m ==> r[key] == m[key])
  }

  lemma ObjectUnion(c: map<string, Json>)
    ensures var r := CleanedObject(c);
            if Flattens(c) then
              && "anyOf" !in r && "type" in r && r["type"] == Str("string")
              && "enum" in r && r["enum"] == Strings(UnionValues(c["anyOf"].items))
            else
              && SameAt(c, r, "anyOf") && SameAt(c, r, "type")
              && ("enum" in c || "const" !in c ==> SameAt(c, r, "enum"))
              && ("enum" !in c && "const" in c ==> "enum" in r && r["enum"] == Arr([c["const"]]))
  {
    hide ConstToEnum, Flattened, IsEnumUnion, UnionValues, Declared, Strings;
    var d := ConstToEnum(c);
    ConstKeys(c);
    FlattenedKeys(d);
    assert forall k | k in {"anyOf", "type", "enum"} :: k !in UNSUPPORTED;
    DeclaredKeeps(Flattened(d) - UNSUPPORTED);
  }

  lemma ConstKeys(c: map<string, Json>)
    ensures var r := ConstToEnum(c);
            && SameAt(c, r, "anyOf") && SameAt(c, r, "type") && SameAt(c, r, "properties") && SameAt(c, r, "required")
            && ("enum" in c || "const" !in c ==> SameAt(c, r, "enum"))
            && ("enum" !in c && "const" in c ==> "enum" in r && r["enum"] == Arr([c["const"]]))
  {
  }

  lemma FlattenedKeys(c: map<string, Json>)
    ensures var r := Flattened(c);
            && SameAt(c, r, "properties") && SameAt(c, r, "required")
            && if Flattens(c) then
                 && "anyOf" !in r && "type" in r && r["type"] == Str("string")
                 && "enum" in r && r["enum"] == Strings(UnionValues(c["anyOf"].items))
               else r == c
  {
    hide IsEnumUnion, UnionValues, Strings;
  }

  /** Declaring touches two keys only. */
  lemma DeclaredKeeps(m: map<string, Json>)
    ensures SameAt(m, Declared(m), "anyOf") && SameAt(m, Declared(m), "type") && SameAt(m, Declared(m), "enum")
  {
    hide IsStringArray;
  }

  /** A constant becomes an enumeration of one value, unless there is an enumeration already. */
  lemma ConstantKept(m: map<string, Json>)
    requires "const" in m && "enum" !in m && "anyOf" !in m
    ensures var r := Cleaned(Obj(m), false);
            r.Obj? && "enum" in r.fields && r.fields["enum"] == Arr([Cleaned(m["const"], false)])
  {
    UnionFlattened(m);
  }

  /** A variant that enumerates strings and is no union itself still does so when it has been cleaned. */
  lemma EnumVariantStays(m: map<string, Json>)
    requires "type" in m && m["type"] == Str("string") && "enum" in m && IsStringArray(m["enum"]) && "anyOf" !in m
    ensures var r := Cleaned(Obj(m), false);
            && r.Obj? && "type" in r.fields && r.fields["type"] == m["type"]
            && "enum" in r.fields && r.fields["enum"] == m["enum"]
  {
    UnionFlattened(m);
    StringArrayCleaned(m["enum"]);
  }

  /** The schema of an object declares its properties and what is required: as given, if these are an object
      and an array of strings, and otherwise as empty. Other schemas keep both keys as they are. */
  lemma ObjectDeclares(m: map<string, Json>)
    ensures var r := Cleaned(Obj(m), false);
            && r.Obj?
            && if "type" in r.fields && r.fields["type"] == Str("object") then
                 && "properties" in r.fields && "required" in r.fields
                 && r.fields["properties"] == (if "properties" in m && m["properties"].Obj?
                                               then Cleaned(m["properties"], true) else Obj(map[]))
                 && r.fields["required"] == (if "required" in m && IsStringArray(m["required"])
                                             then m["required"] else Arr([]))
               else Stays(m, r.fields, "properties") && Stays(m, r.fields, "required")
  {
    hide Cleaned, CleanedObject, IsStringArray;
    var c := CleanedFields(m);
    ObjectParts(c);
    if "required" in m {
      StringArrayCleaned(m["required"]);
    }
    if "properties" in m {
      ObjectCleaned(m["properties"]);
    }
  }

  lemma ObjectParts(c: map<string, Json>)
    ensures var r := CleanedObject(c);
            if "type" in r && r["type"] == Str("object") then
              && "properties" in r && "required" in r
              && r["properties"] == (if "properties" in c && c["properties"].Obj? then c["properties"] else Obj(map[]))
              && r["required"] == (if "required" in c && IsStringArray(c["required"]) then c["required"] else Arr([]))
            else SameAt(c, r, "properties") && SameAt(c, r, "required")
  {
    hide ConstToEnum, Flattened, Flattens, UnionValues, Strings, IsStringArray;
    var d := ConstToEnum(c);
    ConstKeys(c);
    FlattenedKeys(d);
    assert forall k | k in {"properties", "required", "type"} :: k !in UNSUPPORTED;
    DeclaredKeeps(Flattened(d) - UNSUPPORTED);
  }

  lemma ObjectCleaned(j: Json)
    ensures Cleaned(j, true).Obj? <==> j.Obj?
  {
  }

  lemma StringArrayCleaned(j: Json)
    ensures IsStringArray(Cleaned(j, false)) <==> IsStringArray(j)
    ensures IsStringArray(j) ==> Cleaned(j, false) == j
  {
    if j.Arr? {
      var r := Cleaned(j, false);
      forall i | 0 <= i < |j.items|
        ensures r.items[i] in r.items && j.items[i] in j.items
        ensures if j.items[i].Str? then r.items[i] == j.items[i] else !r.items[i].Str?
      {
        assert r.items[i] == Cleaned(j.items[i], false);
      }
    }
  }

  // ---------- The algorithm ----------

  method CollectStringEnumUnionValues(union: Option<Json>) returns (values: seq<string>, ok: bool)
    ensures ok <==> union.Some? && IsEnumUnion(union.value)
    ensures ok ==> values == UnionValues(union.value.items)
  {
    values, ok := [], false;
    if union.None? || !union.value.Arr? || union.value.items == [] {
      return;
    }
    var variants := union.value.items;
    var seen: set<string> := {};
    for i := 0 to |variants|
      invariant forall j | 0 <= j < i :: IsStringEnum(variants[j])
      invariant values == UnionValues(variants[..i]) && seen == set v | v in values
    {
      if !IsStringEnum(variants[i]) {
        assert variants[i] in variants;
        return [], false;
      }
      var enums := variants[i].fields["enum"].items;
      for k := 0 to |enums|
        invariant values == AddNew(UnionValues(variants[..i]), enums[..k]) && seen == set v | v in values
      {
        assert enums[..k + 1][..k] == enums[..k];
        if enums[k].s in seen {
          continue;
        }
        seen := seen + {enums[k].s};
        values := values + [enums[k].s];
      }
      assert enums[..|enums|] == enums;
      assert variants[..i + 1][..i] == variants[..i];
    }
    assert variants[..|variants|] == variants;
    ok := true;
  }

  method FlattenStringEnumAnyOf(m: map<string, Json>) returns (r: map<string, Json>)
    ensures r == Flattened(m)
  {
    var values, ok := CollectStringEnumUnionValues(if "anyOf" in m then Some(m["anyOf"]) else None);
    if !ok || |values| == 0 {
      return m;
    }
    r := m["type" := Str("string")];
    r := r["enum" := Strings(values)];
    r := r - {"anyOf"};
  }

  method UnsetUnsupported(m: map<string, Json>) returns (r: map<string, Json>)
    ensures r == m - UNSUPPORTED
  {
    r := m;
    var left := UNSUPPORTED;
    while left != {}
      invariant left <= UNSUPPORTED && r == m - (UNSUPPORTED - left)
    {
      var key :| key in left;
      r := r - {key};
      left := left - {key};
    }
  }

  method CleanCurrentSchemaObject(m: map<string, Json>) returns (r: map<string, Json>)
    ensures r == CleanedObject(m)
  {
    hide Flattened;
    r := m;
    if "const" in r {
      if "enum" !in r {
        r := r["enum" := Arr([r["const"]])];
      }
      r := r - {"const"};
    }
    r := FlattenStringEnumAnyOf(r);
    r := UnsetUnsupported(r);
    if !HasString(r, "type", "object") {
      return;
    }
    if !("properties" in r && r["properties"].Obj?) {
      r := r["properties" := Obj(map[])];
    }
    if !("required" in r && IsStringArray(r["required"])) {
      r := r["required" := Arr([])];
    }
  }

  /** Children first, then the object itself. */
  method CleanAntigravityGeminiSchema(node: Json, propertiesMap: bool) returns (r: Json)
    ensures r == Cleaned(node, propertiesMap)
    decreases node
  {
    match node
    case Obj(m) =>
      var fields, left := m, m.Keys;
      while left != {}
        invariant left <= m.Keys && fields.Keys == m.Keys
        invariant forall k | k in m :: fields[k] == if k in left then m[k] else Cleaned(m[k], k == "properties")
      {
        var key :| key in left;
        var child := CleanAntigravityGeminiSchema(m[key], key == "properties");
        fields := fields[key := child];
        left := left - {key};
      }
      assert fields == map k | k in m :: Cleaned(m[k], k == "properties");
      if !propertiesMap {
        fields := CleanCurrentSchemaObject(fields);
      }
      r := Obj(fields);
    case Arr(items) =>
      var rewritten := items;
      for i := 0 to |items|
        invariant |rewritten| == |items|
        invariant forall j | 0 <= j < |items| :: rewritten[j] == if j < i then Cleaned(items[j], false) else items[j]
      {
        var child := CleanAntigravityGeminiSchema(items[i], false);
        rewritten := rewritten[i := child];
      }
      r := Arr(rewritten);
    case _ =>
      r := node;
  }
}
