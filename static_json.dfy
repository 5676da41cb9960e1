/**
 * static_json: an object is a non-empty list of fields, each a name provider
 * (with the name text it provides) and a value; `str()` renders it as
 * `{ name: value, name: value }`. A field's value renders by its type: a bool as `true` / `false`, a string verbatim,
 * a nested object as its own rendering, and any other value by
 * std::to_string, whose text is carried opaquely in the value itself.
 */
module StaticJson {

  datatype Value =
    | Number(text: string)
    | Bool(b: bool)
    | Text(s: string)
    | Nested(obj: Json)

  /**
   * field<NameProvider, Type>: `provider` stands for the NameProvider type,
   * which is what identifies the field, and `name` for the text it provides.
   * Two providers may provide the same text.
   */
  datatype Field = Field(provider: nat, name: string, value: Value)

  datatype Json = Json(fields: seq<Field>)

  /** An object type needs at least one field, and so does every nested object type. */
  ghost predicate WellFormed(j: Json)
    decreases j
  {
    && |j.fields| >= 1
    && forall i :: 0 <= i < |j.fields| ==> ValueWellFormed(j.fields[i].value)
  }

  ghost predicate ValueWellFormed(v: Value)
    decreases v
  {
    v.Nested? ==> WellFormed(v.obj)
  }

  /** field<...>::str, one specialisation per kind of value. */
  function FieldStr(v: Value): (r: string)
    requires ValueWellFormed(v)
    ensures v.Bool? ==> (r == "true" || r == "false") && (r == "true" <==> v.b)
    ensures v.Text? ==> r == v.s
    ensures v.Number? ==> r == v.text
    decreases v
  {
    match v
    case Number(text) => text
    case Bool(b) => if b then "true" else "false"
    case Text(s) => s
    case Nested(obj) => Str(obj)
  }

  /** One field as `name: value`. */
  function Entry(f: Field): (r: string)
    requires ValueWellFormed(f.value)
    ensures f.name + ": " <= r
    decreases f
  {
    f.name + ": " + FieldStr(f.value)
  }

  /**
   * serialize_helper::dispatch_str: the first field, then `, ` and the
   * rest; the last field alone has no separator after it.
   */
  function DispatchStr(fields: seq<Field>): (r: string)
    requires |fields| >= 1 && forall i :: 0 <= i < |fields| ==> ValueWellFormed(fields[i].value)
    ensures Entry(fields[0]) <= r
    decreases fields
  {
    if |fields| == 1 then Entry(fields[0])
    else Entry(fields[0]) + ", " + DispatchStr(fields[1..])
  }

  /** json::str: the fields between `{ ` and ` }`. */
  function Str(j: Json): (r: string)
    requires WellFormed(j)
    ensures |r| >= 4 && r[..2] == "{ " && r[|r| - 2..] == " }"
    decreases j
  {
    "{ " + DispatchStr(j.fields) + " }"
  }

  /** The rendered fields, in declaration order. */
  function Entries(fields: seq<Field>): (r: seq<string>)
    requires forall i :: 0 <= i < |fields| ==> ValueWellFormed(fields[i].value)
    ensures |r| == |fields|
    ensures forall i :: 0 <= i < |fields| ==> r[i] == Entry(fields[i])
  {
    if fields == [] then [] else [Entry(fields[0])] + Entries(fields[1..])
  }

  /** The usual join: the parts with `sep` between neighbours, built from the end. */
  function Join(parts: seq<string>, sep: string): string
    requires |parts| >= 1
  {
    if |parts| == 1 then parts[0]
    else Join(parts[..|parts| - 1], sep) + sep + parts[|parts| - 1]
  }

  /** Joining a part in front of a join adds one separator after it. */
  lemma {:induction false} JoinCons(head: string, parts: seq<string>, sep: string)
    requires |parts| >= 1
    ensures Join([head] + parts, sep) == head + sep + Join(parts, sep)
    decreases |parts|
  {
    if |parts| == 1 {
      assert ([head] + parts)[..1] == [head];
    } else {
      var init := parts[..|parts| - 1];
      assert ([head] + parts)[..|parts|] == [head] + init;
      JoinCons(head, init, sep);
    }
  }

  /** dispatch_str is the `, `-join of the `name: value` entries, in declaration order. */
  lemma {:induction false} DispatchIsJoin(fields: seq<Field>)
    requires |fields| >= 1 && forall i :: 0 <= i < |fields| ==> ValueWellFormed(fields[i].value)
    ensures DispatchStr(fields) == Join(Entries(fields), ", ")
    decreases |fields|
  {
    if |fields| > 1 {
      DispatchIsJoin(fields[1..]);
      assert Entries(fields) == [Entry(fields[0])] + Entries(fields[1..]);
      JoinCons(Entry(fields[0]), Entries(fields[1..]), ", ");
    }
  }

  /** json::str in terms of the reference join. */
  lemma StrIsJoin(j: Json)
    requires WellFormed(j)
    ensures Str(j) == "{ " + Join(Entries(j.fields), ", ") + " }"
  {
    DispatchIsJoin(j.fields);
  }

  /** A single field renders with no separator at all. */
  lemma SingleField(p: nat, name: string, v: Value)
    requires ValueWellFormed(v)
    ensures WellFormed(Json([Field(p, name, v)]))
    ensures Str(Json([Field(p, name, v)])) == "{ " + name + ": " + FieldStr(v) + " }"
  {
    assert DispatchStr([Field(p, name, v)]) == name + ": " + FieldStr(v);
  }

  /** A nested object's field renders as the nested object's own str(). */
  lemma NestedField(p: nat, name: string, obj: Json)
    requires WellFormed(obj)
    ensures FieldStr(Nested(obj)) == Str(obj)
    ensures Entry(Field(p, name, Nested(obj))) == name + ": " + Str(obj)
  {
  }

  /** The name providers of the fields, in declaration order. */
  function Providers(fields: seq<Field>): (r: seq<nat>)
    ensures |r| == |fields| && forall i :: 0 <= i < |fields| ==> r[i] == fields[i].provider
  {
    if fields == [] then [] else [fields[0].provider] + Providers(fields[1..])
  }

  /** detail::index_of_type over the name providers: the first position holding `p`. */
  function IndexOf(providers: seq<nat>, p: nat): (r: nat)
    requires p in providers
    ensures r < |providers| && providers[r] == p
    ensures forall k :: 0 <= k < r ==> providers[k] != p
  {
    if providers[0] == p then 0 else 1 + IndexOf(providers[1..], p)
  }

  /**
   * get<Name>: the value of the field whose name provider is `p`. The field
   * type is taken at the first index of the provider, so with a repeated
   * provider the first such field is the one read; the provided text plays
   * no part. Asking for an absent provider does not compile.
   */
  function Get(j: Json, p: nat): (v: Value)
    requires p in Providers(j.fields)
    ensures exists i :: 0 <= i < |j.fields| && j.fields[i].provider == p && v == j.fields[i].value
                        && forall k :: 0 <= k < i ==> j.fields[k].provider != p
  {
    var i := IndexOf(Providers(j.fields), p);
    j.fields[i].value
  }

  /**
   * Two fields, the second a nested object: exactly one separator, and the
   * nested object's braces inside the outer ones.
   */
  lemma TwoFieldsNested(p: nat, name: string, v: Value, q: nat, sub: string, obj: Json)
    requires ValueWellFormed(v) && WellFormed(obj)
    ensures WellFormed(Json([Field(p, name, v), Field(q, sub, Nested(obj))]))
    ensures Str(Json([Field(p, name, v), Field(q, sub, Nested(obj))]))
         == "{ " + name + ": " + FieldStr(v) + ", " + sub + ": " + Str(obj) + " }"
  {
    var f0, f1 := Field(p, name, v), Field(q, sub, Nested(obj));
    TwoEntries(f0, f1);
    assert Str(Json([f0, f1])) == "{ " + ((name + ": " + FieldStr(v)) + ", " + (sub + ": " + Str(obj))) + " }";
    Regroup(name, FieldStr(v), sub, Str(obj));
  }

  /** Two fields render as their entries with one separator between. */
  lemma TwoEntries(f0: Field, f1: Field)
    requires ValueWellFormed(f0.value) && ValueWellFormed(f1.value)
    ensures DispatchStr([f0, f1]) == Entry(f0) + ", " + Entry(f1)
  {
    assert [f0, f1][1..] == [f1];
  }

  /** The bracketing of a two-entry rendering does not matter. */
  lemma Regroup(name: string, value: string, sub: string, nested: string)
    ensures "{ " + ((name + ": " + value) + ", " + (sub + ": " + nested)) + " }"
         == "{ " + name + ": " + value + ", " + sub + ": " + nested + " }"
  {
  }


  /**
   * Two providers giving the same text "x" are still two fields: get of the
   * second provider reads the second field. A repeated provider reads the
   * first field that has it.
   */
  lemma ProviderIdentifiesField()
    ensures Get(Json([Field(0, "x", Number("1")), Field(1, "x", Bool(false))]), 1) == Bool(false)
    ensures Get(Json([Field(0, "n", Number("1")), Field(0, "n", Bool(false))]), 0) == Number("1")
  {
    assert Providers([Field(0, "x", Number("1")), Field(1, "x", Bool(false))])[1] == 1;
    assert Providers([Field(0, "n", Number("1")), Field(0, "n", Bool(false))])[0] == 0;
  }
}
