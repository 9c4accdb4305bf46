/**
 * `useForm(schema).register(name)`: derives the attribute hints of an HTML
 * `<input>` from one field of an object schema.
 *
 * The schema library is seen only through the few things `register` reads of
 * a field definition: its type tag, the email marker, whether it is optional
 * or nullable, and its (possibly absent) list of `{kind, value}` checks.
 */
module UseForm {
  import opened Wrappers

  /** One constraint check of a field definition, e.g. `{kind: "min", value: 6}`. */
  datatype Check = Check(kind: string, value: int)

  /** What `register` reads of one field definition. */
  datatype FieldDef = FieldDef(
    typeName: string,                // `_def.typeName`, e.g. "ZodString", "ZodNumber"
    isEmail: bool,                   // the `isEmail` marker of string fields
    optional: bool,                  // `isOptional()`
    nullable: bool,                  // `isNullable()`
    checks: Option<seq<Check>>       // `_def.checks`, which may be absent
  )

  /** `schema.shape`: field name to field definition. */
  type Schema = map<string, FieldDef>

  /** The value of one HTML attribute hint. */
  datatype AttrValue = S(s: string) | B(b: bool) | N(n: int)

  /** An attribute-hint record, keyed by attribute name. */
  type Attrs = map<string, AttrValue>

  /** The type test the source applies to decide between length and range bounds. */
  predicate IsString(def: FieldDef) {
    def.typeName == "ZodString"
  }

  /** The checks to fold over: an absent list counts as empty. */
  function CheckList(def: FieldDef): seq<Check> {
    def.checks.GetOr([])
  }

  /** The attribute keys bound checks may produce for a field of the given kind. */
  function BoundKeys(isString: bool): set<string> {
    if isString then {"minlength", "maxlength"} else {"min", "max"}
  }

  /** The keys every known field's record carries before the bounds are spread in. */
  function BaseKeys(): set<string> {
    {"name", "required", "type"}
  }

  /**
   * The input `type`: "password" for the field literally named "password",
   * whatever its definition; otherwise "email" for a string field carrying the
   * email marker; otherwise "text".
   */
  function InputType(name: string, def: FieldDef): (t: string)
    ensures t == "text" || t == "password" || t == "email"
    ensures name != "password" ==> (t == "email" <==> IsString(def) && def.isEmail)
    ensures t == "password" <==> name == "password"
  {
    if name == "password" then "password"
    else if IsString(def) && def.isEmail then "email"
    else "text"
  }

  /**
   * One step of the reduce over the checks: a "min" check sets `minlength`
   * (string fields) or `min` (others), a "max" check sets `maxlength` or
   * `max`, and any other check leaves the accumulator as it is.
   */
  function ApplyCheck(isString: bool, acc: Attrs, c: Check): (r: Attrs)
    ensures c.kind == "min" ==>
      var k := if isString then "minlength" else "min";
      && r.Keys == acc.Keys + {k} && r[k] == N(c.value)
      && forall k' :: k' in acc && k' != k ==> r[k'] == acc[k']
    ensures c.kind == "max" ==>
      var k := if isString then "maxlength" else "max";
      && r.Keys == acc.Keys + {k} && r[k] == N(c.value)
      && forall k' :: k' in acc && k' != k ==> r[k'] == acc[k']
    ensures c.kind != "min" && c.kind != "max" ==> r == acc
  {
    if c.kind == "min" then acc[(if isString then "minlength" else "min") := N(c.value)]
    else if c.kind == "max" then acc[(if isString then "maxlength" else "max") := N(c.value)]
    else acc
  }

  /**
   * The reduce over the checks, in list order, starting from `acc`. It only
   * ever adds bound keys, and it never touches a key that is not a bound key.
   */
  function FoldChecks(isString: bool, acc: Attrs, cs: seq<Check>): (r: Attrs)
    ensures acc.Keys <= r.Keys <= acc.Keys + BoundKeys(isString)
    ensures forall k :: k in acc && k !in BoundKeys(isString) ==> r[k] == acc[k]
    decreases |cs|
  {
    if cs == [] then acc
    else FoldChecks(isString, ApplyCheck(isString, acc, cs[0]), cs[1..])
  }

  /** The bound attributes of a field: the reduce over its checks from the empty record. */
  function Validation(def: FieldDef): (r: Attrs)
    ensures r.Keys <= BoundKeys(IsString(def))
  {
    FoldChecks(IsString(def), map[], CheckList(def))
  }

  /**
   * `register(name)` of `useForm(schema)`. An unknown name yields the empty
   * record; a known one yields `name`, `required` and `type`, with the bound
   * attributes spread in after them.
   */
  function Register(schema: Schema, name: string): (r: Attrs)
    ensures r == map[] <==> name !in schema
    ensures name in schema ==>
      && "name" in r && r["name"] == S(name)
      && "required" in r && r["required"] == B(!schema[name].optional && !schema[name].nullable)
      && "type" in r && r["type"] == S(InputType(name, schema[name]))
    ensures name in schema ==> r.Keys <= BaseKeys() + BoundKeys(IsString(schema[name]))
    ensures name in schema && IsString(schema[name]) ==> "min" !in r && "max" !in r
    ensures name in schema && !IsString(schema[name]) ==> "minlength" !in r && "maxlength" !in r
  {
    if name !in schema then map[]
    else
      var def := schema[name];
      var base := map["name" := S(name),
                      "required" := B(!def.optional && !def.nullable),
                      "type" := S(InputType(name, def))];
      var r := base + Validation(def);
      assert "name" in r;
      r
  }
}
