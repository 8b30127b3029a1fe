/**
 * The declarative schema a request body is validated against, the error map the validators
 * produce, and the pieces both validators (the current one and the legacy one) share.
 */
module Schema {
  import opened Text
  import opened Values
  import opened Paths

  /** Field path rendered as a string, mapped to one human-readable message. */
  type ErrorMap = map<string, string>

  /** Names a user-supplied `function` custom check attached to a node. */
  type CheckId = nat
  /** Names a user-supplied `uniqueEntries` extractor function. */
  type ExtractorId = nat

  /** The `uniqueEntries` extractor functions, by id. */
  type Extractors = (ExtractorId, Value) -> Value

  /** The attributes every validating kind reads: `required`, `mandatory` and `function`. */
  datatype Common = Common(required: bool, mandatory: bool, check: Option<CheckId>)

  datatype Option<+T> = None | Some(value: T)

  /** One entry of `options`: its `label` (a reserved word in Dafny, hence `labelText`) and the allowed value. */
  datatype Choice = Choice(labelText: string, value: string)

  /** `uniqueEntries`: unset or false, true, a property name, or an extractor function. */
  datatype Unique =
    | NotUnique
    | UniqueSelf
    | UniqueBy(prop: string)
    | UniqueVia(extractor: ExtractorId)

  /** One declared object property, in the order the schema lists it. */
  datatype Property = Property(name: string, schema: Node)

  /**
   * A schema node, one variant per value of `type`. A string in `pattern`, `patternHelper` or
   * `optionsHelper` that is empty counts as unset, as does an empty `options` list, because the
   * source tests those attributes for truthiness or non-empty length. An object node's
   * `properties` is the declared property list when `propertiesSet` holds and is unset
   * otherwise. `element` is the array form of `properties` (the schema of every element);
   * `items` takes precedence over it. `UnknownNode` stands for a `type` other than the six the
   * validators dispatch on; its name is meant to be none of "object", "array", "string",
   * "number", "boolean" and "ignore", which the type does not enforce.
   */
  datatype Node =
    | ObjectNode(common: Common, strict: bool, propertiesSet: bool, properties: seq<Property>)
    | ArrayNode(common: Common, minLength: Option<int>, maxLength: Option<int>,
                uniqueEntries: Unique, items: Option<Node>, element: Option<Node>)
    | StringNode(common: Common, pattern: string, patternHelper: string,
                 options: seq<Choice>, optionsHelper: string)
    | NumberNode(common: Common, pattern: string, patternHelper: string,
                 min: Option<int>, max: Option<int>, options: seq<Choice>)
    | BooleanNode(common: Common)
    | IgnoreNode
    | UnknownNode(typeName: string)

  /**
   * What a validation call receives from outside the schema tree: the custom checks (called
   * with the rendered path, the node and the value), the `uniqueEntries` extractors, and the
   * regular-expression test `new RegExp(pattern).test(s)`.
   */
  datatype Env = Env(
    check: (CheckId, string, Node, Value) -> ErrorMap,
    extract: Extractors,
    matches: (string, string) -> bool)

  /** An exception that escapes a validation call instead of becoming an error-map entry. */
  datatype Fault =
    | UnknownSchemaType(typeName: string)  // `throw Error('Unknown schema type ...')`
    | NullConstructor                      // TypeError: `null.constructor` (optional object, null value)
    | PropertyOfNullish                    // TypeError: `o[prop]` on a null or undefined array element
    | ToStringOfUndefined                  // TypeError: `undefined.toString()` (optional number, no value)
    | MissingElementSchema                 // TypeError: legacy `validateNode(undefined, ...)`

  datatype Result<+T> = Ok(value: T) | Err(fault: Fault) {
    predicate IsFailure() {
      Err?
    }

    function PropagateFailure<U>(): Result<U>
      requires Err?
    {
      Err(fault)
    }

    function Extract(): T
      requires Ok?
    {
      value
    }
  }

  /** `schemaNode.required || schemaNode.mandatory`. */
  predicate IsRequired(c: Common) {
    c.required || c.mandatory
  }

  /** `merge(m1, m2)`, a shallow spread: every key of either map, the second map winning. */
  function Merge(m1: ErrorMap, m2: ErrorMap): (m: ErrorMap)
    ensures m.Keys == m1.Keys + m2.Keys
    ensures forall k :: k in m2 ==> m[k] == m2[k]
    ensures forall k :: k in m1 && k !in m2 ==> m[k] == m1[k]
  {
    m1 + m2
  }

  /** The children's maps merged in order, as the source's `reduce` over `merge` builds them. */
  function MergeAll(ms: seq<ErrorMap>): ErrorMap {
    if |ms| == 0 then map[] else Merge(MergeAll(ms[..|ms| - 1]), ms[|ms| - 1])
  }

  /** True when key k appears in ms[i] and in no later map. */
  ghost predicate LastWriter(ms: seq<ErrorMap>, k: string, i: int) {
    0 <= i < |ms| && k in ms[i] && forall j :: i < j < |ms| ==> k !in ms[j]
  }

  /**
   * The merged map has exactly the keys of the children, and each key carries the message of
   * the last child that reported it.
   */
  lemma {:induction false} MergeAllKeys(ms: seq<ErrorMap>)
    ensures forall k :: k in MergeAll(ms) <==> exists i :: 0 <= i < |ms| && k in ms[i]
    ensures forall k, i :: LastWriter(ms, k, i) ==> k in MergeAll(ms) && MergeAll(ms)[k] == ms[i][k]
  {
    if |ms| > 0 {
      var init := ms[..|ms| - 1];
      MergeAllKeys(init);
      forall k, i | LastWriter(ms, k, i)
        ensures k in MergeAll(ms) && MergeAll(ms)[k] == ms[i][k]
      {
        if i < |ms| - 1 {
          assert LastWriter(init, k, i);
        }
      }
      forall k | k in MergeAll(ms)
        ensures exists i :: 0 <= i < |ms| && k in ms[i]
      {
        if k !in ms[|ms| - 1] {
          assert k in MergeAll(init);
          var i :|0 <= i < |init| && k in init[i];
          assert k in ms[i];
        }
      }
      forall k, i | 0 <= i < |ms| && k in ms[i]
        ensures k in MergeAll(ms)
      {
        if i < |ms| - 1 {
          assert k in init[i];
        }
      }
    }
  }

  /** The custom check's map, or nothing when the node declares no `function`. */
  function CustomCheck(env: Env, c: Common, key: string, node: Node, value: Value): ErrorMap {
    if c.check.Some? then env.check(c.check.value, key, node, value) else map[]
  }

  /** `" (helper)"` when a helper text is set. */
  function Helper(h: string): string {
    if h != "" then " (" + h + ")" else ""
  }

  /** `options.map(n => n.value).includes(s)`. */
  predicate Listed(options: seq<Choice>, s: string) {
    exists i :: 0 <= i < |options| && options[i].value == s
  }

  /** The three message forms of a two-sided bound check. */
  datatype Wording = Wording(between: string, below: string, above: string)

  /** Array lengths: "length must be between 2 and 4", "... at least 2", "... not exceed 4". */
  const LengthWording := Wording("length must be between ", "length must be at least ", "length must not exceed ")
  /** Numbers: "must be between 2 and 9", "must be greater than 2", "must be less than 1". */
  const RangeWording := Wording("must be between ", "must be greater than ", "must be less than ")

  /**
   * The bound check shared by array lengths and number ranges: with both bounds set, a breach of
   * either gives only the combined message; otherwise the lower bound is checked first.
   */
  function BoundViolation(w: Wording, min: Option<int>, max: Option<int>, x: int): (r: Option<string>)
    ensures r.None? <==> (min.None? || min.value <= x) && (max.None? || x <= max.value)
    ensures min.Some? && max.Some? && r.Some? ==>
      r.value == w.between + IntToString(min.value) + " and " + IntToString(max.value)
    ensures max.None? && r.Some? ==> r.value == w.below + IntToString(min.value)
    ensures min.None? && r.Some? ==> r.value == w.above + IntToString(max.value)
  {
    if min.Some? && max.Some? then
      if x < min.value || x > max.value then
        Some(w.between + IntToString(min.value) + " and " + IntToString(max.value))
      else None
    else if min.Some? && x < min.value then Some(w.below + IntToString(min.value))
    else if max.Some? && x > max.value then Some(w.above + IntToString(max.value))
    else None
  }
}
