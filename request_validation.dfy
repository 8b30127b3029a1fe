/**
 * The current schema-tree validator: `validateNode` dispatches on the node kind, and each
 * per-kind validator returns the error map of one node and, for objects and arrays, of the
 * nodes below it. A JavaScript exception that escapes a call is an `Err` result.
 */
module RequestValidation {
  import opened Text
  import opened Values
  import opened Paths
  import opened Schema
  import opened Duplicates

  /**
   * `bodyNode.constructor === Object` for a present value: only an object qualifies, and only
   * when it has no own `constructor` field shadowing the inherited one.
   */
  predicate IsPlainObject(v: Value) {
    v.Obj? && "constructor" !in v.fields
  }

  /** The declared property list of an object node, or none when `properties` is unset. */
  function DeclaredProperties(node: Node): seq<Property>
    requires node.ObjectNode?
  {
    if node.propertiesSet then node.properties else []
  }

  /** The name is one of the declared property names. */
  predicate Declared(props: seq<Property>, k: string) {
    exists i :: 0 <= i < |props| && props[i].name == k
  }

  /** The schema of every element: `items`, or else the array form of `properties`. */
  function ElementSchema(node: Node): Option<Node>
    requires node.ArrayNode?
  {
    if node.items.Some? then node.items else node.element
  }

  /** Appending to a common prefix is injective. */
  lemma PrefixInjective(prefix: string)
    ensures forall a: string, b: string :: prefix + a == prefix + b ==> a == b
  {
    forall a: string, b: string | prefix + a == prefix + b
      ensures a == b
    {
      assert a == (prefix + a)[|prefix|..];
      assert b == (prefix + b)[|prefix|..];
    }
  }

  /** The strict-mode errors: every key of the value that is not a declared property name, at its own path. */
  function StrictErrors(path: Path, props: seq<Property>, fields: map<string, Value>): ErrorMap {
    PrefixInjective(KeyPrefix(path));
    map k | k in fields && !Declared(props, k) :: KeyPrefix(path) + k := "is not allowed on this object"
  }

  /**
   * Strict mode reports exactly the undeclared keys of the value, each at the key's own path
   * with the same message, and nothing else.
   */
  lemma StrictErrorsExact(path: Path, props: seq<Property>, fields: map<string, Value>)
    ensures forall k :: Joined(path + [k]) in StrictErrors(path, props, fields) <==> k in fields && !Declared(props, k)
    ensures forall p :: p in StrictErrors(path, props, fields) ==>
      exists k :: k in fields && !Declared(props, k) && p == Joined(path + [k])
    ensures forall k :: k in StrictErrors(path, props, fields) ==>
      StrictErrors(path, props, fields)[k] == "is not allowed on this object"
  {
    StrictErrorsOnlyUndeclared(path, props, fields);
    var e := StrictErrors(path, props, fields);
    forall k
      ensures Joined(path + [k]) in e <==> k in fields && !Declared(props, k)
    {
      KeyPrefixJoins(path, k);
      PrefixInjective(KeyPrefix(path));
    }
  }

  /** No key other than an undeclared field's own path is reported. */
  lemma StrictErrorsOnlyUndeclared(path: Path, props: seq<Property>, fields: map<string, Value>)
    ensures forall p :: p in StrictErrors(path, props, fields) ==>
      exists k :: k in fields && !Declared(props, k) && p == Joined(path + [k])
  {
    forall p | p in StrictErrors(path, props, fields)
      ensures exists k :: k in fields && !Declared(props, k) && p == Joined(path + [k])
    {
      var k :| k in fields && !Declared(props, k) && p == KeyPrefix(path) + k;
      KeyPrefixJoins(path, k);
    }
  }

  /** The strict-mode errors of an object node: only when `strict` is set and `properties` declared. */
  function StrictCheck(node: Node, path: Path, fields: map<string, Value>): ErrorMap
    requires node.ObjectNode?
  {
    if node.strict && node.propertiesSet then StrictErrors(path, node.properties, fields) else map[]
  }

  /** `validateNode`: dispatch on the node kind. */
  function ValidateNode(env: Env, node: Node, value: Value, path: Path): (r: Result<ErrorMap>)
    ensures node.IgnoreNode? ==> r == Ok(map[])
    ensures node.UnknownNode? ==> r == Err(UnknownSchemaType(node.typeName))
    decreases node, 2
  {
    match node
    case ObjectNode(_, _, _, _) => ValidateObject(env, node, value, path)
    case ArrayNode(_, _, _, _, _, _) => ValidateArray(env, node, value, path)
    case StringNode(_, _, _, _, _) => Ok(ValidateString(env, node, value, path))
    case NumberNode(_, _, _, _, _, _) => ValidateNumber(env, node, value, path)
    case BooleanNode(_) => Ok(ValidateBoolean(node, value, path))
    case IgnoreNode => Ok(map[])
    case UnknownNode(typeName) => Err(UnknownSchemaType(typeName))
  }

  /** The results of the first n declared properties, each validated at its own path. */
  function PropertyResults(env: Env, node: Node, fields: map<string, Value>, path: Path, n: nat): (r: Result<seq<ErrorMap>>)
    requires node.ObjectNode? && n <= |DeclaredProperties(node)|
    ensures r.Ok? ==> |r.value| == n
    decreases node, 0, n
  {
    if n == 0 then Ok([])
    else
      var earlier :- PropertyResults(env, node, fields, path, n - 1);
      var p := DeclaredProperties(node)[n - 1];
      var m :- ValidateNode(env, p.schema, Lookup(fields, p.name), path + [p.name]);
      Ok(earlier + [m])
  }

  /** `validateObject`. */
  function ValidateObject(env: Env, node: Node, value: Value, path: Path): (r: Result<ErrorMap>)
    requires node.ObjectNode?
    decreases node, 1
  {
    if IsRequired(node.common) && IsNullish(value) then Ok(map[PathOrBody(path) := "is required"])
    else if value.Null? then Err(NullConstructor)
    else if !value.Undefined? && !IsPlainObject(value) then Ok(map[PathOrBody(path) := "must be of type object"])
    else if value.Undefined? then Ok(map[])
    else
      var children :- PropertyResults(env, node, value.fields, path, |DeclaredProperties(node)|);
      Ok(Merge(Merge(MergeAll(children), StrictCheck(node, path, value.fields)),
               CustomCheck(env, node.common, PathOrBody(path), node, value)))
  }

  /** The results of the first n elements, each validated against the element schema at `index-<i>`. */
  function ElementResults(env: Env, node: Node, elems: seq<Value>, path: Path, n: nat): (r: Result<seq<ErrorMap>>)
    requires node.ArrayNode? && ElementSchema(node).Some? && n <= |elems|
    ensures r.Ok? ==> |r.value| == n
    decreases node, 0, n
  {
    if n == 0 then Ok([])
    else
      var earlier :- ElementResults(env, node, elems, path, n - 1);
      var m :- ValidateNode(env, ElementSchema(node).value, elems[n - 1], path + [IndexSegment(n - 1)]);
      Ok(earlier + [m])
  }

  /** The uniqueness errors of an array, or none when `uniqueEntries` is off. */
  function UniquenessErrors(extract: Extractors, u: Unique, elems: seq<Value>, path: Path): Result<ErrorMap> {
    if UniqueActive(u) then DuplicateCheck(extract, u, elems, path) else Ok(map[])
  }

  /** `validateArray`. */
  function ValidateArray(env: Env, node: Node, value: Value, path: Path): (r: Result<ErrorMap>)
    requires node.ArrayNode?
    decreases node, 1
  {
    if IsRequired(node.common) && IsNullish(value) then Ok(map[PathOrBody(path) := "is required"])
    else if IsNullish(value) then Ok(map[])
    else if !value.Arr? then Ok(map[PathOrBody(path) := "must be of type array"])
    else
      var bound := BoundViolation(LengthWording, node.minLength, node.maxLength, |value.elems|);
      if bound.Some? then Ok(map[PathOrBody(path) := bound.value])
      else
        var dups :- UniquenessErrors(env.extract, node.uniqueEntries, value.elems, path);
        if |dups| > 0 then Ok(dups)
        else if ElementSchema(node).None? then Ok(map[])
        else
          var results :- ElementResults(env, node, value.elems, path, |value.elems|);
          Ok(Merge(MergeAll(results), CustomCheck(env, node.common, PathOrBody(path), node, value)))
  }

  /** `validateString`: every falsy value counts as absent. */
  function ValidateString(env: Env, node: Node, value: Value, path: Path): (r: ErrorMap)
    requires node.StringNode?
    ensures r.Keys <= {Joined(path)} || r == CustomCheck(env, node.common, Joined(path), node, value)
  {
    var key := Joined(path);
    if !Truthy(value) then (if IsRequired(node.common) then map[key := "is required"] else map[])
    else if !value.Str? then map[key := "must be of type string"]
    else if node.pattern != "" && !env.matches(node.pattern, value.s) then
      map[key := "does not match pattern" + Helper(node.patternHelper)]
    else if |node.options| > 0 && !Listed(node.options, value.s) then
      map[key := "not a valid option" + Helper(node.optionsHelper)]
    else CustomCheck(env, node.common, key, node, value)
  }

  /**
   * `validateNumber`: only undefined counts as absent. An absent optional number still reaches
   * the pattern and options checks, whose `toString()` call on it throws.
   */
  function ValidateNumber(env: Env, node: Node, value: Value, path: Path): (r: Result<ErrorMap>)
    requires node.NumberNode?
    ensures r.Err? <==> !IsRequired(node.common) && value.Undefined? && (node.pattern != "" || |node.options| > 0)
    ensures r.Err? ==> r.fault == ToStringOfUndefined
    ensures r.Ok? ==> r.value.Keys <= {Joined(path)} || r.value == CustomCheck(env, node.common, Joined(path), node, value)
  {
    var key := Joined(path);
    if IsRequired(node.common) && value.Undefined? then Ok(map[key := "is required"])
    else if !value.Undefined? && !value.Num? then Ok(map[key := "must be of type number"])
    else if node.pattern != "" && value.Undefined? then Err(ToStringOfUndefined)
    else if node.pattern != "" && !env.matches(node.pattern, IntToString(value.n)) then
      Ok(map[key := "does not match pattern" + Helper(node.patternHelper)])
    else if value.Num? && BoundViolation(RangeWording, node.min, node.max, value.n).Some? then
      Ok(map[key := BoundViolation(RangeWording, node.min, node.max, value.n).value])
    else if |node.options| > 0 && value.Undefined? then Err(ToStringOfUndefined)
    else if |node.options| > 0 && !Listed(node.options, IntToString(value.n)) then
      Ok(map[key := "not a valid option"])
    else Ok(CustomCheck(env, node.common, key, node, value))
  }

  /** `validateBoolean`: only undefined counts as absent. */
  function ValidateBoolean(node: Node, value: Value, path: Path): (r: ErrorMap)
    requires node.BooleanNode?
    ensures r.Keys <= {Joined(path)}
    ensures |r| == 0 <==> value.Bool? || (value.Undefined? && !IsRequired(node.common))
  {
    var key := Joined(path);
    if IsRequired(node.common) && value.Undefined? then map[key := "is required"]
    else if !value.Undefined? && !value.Bool? then map[key := "must be of type boolean"]
    else map[]
  }

  /** What `makeResponseFromErrors` hands to the response builder. */
  datatype ValidationResponse = ValidationResponse(statusCode: int, message: string, validationErrors: ErrorMap)

  /** `{ valid, validationResponse? }`. */
  datatype Outcome = Outcome(valid: bool, validationResponse: Option<ValidationResponse>)

  /** `makeResponseFromErrors`: a 400 response carrying the error map. */
  function MakeResponseFromErrors(errors: ErrorMap): (resp: ValidationResponse)
    ensures resp.statusCode == 400 && resp.validationErrors == errors
  {
    ValidationResponse(400, "Validation Errors", errors)
  }

  /** `validateRequest`: validate the root at the empty path; valid exactly when nothing is reported. */
  function ValidateRequest(env: Env, schema: Node, body: Value): (r: Result<Outcome>)
    ensures r.Err? <==> ValidateNode(env, schema, body, []).Err?
    ensures r.Err? ==> r.fault == ValidateNode(env, schema, body, []).fault
    ensures r.Ok? ==> (r.value.valid <==> |ValidateNode(env, schema, body, []).value| == 0)
    ensures r.Ok? && !r.value.valid ==>
      r.value.validationResponse == Some(MakeResponseFromErrors(ValidateNode(env, schema, body, []).value))
    ensures r.Ok? && r.value.valid ==> r.value.validationResponse.None?
  {
    var errors :- ValidateNode(env, schema, body, []);
    if |errors| == 0 then Ok(Outcome(true, None))
    else Ok(Outcome(false, Some(MakeResponseFromErrors(errors))))
  }
}
