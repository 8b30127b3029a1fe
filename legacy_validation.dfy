/**
 * The legacy schema-tree validator: the same dispatch and error maps as the current one, but
 * only `required` marks a node as required, objects have no strict mode, arrays have no length
 * or uniqueness checks and always recurse with `properties`, and strings and numbers have no
 * options and no pattern helper. The body is taken as already parsed.
 */
module LegacyValidation {
  import opened Text
  import opened Values
  import opened Paths
  import opened Schema
  import RV = RequestValidation

  /** `validateNode`: dispatch on the node kind. */
  function ValidateNode(env: Env, node: Node, value: Value, path: Path): (r: Result<ErrorMap>)
    ensures node.IgnoreNode? ==> r == Ok(map[])
    ensures node.UnknownNode? ==> r == Err(UnknownSchemaType(node.typeName))
    decreases node, 2
  {
    match node
    case ObjectNode(_, _, _, _) => ValidateObject(env, node, value, path)
    case ArrayNode(_, _, _, _, _, _) => ValidateArray(env, node, value, path)
    case StringNode(_, _, _, _, _) => Ok(ValidateString(env, node, value, path))
    case NumberNode(_, _, _, _, _, _) => Ok(ValidateNumber(env, node, value, path))
    case BooleanNode(_) => Ok(ValidateBoolean(node, value, path))
    case IgnoreNode => Ok(map[])
    case UnknownNode(typeName) => Err(UnknownSchemaType(typeName))
  }

  /** The results of the first n declared properties, each validated at its own path. */
  function PropertyResults(env: Env, node: Node, fields: map<string, Value>, path: Path, n: nat): (r: Result<seq<ErrorMap>>)
    requires node.ObjectNode? && n <= |RV.DeclaredProperties(node)|
    ensures r.Ok? ==> |r.value| == n
    decreases node, 0, n
  {
    if n == 0 then Ok([])
    else
      var earlier :- PropertyResults(env, node, fields, path, n - 1);
      var p := RV.DeclaredProperties(node)[n - 1];
      var m :- ValidateNode(env, p.schema, Lookup(fields, p.name), path + [p.name]);
      Ok(earlier + [m])
  }

  /** `validateObject`: required, type, then the properties' results and the custom check. */
  function ValidateObject(env: Env, node: Node, value: Value, path: Path): (r: Result<ErrorMap>)
    requires node.ObjectNode?
    decreases node, 1
  {
    if node.common.required && IsNullish(value) then Ok(map[PathOrBody(path) := "is required"])
    else if value.Null? then Err(NullConstructor)
    else if !value.Undefined? && !RV.IsPlainObject(value) then Ok(map[PathOrBody(path) := "must be of type object"])
    else if value.Undefined? then Ok(map[])
    else
      var children :- PropertyResults(env, node, value.fields, path, |RV.DeclaredProperties(node)|);
      Ok(Merge(MergeAll(children), CustomCheck(env, node.common, PathOrBody(path), node, value)))
  }

  /**
   * The results of the first n elements, each validated against `properties` at `index-<i>`;
   * with no `properties` the first element throws (`undefined.type`).
   */
  function ElementResults(env: Env, node: Node, elems: seq<Value>, path: Path, n: nat): (r: Result<seq<ErrorMap>>)
    requires node.ArrayNode? && n <= |elems|
    ensures r.Ok? ==> |r.value| == n
    decreases node, 0, n
  {
    if n == 0 then Ok([])
    else
      var earlier :- ElementResults(env, node, elems, path, n - 1);
      if node.element.None? then Err(MissingElementSchema)
      else
        var m :- ValidateNode(env, node.element.value, elems[n - 1], path + [IndexSegment(n - 1)]);
        Ok(earlier + [m])
  }

  /** `validateArray`: required, type, then every element and the custom check. */
  function ValidateArray(env: Env, node: Node, value: Value, path: Path): (r: Result<ErrorMap>)
    requires node.ArrayNode?
    decreases node, 1
  {
    if node.common.required && IsNullish(value) then Ok(map[PathOrBody(path) := "is required"])
    else if !IsNullish(value) && !value.Arr? then Ok(map[PathOrBody(path) := "must be of type array"])
    else if value.Arr? then
      var results :- ElementResults(env, node, value.elems, path, |value.elems|);
      Ok(Merge(MergeAll(results), CustomCheck(env, node.common, PathOrBody(path), node, value)))
    else Ok(map[])
  }

  /** `validateString`: every falsy value counts as absent; the pattern message has no helper. */
  function ValidateString(env: Env, node: Node, value: Value, path: Path): (r: ErrorMap)
    requires node.StringNode?
    ensures r.Keys <= {Joined(path)} || r == CustomCheck(env, node.common, Joined(path), node, value)
  {
    var key := Joined(path);
    if !Truthy(value) then (if node.common.required then map[key := "is required"] else map[])
    else if !value.Str? then map[key := "must be of type string"]
    else if node.pattern != "" && !env.matches(node.pattern, value.s) then map[key := "does not match pattern"]
    else CustomCheck(env, node.common, key, node, value)
  }

  /**
   * `validateNumber`: only undefined counts as absent. The pattern is tested against the
   * value's string form, which for an absent value is "undefined"; the range never applies to
   * an absent value.
   */
  function ValidateNumber(env: Env, node: Node, value: Value, path: Path): (r: ErrorMap)
    requires node.NumberNode?
    ensures r.Keys <= {Joined(path)} || r == CustomCheck(env, node.common, Joined(path), node, value)
  {
    var key := Joined(path);
    if node.common.required && value.Undefined? then map[key := "is required"]
    else if !value.Undefined? && !value.Num? then map[key := "must be of type number"]
    else if node.pattern != "" && !env.matches(node.pattern, JsString(value)) then map[key := "does not match pattern"]
    else if value.Num? && BoundViolation(RangeWording, node.min, node.max, value.n).Some? then
      map[key := BoundViolation(RangeWording, node.min, node.max, value.n).value]
    else CustomCheck(env, node.common, key, node, value)
  }

  /** `validateBoolean`: only undefined counts as absent. */
  function ValidateBoolean(node: Node, value: Value, path: Path): (r: ErrorMap)
    requires node.BooleanNode?
    ensures r.Keys <= {Joined(path)}
    ensures |r| == 0 <==> value.Bool? || (value.Undefined? && !node.common.required)
  {
    var key := Joined(path);
    if node.common.required && value.Undefined? then map[key := "is required"]
    else if !value.Undefined? && !value.Bool? then map[key := "must be of type boolean"]
    else map[]
  }

  /** `validateRequest` on an already-parsed body: valid exactly when nothing is reported. */
  function ValidateRequest(env: Env, schema: Node, body: Value): (r: Result<RV.Outcome>)
    ensures r.Err? <==> ValidateNode(env, schema, body, []).Err?
    ensures r.Err? ==> r.fault == ValidateNode(env, schema, body, []).fault
    ensures r.Ok? ==> (r.value.valid <==> |ValidateNode(env, schema, body, []).value| == 0)
    ensures r.Ok? && !r.value.valid ==>
      r.value.validationResponse == Some(RV.MakeResponseFromErrors(ValidateNode(env, schema, body, []).value))
    ensures r.Ok? && r.value.valid ==> r.value.validationResponse.None?
  {
    var errors :- ValidateNode(env, schema, body, []);
    if |errors| == 0 then Ok(RV.Outcome(true, None))
    else Ok(RV.Outcome(false, Some(RV.MakeResponseFromErrors(errors))))
  }
}
