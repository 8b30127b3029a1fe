/** What the legacy validator promises about the maps it builds, and where it differs from the current one. */
module LegacyProperties {
  import opened Text
  import opened Values
  import opened Paths
  import opened Schema
  import RV = RequestValidation
  import opened LegacyValidation

  /**
   * A legacy object node's own checks, first applicable wins: a required absent value is
   * reported once, a present value that is not a plain object is reported once, an absent
   * optional value yields nothing, and an optional object given null throws. Only `required`
   * counts: `mandatory` is not read.
   */
  lemma ObjectOwnChecks(env: Env, node: Node, value: Value, path: Path)
    requires node.ObjectNode?
    ensures node.common.required && IsNullish(value) ==>
      ValidateObject(env, node, value, path) == Ok(map[PathOrBody(path) := "is required"])
    ensures !IsNullish(value) && !RV.IsPlainObject(value) ==>
      ValidateObject(env, node, value, path) == Ok(map[PathOrBody(path) := "must be of type object"])
    ensures !node.common.required && value.Undefined? ==>
      forall env': Env :: ValidateObject(env', node, value, path) == Ok(map[])
    ensures !node.common.required && value.Null? ==> ValidateObject(env, node, value, path) == Err(NullConstructor)
  {
  }

  /** The declared properties are validated one by one, each with its own field, at its own path. */
  lemma {:induction false} PropertyResultsValues(env: Env, node: Node, fields: map<string, Value>, path: Path, n: nat)
    requires node.ObjectNode? && n <= |RV.DeclaredProperties(node)|
    requires PropertyResults(env, node, fields, path, n).Ok?
    ensures var props := RV.DeclaredProperties(node);
      forall i :: 0 <= i < n ==>
        ValidateNode(env, props[i].schema, Lookup(fields, props[i].name), path + [props[i].name])
          == Ok(PropertyResults(env, node, fields, path, n).value[i])
  {
    if n > 0 {
      PropertyResultsValues(env, node, fields, path, n - 1);
    }
  }

  /**
   * The map of a plain object: the declared properties' results in declaration order, then the
   * custom check's map, a later part winning on a shared key. There is no strict mode, so every
   * key comes from a property or the custom check, even with `strict` set.
   */
  lemma {:induction false} ObjectMergeOrder(env: Env, node: Node, fields: map<string, Value>, path: Path)
    requires node.ObjectNode? && RV.IsPlainObject(Obj(fields))
    requires ValidateObject(env, node, Obj(fields), path).Ok?
    ensures PropertyResults(env, node, fields, path, |RV.DeclaredProperties(node)|).Ok?
    ensures var children := PropertyResults(env, node, fields, path, |RV.DeclaredProperties(node)|).value;
      var custom := CustomCheck(env, node.common, PathOrBody(path), node, Obj(fields));
      var r := ValidateObject(env, node, Obj(fields), path).value;
      && (forall k :: k in r <==> (exists i :: 0 <= i < |children| && k in children[i]) || k in custom)
      && (forall k :: k in custom ==> r[k] == custom[k])
      && (forall k, i :: LastWriter(children, k, i) && k !in custom ==> r[k] == children[i][k])
  {
    var children := PropertyResults(env, node, fields, path, |RV.DeclaredProperties(node)|).value;
    MergeAllKeys(children);
  }

  /** The elements are validated one by one against `properties`, element i at `index-<i>`. */
  lemma {:induction false} ElementResultsValues(env: Env, node: Node, elems: seq<Value>, path: Path, n: nat)
    requires node.ArrayNode? && node.element.Some? && n <= |elems|
    requires ElementResults(env, node, elems, path, n).Ok?
    ensures forall i :: 0 <= i < n ==>
      ValidateNode(env, node.element.value, elems[i], path + [IndexSegment(i)])
        == Ok(ElementResults(env, node, elems, path, n).value[i])
  {
    if n > 0 {
      ElementResultsValues(env, node, elems, path, n - 1);
    }
  }

  /** Without `properties`, validating the elements throws as soon as there is one. */
  lemma {:induction false} ElementResultsMissingSchema(env: Env, node: Node, elems: seq<Value>, path: Path, n: nat)
    requires node.ArrayNode? && node.element.None? && 0 < n <= |elems|
    ensures ElementResults(env, node, elems, path, n) == Err(MissingElementSchema)
  {
    if n > 1 {
      ElementResultsMissingSchema(env, node, elems, path, n - 1);
    }
  }

  /**
   * A legacy array node: a required absent value is reported once, a present non-array once,
   * and an array is always walked. Without `properties` a nonempty array throws; an empty one
   * yields exactly the custom check's map, which is merged whatever the elements report.
   */
  lemma ArrayChecks(env: Env, node: Node, value: Value, path: Path)
    requires node.ArrayNode?
    ensures node.common.required && IsNullish(value) ==>
      ValidateArray(env, node, value, path) == Ok(map[PathOrBody(path) := "is required"])
    ensures !node.common.required && IsNullish(value) ==> ValidateArray(env, node, value, path) == Ok(map[])
    ensures !IsNullish(value) && !value.Arr? ==>
      ValidateArray(env, node, value, path) == Ok(map[PathOrBody(path) := "must be of type array"])
    ensures value.Arr? && |value.elems| > 0 && node.element.None? ==>
      ValidateArray(env, node, value, path) == Err(MissingElementSchema)
    ensures value == Arr([]) ==>
      ValidateArray(env, node, value, path) == Ok(CustomCheck(env, node.common, PathOrBody(path), node, value))
    ensures value.Arr? && ValidateArray(env, node, value, path).Ok? ==>
      var custom := CustomCheck(env, node.common, PathOrBody(path), node, value);
      forall k :: k in custom ==>
        k in ValidateArray(env, node, value, path).value && ValidateArray(env, node, value, path).value[k] == custom[k]
  {
    if value.Arr? && |value.elems| > 0 && node.element.None? {
      ElementResultsMissingSchema(env, node, value.elems, path, |value.elems|);
    }
    if value == Arr([]) {
      assert Merge(map[], CustomCheck(env, node.common, PathOrBody(path), node, value))
        == CustomCheck(env, node.common, PathOrBody(path), node, value);
    }
  }

  /**
   * The map of a legacy array with `properties`: every element is walked, element i at
   * `index-<i>`, the element maps are merged in index order, then the custom check's map, a
   * later part winning on a shared key; every key comes from an element or the custom check.
   * An element that throws makes the array throw.
   */
  lemma {:induction false} ArrayMergeOrder(env: Env, node: Node, elems: seq<Value>, path: Path)
    requires node.ArrayNode? && node.element.Some?
    ensures var results := ElementResults(env, node, elems, path, |elems|);
      results.Err? ==> ValidateArray(env, node, Arr(elems), path) == Err(results.fault)
    ensures var results := ElementResults(env, node, elems, path, |elems|);
      results.Ok? ==>
        var custom := CustomCheck(env, node.common, PathOrBody(path), node, Arr(elems));
        var r := ValidateArray(env, node, Arr(elems), path);
        && r.Ok?
        && (forall i :: 0 <= i < |elems| ==>
              ValidateNode(env, node.element.value, elems[i], path + [IndexSegment(i)]) == Ok(results.value[i]))
        && (forall k :: k in r.value <==> (exists i :: 0 <= i < |elems| && k in results.value[i]) || k in custom)
        && (forall k :: k in custom ==> r.value[k] == custom[k])
        && (forall k, i :: LastWriter(results.value, k, i) && k !in custom ==> r.value[k] == results.value[i][k])
  {
    var results := ElementResults(env, node, elems, path, |elems|);
    if results.Ok? {
      ElementResultsValues(env, node, elems, path, |elems|);
      MergeAllKeys(results.value);
    }
  }

  /**
   * A legacy number node tests its pattern even on an absent optional value, against the
   * string "undefined", instead of throwing as the current validator does.
   */
  lemma AbsentNumberPattern(env: Env, node: Node, path: Path)
    requires node.NumberNode? && !node.common.required && node.pattern != ""
    ensures !env.matches(node.pattern, "undefined") ==>
      ValidateNumber(env, node, Undefined, path) == map[Joined(path) := "does not match pattern"]
    ensures env.matches(node.pattern, "undefined") ==>
      ValidateNumber(env, node, Undefined, path) == CustomCheck(env, node.common, Joined(path), node, Undefined)
  {
  }

  /**
   * String, number and boolean nodes: the result is at most one entry, at the joined path,
   * unless it is the custom check's map returned as it is.
   */
  lemma ScalarAtMostOneEntry(env: Env, node: Node, value: Value, path: Path)
    requires node.StringNode? || node.NumberNode? || node.BooleanNode?
    ensures ValidateNode(env, node, value, path).Ok?
    ensures ValidateNode(env, node, value, path).value.Keys <= {Joined(path)} ||
      ValidateNode(env, node, value, path).value == CustomCheck(env, node.common, Joined(path), node, value)
  {
  }

  /** A string node treats every falsy value as absent, whatever the pattern and custom check. */
  lemma FalsyStringIsAbsent(env: Env, node: Node, value: Value, path: Path)
    requires node.StringNode? && !Truthy(value)
    ensures ValidateString(env, node, value, path) ==
      if node.common.required then map[Joined(path) := "is required"] else map[]
  {
  }

  /** `mandatory` alone does not make a legacy node required, unlike in the current validator. */
  lemma MandatoryIgnored(env: Env, node: Node, path: Path)
    requires (node.ObjectNode? || node.ArrayNode? || node.BooleanNode?) && !node.common.required
    ensures ValidateNode(env, node, Undefined, path) == Ok(map[])
    ensures node.common.mandatory ==> RV.ValidateNode(env, node, Undefined, path) != Ok(map[])
  {
    if node.common.mandatory {
      var key := if node.BooleanNode? then Joined(path) else PathOrBody(path);
      assert RV.ValidateNode(env, node, Undefined, path) == Ok(map[key := "is required"]);
      assert key in map[key := "is required"];
    }
  }

  /**
   * A legacy string node's checks, the first failing one deciding: absent (any falsy value),
   * type, pattern; only when all pass is the custom check's map returned, as it is. The pattern
   * message has no helper, and options are never read.
   */
  lemma StringChecksInOrder(env: Env, node: Node, value: Value, path: Path)
    requires node.StringNode?
    ensures !Truthy(value) ==>
      forall env': Env, pattern: string, helper: string, options: seq<Choice>, optionsHelper: string ::
        ValidateString(env', StringNode(node.common, pattern, helper, options, optionsHelper), value, path)
          == if node.common.required then map[Joined(path) := "is required"] else map[]
    ensures Truthy(value) && !value.Str? ==>
      forall env': Env, pattern: string, helper: string, options: seq<Choice>, optionsHelper: string ::
        ValidateString(env', StringNode(node.common, pattern, helper, options, optionsHelper), value, path)
          == map[Joined(path) := "must be of type string"]
    ensures value.Str? && value.s != "" && node.pattern != "" && !env.matches(node.pattern, value.s) ==>
      forall check: (CheckId, string, Node, Value) -> ErrorMap, helper: string, options: seq<Choice>, optionsHelper: string ::
        ValidateString(env.(check := check), StringNode(node.common, node.pattern, helper, options, optionsHelper), value, path)
          == map[Joined(path) := "does not match pattern"]
    ensures value.Str? && value.s != "" && (node.pattern == "" || env.matches(node.pattern, value.s)) ==>
      ValidateString(env, node, value, path) == CustomCheck(env, node.common, Joined(path), node, value)
  {
  }

  /**
   * A legacy number node's checks, the first failing one deciding: required (only undefined is
   * absent), type, pattern (tested on the value's string form, "undefined" when absent), range
   * (a present value only); only when all pass is the custom check's map returned. Options are
   * never read, and nothing throws.
   */
  lemma NumberChecksInOrder(env: Env, node: Node, value: Value, path: Path)
    requires node.NumberNode?
    ensures node.common.required && value.Undefined? ==>
      forall env': Env, pattern: string, helper: string, min: Option<int>, max: Option<int>, options: seq<Choice> ::
        ValidateNumber(env', NumberNode(node.common, pattern, helper, min, max, options), value, path)
          == map[Joined(path) := "is required"]
    ensures !value.Undefined? && !value.Num? ==>
      forall env': Env, pattern: string, helper: string, min: Option<int>, max: Option<int>, options: seq<Choice> ::
        ValidateNumber(env', NumberNode(node.common, pattern, helper, min, max, options), value, path)
          == map[Joined(path) := "must be of type number"]
    ensures var present := value.Num? || (value.Undefined? && !node.common.required);
      present && node.pattern != "" && !env.matches(node.pattern, JsString(value)) ==>
        forall check: (CheckId, string, Node, Value) -> ErrorMap, helper: string, min: Option<int>, max: Option<int>,
               options: seq<Choice> ::
          ValidateNumber(env.(check := check), NumberNode(node.common, node.pattern, helper, min, max, options), value, path)
            == map[Joined(path) := "does not match pattern"]
    ensures var passed := value.Num? && (node.pattern == "" || env.matches(node.pattern, JsString(value)));
      passed && BoundViolation(RangeWording, node.min, node.max, value.n).Some? ==>
        forall check: (CheckId, string, Node, Value) -> ErrorMap, helper: string, options: seq<Choice> ::
          ValidateNumber(env.(check := check), NumberNode(node.common, node.pattern, helper, node.min, node.max, options), value, path)
            == map[Joined(path) := BoundViolation(RangeWording, node.min, node.max, value.n).value]
    ensures var present := value.Num? || (value.Undefined? && !node.common.required);
      present && (node.pattern == "" || env.matches(node.pattern, JsString(value))) &&
      (value.Num? ==> BoundViolation(RangeWording, node.min, node.max, value.n).None?) ==>
        ValidateNumber(env, node, value, path) == CustomCheck(env, node.common, Joined(path), node, value)
  {
  }

  /**
   * A legacy boolean node: required (only undefined is absent), then type, and nothing else;
   * its custom check is never called.
   */
  lemma BooleanChecks(env: Env, node: Node, value: Value, path: Path)
    requires node.BooleanNode?
    ensures node.common.required && value.Undefined? ==>
      ValidateNode(env, node, value, path) == Ok(map[Joined(path) := "is required"])
    ensures !value.Undefined? && !value.Bool? ==>
      ValidateNode(env, node, value, path) == Ok(map[Joined(path) := "must be of type boolean"])
    ensures value.Bool? || (value.Undefined? && !node.common.required) ==> ValidateNode(env, node, value, path) == Ok(map[])
    ensures forall env': Env, check: Option<CheckId> ::
      ValidateNode(env', BooleanNode(node.common.(check := check)), value, path) == ValidateNode(env, node, value, path)
  {
  }
}
