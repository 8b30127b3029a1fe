/**
 * The current validator is a conservative extension of the legacy one: on a schema that uses
 * none of the later additions, both produce the same result for every value.
 */
module Compatibility {
  import opened Text
  import opened Values
  import opened Paths
  import opened Schema
  import opened Duplicates
  import RV = RequestValidation
  import LV = LegacyValidation

  /**
   * A schema written for the legacy validator: no `mandatory`, no strict mode with declared
   * properties, no length bounds, uniqueness or `items` on arrays, which declare their element
   * schema, no options or pattern helper on strings and numbers, and a number pattern only on
   * a required number (the current validator throws on an absent optional number with one).
   */
  predicate LegacyCompatible(node: Node)
    decreases node
  {
    match node
    case ObjectNode(c, strict, propertiesSet, props) =>
      !c.mandatory && !(strict && propertiesSet) &&
      forall i :: 0 <= i < |props| ==> LegacyCompatible(props[i].schema)
    case ArrayNode(c, minLength, maxLength, u, items, element) =>
      !c.mandatory && minLength.None? && maxLength.None? && !UniqueActive(u) && items.None? &&
      element.Some? && LegacyCompatible(element.value)
    case StringNode(c, _, patternHelper, options, _) => !c.mandatory && patternHelper == "" && options == []
    case NumberNode(c, pattern, patternHelper, _, _, options) =>
      !c.mandatory && patternHelper == "" && options == [] && (pattern == "" || c.required)
    case BooleanNode(c) => !c.mandatory
    case IgnoreNode => true
    case UnknownNode(_) => true
  }

  /** Both validators agree on every node of a legacy-compatible schema. */
  lemma {:induction false} NodeAgrees(env: Env, node: Node, value: Value, path: Path)
    requires LegacyCompatible(node)
    ensures RV.ValidateNode(env, node, value, path) == LV.ValidateNode(env, node, value, path)
    decreases node, 2
  {
    match node
    case ObjectNode(_, _, _, _) => ObjectAgrees(env, node, value, path);
    case ArrayNode(_, _, _, _, _, _) => ArrayAgrees(env, node, value, path);
    case StringNode(_, _, _, _, _) =>
      assert "does not match pattern" + Helper(node.patternHelper) == "does not match pattern";
    case NumberNode(_, _, _, _, _, _) =>
      assert "does not match pattern" + Helper(node.patternHelper) == "does not match pattern";
      assert value.Num? ==> JsString(value) == IntToString(value.n);
    case BooleanNode(_) =>
    case IgnoreNode =>
    case UnknownNode(_) =>
  }

  lemma {:induction false} PropertiesAgree(env: Env, node: Node, fields: map<string, Value>, path: Path, n: nat)
    requires node.ObjectNode? && LegacyCompatible(node) && n <= |RV.DeclaredProperties(node)|
    ensures RV.PropertyResults(env, node, fields, path, n) == LV.PropertyResults(env, node, fields, path, n)
    decreases node, 0, n
  {
    if n > 0 {
      PropertiesAgree(env, node, fields, path, n - 1);
      var p := RV.DeclaredProperties(node)[n - 1];
      NodeAgrees(env, p.schema, Lookup(fields, p.name), path + [p.name]);
    }
  }

  lemma {:induction false} ObjectAgrees(env: Env, node: Node, value: Value, path: Path)
    requires node.ObjectNode? && LegacyCompatible(node)
    ensures RV.ValidateObject(env, node, value, path) == LV.ValidateObject(env, node, value, path)
    decreases node, 1
  {
    if value.Obj? {
      PropertiesAgree(env, node, value.fields, path, |RV.DeclaredProperties(node)|);
      var children := RV.PropertyResults(env, node, value.fields, path, |RV.DeclaredProperties(node)|);
      if children.Ok? {
        assert RV.StrictCheck(node, path, value.fields) == map[];
        assert Merge(MergeAll(children.value), map[]) == MergeAll(children.value);
      }
    }
  }

  lemma {:induction false} ElementsAgree(env: Env, node: Node, elems: seq<Value>, path: Path, n: nat)
    requires node.ArrayNode? && LegacyCompatible(node) && n <= |elems|
    ensures RV.ElementResults(env, node, elems, path, n) == LV.ElementResults(env, node, elems, path, n)
    decreases node, 0, n
  {
    if n > 0 {
      ElementsAgree(env, node, elems, path, n - 1);
      NodeAgrees(env, node.element.value, elems[n - 1], path + [IndexSegment(n - 1)]);
    }
  }

  lemma {:induction false} ArrayAgrees(env: Env, node: Node, value: Value, path: Path)
    requires node.ArrayNode? && LegacyCompatible(node)
    ensures RV.ValidateArray(env, node, value, path) == LV.ValidateArray(env, node, value, path)
    decreases node, 1
  {
    if value.Arr? {
      ElementsAgree(env, node, value.elems, path, |value.elems|);
    }
  }

  /** On a legacy-compatible schema both `validateRequest`s give the same outcome for every body. */
  lemma RequestAgrees(env: Env, schema: Node, body: Value)
    requires LegacyCompatible(schema)
    ensures RV.ValidateRequest(env, schema, body) == LV.ValidateRequest(env, schema, body)
  {
    NodeAgrees(env, schema, body, []);
  }
}
