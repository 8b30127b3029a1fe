/**
 * Where errors are reported: without custom checks, every key of a node's error map names the
 * node itself or a node below it, so an error never lands outside the subtree it is about.
 */
module ErrorPaths {
  import opened Text
  import opened Values
  import opened Paths
  import opened Schema
  import opened Duplicates
  import opened RequestValidation
  import opened RequestProperties

  /**
   * The key names the node at path (`body` for the root object or array) or one below it. At
   * the root every key qualifies, so the property says something only about nested nodes:
   * there it confines a child's errors to the child's own subtree.
   */
  ghost predicate AtOrBelow(k: string, path: Path) {
    (path == [] && k == "body") || exists q: Path :: |path| <= |q| && q[..|path|] == path && k == Joined(q)
  }

  /** Every key of the map names the node at path or one below it. */
  ghost predicate AllBelow(m: ErrorMap, path: Path) {
    forall k :: k in m ==> AtOrBelow(k, path)
  }

  /** No node of the schema has a custom `function` check. */
  predicate CheckFree(node: Node)
    decreases node
  {
    match node
    case ObjectNode(c, _, _, props) => c.check.None? && forall i :: 0 <= i < |props| ==> CheckFree(props[i].schema)
    case ArrayNode(c, _, _, _, items, element) =>
      c.check.None? && (items.Some? ==> CheckFree(items.value)) && (element.Some? ==> CheckFree(element.value))
    case StringNode(c, _, _, _, _) => c.check.None?
    case NumberNode(c, _, _, _, _, _) => c.check.None?
    case BooleanNode(_) => true
    case IgnoreNode => true
    case UnknownNode(_) => true
  }

  lemma OwnKeysAtPath(path: Path)
    ensures AtOrBelow(PathOrBody(path), path)
    ensures AtOrBelow(Joined(path), path)
  {
    assert path[..|path|] == path;
  }

  lemma BelowChild(k: string, path: Path, segment: string)
    requires AtOrBelow(k, path + [segment])
    ensures AtOrBelow(k, path)
  {
    var child := path + [segment];
    var q: Path :| |child| <= |q| && q[..|child|] == child && k == Joined(q);
    assert q[..|path|] == child[..|path|] == path;
  }

  /** A strict-mode error names a field of the object. */
  lemma StrictKeyBelow(path: Path, field: string)
    ensures AtOrBelow(KeyPrefix(path) + field, path)
  {
    KeyPrefixJoins(path, field);
    OwnKeysAtPath(path + [field]);
    BelowChild(KeyPrefix(path) + field, path, field);
  }

  /** A duplicate error names an element of the array, or the compared property of one. */
  lemma DupKeyBelow(path: Path, i: nat, u: Unique)
    ensures AtOrBelow(DupPath(KeyPrefix(path), i, Suffix(u)), path)
  {
    var element := path + [IndexSegment(i)];
    var key := DupPath(KeyPrefix(path), i, Suffix(u));
    KeyPrefixJoins(path, IndexSegment(i));
    assert key == Joined(element) + Suffix(u);
    if u.UniqueBy? {
      JoinSnoc(element, ".", u.prop);
      assert key == Joined(element + [u.prop]);
      OwnKeysAtPath(element + [u.prop]);
      BelowChild(key, element, u.prop);
    } else {
      assert key == Joined(element);
      OwnKeysAtPath(element);
    }
    BelowChild(key, path, IndexSegment(i));
  }

  /** A check-free scalar node reports at most its own entry. */
  lemma ScalarBelow(env: Env, node: Node, value: Value, path: Path)
    requires (node.StringNode? || node.NumberNode? || node.BooleanNode?) && CheckFree(node)
    ensures ValidateNode(env, node, value, path).Ok? ==> AllBelow(ValidateNode(env, node, value, path).value, path)
  {
    ScalarAtMostOneEntry(env, node, value, path);
    if !node.BooleanNode? {
      assert CustomCheck(env, node.common, Joined(path), node, value) == map[];
    }
    OwnKeysAtPath(path);
  }

  /** Every error of a check-free node names the node or one below it. */
  lemma {:induction false} NodeErrorsBelow(env: Env, node: Node, value: Value, path: Path)
    requires CheckFree(node)
    ensures ValidateNode(env, node, value, path).Ok? ==> AllBelow(ValidateNode(env, node, value, path).value, path)
    decreases node, 2
  {
    match node
    case ObjectNode(_, _, _, _) => ObjectErrorsBelow(env, node, value, path);
    case ArrayNode(_, _, _, _, _, _) => ArrayErrorsBelow(env, node, value, path);
    case StringNode(_, _, _, _, _) => ScalarBelow(env, node, value, path);
    case NumberNode(_, _, _, _, _, _) => ScalarBelow(env, node, value, path);
    case BooleanNode(_) => ScalarBelow(env, node, value, path);
    case IgnoreNode =>
    case UnknownNode(_) =>
  }

  lemma PropertiesBelow(env: Env, node: Node, fields: map<string, Value>, path: Path)
    requires node.ObjectNode? && CheckFree(node)
    requires PropertyResults(env, node, fields, path, |DeclaredProperties(node)|).Ok?
    ensures var rs := PropertyResults(env, node, fields, path, |DeclaredProperties(node)|).value;
      forall i, k :: 0 <= i < |rs| && k in rs[i] ==> AtOrBelow(k, path)
    decreases node, 0
  {
    var props := DeclaredProperties(node);
    var rs := PropertyResults(env, node, fields, path, |props|).value;
    PropertyResultsValues(env, node, fields, path, |props|);
    forall i, k | 0 <= i < |rs| && k in rs[i]
      ensures AtOrBelow(k, path)
    {
      NodeErrorsBelow(env, props[i].schema, Lookup(fields, props[i].name), path + [props[i].name]);
      BelowChild(k, path, props[i].name);
    }
  }

  lemma MergeBelow(m1: ErrorMap, m2: ErrorMap, path: Path)
    requires AllBelow(m1, path) && AllBelow(m2, path)
    ensures AllBelow(Merge(m1, m2), path)
  {
  }

  lemma MergeAllBelow(rs: seq<ErrorMap>, path: Path)
    requires forall i, k :: 0 <= i < |rs| && k in rs[i] ==> AtOrBelow(k, path)
    ensures AllBelow(MergeAll(rs), path)
  {
    MergeAllKeys(rs);
  }

  /** Strict-mode errors name fields of the object. */
  lemma StrictBelow(node: Node, path: Path, fields: map<string, Value>)
    requires node.ObjectNode?
    ensures AllBelow(StrictCheck(node, path, fields), path)
  {
    forall k | k in StrictCheck(node, path, fields)
      ensures AtOrBelow(k, path)
    {
      var field :| field in fields && KeyPrefix(path) + field == k;
      StrictKeyBelow(path, field);
    }
  }

  /** A node's own entry, at its path or `body`, names the node. */
  lemma OwnEntryBelow(path: Path, message: string)
    ensures AllBelow(map[PathOrBody(path) := message], path)
    ensures AllBelow(map[Joined(path) := message], path)
  {
    OwnKeysAtPath(path);
  }

  lemma {:induction false} ObjectErrorsBelow(env: Env, node: Node, value: Value, path: Path)
    requires node.ObjectNode? && CheckFree(node)
    ensures ValidateObject(env, node, value, path).Ok? ==> AllBelow(ValidateObject(env, node, value, path).value, path)
    decreases node, 1
  {
    var r := ValidateObject(env, node, value, path);
    if IsRequired(node.common) && IsNullish(value) {
      OwnEntryBelow(path, "is required");
    } else if value.Null? {
    } else if !value.Undefined? && !IsPlainObject(value) {
      OwnEntryBelow(path, "must be of type object");
    } else if value.Undefined? {
    } else {
      var results := PropertyResults(env, node, value.fields, path, |DeclaredProperties(node)|);
      if results.Ok? {
        var children := results.value;
        var strict := StrictCheck(node, path, value.fields);
        PropertiesBelow(env, node, value.fields, path);
        MergeAllBelow(children, path);
        StrictBelow(node, path, value.fields);
        MergeBelow(MergeAll(children), strict, path);
        assert CustomCheck(env, node.common, PathOrBody(path), node, value) == map[];
        MergeBelow(Merge(MergeAll(children), strict), map[], path);
        assert r == Ok(Merge(Merge(MergeAll(children), strict), map[]));
      }
    }
  }

  lemma ElementsBelow(env: Env, node: Node, elems: seq<Value>, path: Path)
    requires node.ArrayNode? && CheckFree(node) && ElementSchema(node).Some?
    requires ElementResults(env, node, elems, path, |elems|).Ok?
    ensures var rs := ElementResults(env, node, elems, path, |elems|).value;
      forall i, k :: 0 <= i < |rs| && k in rs[i] ==> AtOrBelow(k, path)
    decreases node, 0
  {
    var rs := ElementResults(env, node, elems, path, |elems|).value;
    ElementResultsValues(env, node, elems, path, |elems|);
    forall i, k | 0 <= i < |rs| && k in rs[i]
      ensures AtOrBelow(k, path)
    {
      NodeErrorsBelow(env, ElementSchema(node).value, elems[i], path + [IndexSegment(i)]);
      BelowChild(k, path, IndexSegment(i));
    }
  }

  /** Duplicate errors name elements of the array, or the compared property of one. */
  lemma DupsBelow(extract: Extractors, u: Unique, elems: seq<Value>, path: Path)
    requires DuplicateCheck(extract, u, elems, path).Ok?
    ensures AllBelow(DuplicateCheck(extract, u, elems, path).value, path)
  {
    var keys := EntryKeys(extract, u, elems, |elems|).value;
    DuplicateErrorsExact(keys, KeyPrefix(path), Suffix(u));
    forall k | k in DuplicateErrors(keys, KeyPrefix(path), Suffix(u))
      ensures AtOrBelow(k, path)
    {
      var i :| 0 <= i < |keys| && IsRepeat(keys, i) && k == DupPath(KeyPrefix(path), i, Suffix(u));
      DupKeyBelow(path, i, u);
    }
  }

  lemma {:induction false} ArrayErrorsBelow(env: Env, node: Node, value: Value, path: Path)
    requires node.ArrayNode? && CheckFree(node)
    ensures ValidateArray(env, node, value, path).Ok? ==> AllBelow(ValidateArray(env, node, value, path).value, path)
    decreases node, 1
  {
    var r := ValidateArray(env, node, value, path);
    if IsRequired(node.common) && IsNullish(value) {
      OwnEntryBelow(path, "is required");
    } else if IsNullish(value) {
    } else if !value.Arr? {
      OwnEntryBelow(path, "must be of type array");
    } else {
      var bound := BoundViolation(LengthWording, node.minLength, node.maxLength, |value.elems|);
      if bound.Some? {
        OwnEntryBelow(path, bound.value);
        assert r == Ok(map[PathOrBody(path) := bound.value]);
      } else {
        var dups := UniquenessErrors(env.extract, node.uniqueEntries, value.elems, path);
        if dups.Ok? && |dups.value| > 0 {
          DupsBelow(env.extract, node.uniqueEntries, value.elems, path);
          assert r == dups;
        } else if dups.Ok? && ElementSchema(node).Some? {
          var results := ElementResults(env, node, value.elems, path, |value.elems|);
          if results.Ok? {
            ElementsBelow(env, node, value.elems, path);
            MergeAllBelow(results.value, path);
            assert CustomCheck(env, node.common, PathOrBody(path), node, value) == map[];
            MergeBelow(MergeAll(results.value), map[], path);
            assert r == Ok(Merge(MergeAll(results.value), map[]));
          }
        }
      }
    }
  }
}
