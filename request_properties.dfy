/** What the current validator promises about the maps it builds. */
module RequestProperties {
  import opened Text
  import opened Values
  import opened Paths
  import opened Schema
  import opened Duplicates
  import opened RequestValidation

  /** The declared properties' results exist exactly when no property's validation throws. */
  lemma {:induction false} PropertyResultsOk(env: Env, node: Node, fields: map<string, Value>, path: Path, n: nat)
    requires node.ObjectNode? && n <= |DeclaredProperties(node)|
    ensures var props := DeclaredProperties(node);
      PropertyResults(env, node, fields, path, n).Ok? <==>
        forall i :: 0 <= i < n ==> ValidateNode(env, props[i].schema, Lookup(fields, props[i].name), path + [props[i].name]).Ok?
  {
    if n > 0 {
      PropertyResultsOk(env, node, fields, path, n - 1);
      var p := DeclaredProperties(node)[n - 1];
      var last := ValidateNode(env, p.schema, Lookup(fields, p.name), path + [p.name]);
      assert PropertyResults(env, node, fields, path, n).Ok? <==>
        PropertyResults(env, node, fields, path, n - 1).Ok? && last.Ok?;
      if !PropertyResults(env, node, fields, path, n - 1).Ok? {
        var props := DeclaredProperties(node);
        var i :| 0 <= i < n - 1 && !ValidateNode(env, props[i].schema, Lookup(fields, props[i].name), path + [props[i].name]).Ok?;
      }
    }
  }

  /**
   * The declared properties are validated one by one, each against its own schema, with the
   * value of the same-named field, at the path extended by the property name.
   */
  lemma {:induction false} PropertyResultsValues(env: Env, node: Node, fields: map<string, Value>, path: Path, n: nat)
    requires node.ObjectNode? && n <= |DeclaredProperties(node)|
    requires PropertyResults(env, node, fields, path, n).Ok?
    ensures var props := DeclaredProperties(node);
      forall i :: 0 <= i < n ==>
        ValidateNode(env, props[i].schema, Lookup(fields, props[i].name), path + [props[i].name])
          == Ok(PropertyResults(env, node, fields, path, n).value[i])
  {
    if n > 0 {
      PropertyResultsValues(env, node, fields, path, n - 1);
    }
  }

  /** The elements' results exist exactly when no element's validation throws. */
  lemma {:induction false} ElementResultsOk(env: Env, node: Node, elems: seq<Value>, path: Path, n: nat)
    requires node.ArrayNode? && ElementSchema(node).Some? && n <= |elems|
    ensures ElementResults(env, node, elems, path, n).Ok? <==>
      forall i :: 0 <= i < n ==> ValidateNode(env, ElementSchema(node).value, elems[i], path + [IndexSegment(i)]).Ok?
  {
    if n > 0 {
      ElementResultsOk(env, node, elems, path, n - 1);
      var s := ElementSchema(node).value;
      var last := ValidateNode(env, s, elems[n - 1], path + [IndexSegment(n - 1)]);
      assert ElementResults(env, node, elems, path, n).Ok? <==>
        ElementResults(env, node, elems, path, n - 1).Ok? && last.Ok?;
      if ElementResults(env, node, elems, path, n).Ok? {
        forall i | 0 <= i < n
          ensures ValidateNode(env, s, elems[i], path + [IndexSegment(i)]).Ok?
        {
          if i < n - 1 {
            assert ValidateNode(env, s, elems[i], path + [IndexSegment(i)]).Ok?;
          }
        }
      } else if !ElementResults(env, node, elems, path, n - 1).Ok? {
        var i :| 0 <= i < n - 1 && !ValidateNode(env, s, elems[i], path + [IndexSegment(i)]).Ok?;
      }
    }
  }

  /**
   * The elements are validated one by one against the element schema (`items` when declared,
   * else `properties`), element i at the path extended by `index-<i>`.
   */
  lemma {:induction false} ElementResultsValues(env: Env, node: Node, elems: seq<Value>, path: Path, n: nat)
    requires node.ArrayNode? && ElementSchema(node).Some? && n <= |elems|
    requires ElementResults(env, node, elems, path, n).Ok?
    ensures forall i :: 0 <= i < n ==>
      ValidateNode(env, ElementSchema(node).value, elems[i], path + [IndexSegment(i)])
        == Ok(ElementResults(env, node, elems, path, n).value[i])
  {
    if n > 0 {
      ElementResultsValues(env, node, elems, path, n - 1);
    }
  }

  /** An element schema given as `items` wins over one given as `properties`. */
  lemma ItemsPreferred(node: Node)
    requires node.ArrayNode? && node.items.Some?
    ensures ElementSchema(node) == node.items
  {
  }

  /**
   * An object node's own checks, first applicable wins: a required absent value is reported
   * once at the path (or `body`), a present value that is not a plain object is reported once,
   * and an absent optional value yields nothing, whatever the custom checks would say.
   * An optional object given null throws, as `null.constructor` does.
   */
  lemma ObjectOwnChecks(env: Env, node: Node, value: Value, path: Path)
    requires node.ObjectNode?
    ensures IsRequired(node.common) && IsNullish(value) ==>
      ValidateObject(env, node, value, path) == Ok(map[PathOrBody(path) := "is required"])
    ensures !IsNullish(value) && !IsPlainObject(value) ==>
      ValidateObject(env, node, value, path) == Ok(map[PathOrBody(path) := "must be of type object"])
    ensures !IsRequired(node.common) && value.Undefined? ==>
      forall env': Env :: ValidateObject(env', node, value, path) == Ok(map[])
    ensures !IsRequired(node.common) && value.Null? ==> ValidateObject(env, node, value, path) == Err(NullConstructor)
  {
  }

  /**
   * The map of a plain object is assembled in order, a later part winning on a shared key:
   * the declared properties' results in declaration order, then the strict-mode errors, then
   * the custom check's map. Every key comes from one of those parts.
   */
  lemma {:induction false} ObjectMergeOrder(env: Env, node: Node, fields: map<string, Value>, path: Path)
    requires node.ObjectNode? && IsPlainObject(Obj(fields))
    requires ValidateObject(env, node, Obj(fields), path).Ok?
    ensures PropertyResults(env, node, fields, path, |DeclaredProperties(node)|).Ok?
    ensures var children := PropertyResults(env, node, fields, path, |DeclaredProperties(node)|).value;
      var strict := StrictCheck(node, path, fields);
      var custom := CustomCheck(env, node.common, PathOrBody(path), node, Obj(fields));
      var r := ValidateObject(env, node, Obj(fields), path).value;
      && (forall k :: k in r <==> (exists i :: 0 <= i < |children| && k in children[i]) || k in strict || k in custom)
      && (forall k :: k in custom ==> r[k] == custom[k])
      && (forall k :: k in strict && k !in custom ==> r[k] == strict[k])
      && (forall k, i :: LastWriter(children, k, i) && k !in strict && k !in custom ==> r[k] == children[i][k])
  {
    var children := PropertyResults(env, node, fields, path, |DeclaredProperties(node)|).value;
    MergeAllKeys(children);
  }

  /** Without `strict` and declared `properties`, no strict-mode error is ever produced. */
  lemma NoStrictErrorsUnlessStrict(node: Node, path: Path, fields: map<string, Value>)
    requires node.ObjectNode? && !(node.strict && node.propertiesSet)
    ensures StrictCheck(node, path, fields) == map[]
  {
  }

  /**
   * In strict mode, every field of the value that is not a declared property is reported at
   * its own path as not allowed, and no other key is.
   */
  lemma StrictReportsUndeclared(node: Node, path: Path, fields: map<string, Value>)
    requires node.ObjectNode? && node.strict && node.propertiesSet
    ensures forall k :: Joined(path + [k]) in StrictCheck(node, path, fields) <==>
      k in fields && !Declared(node.properties, k)
    ensures forall p :: p in StrictCheck(node, path, fields) ==>
      exists k :: k in fields && !Declared(node.properties, k) && p == Joined(path + [k])
    ensures forall k :: k in StrictCheck(node, path, fields) ==>
      StrictCheck(node, path, fields)[k] == "is not allowed on this object"
  {
    assert StrictCheck(node, path, fields) == StrictErrors(path, node.properties, fields);
    StrictErrorsExact(path, node.properties, fields);
  }

  /** The properties' results do not depend on fields that are not declared. */
  lemma {:induction false} PropertyResultsIgnoreField(env: Env, node: Node, fields: map<string, Value>, path: Path,
                                                      n: nat, k: string, v: Value)
    requires node.ObjectNode? && n <= |DeclaredProperties(node)| && !Declared(DeclaredProperties(node), k)
    ensures PropertyResults(env, node, fields[k := v], path, n) == PropertyResults(env, node, fields, path, n)
  {
    if n > 0 {
      PropertyResultsIgnoreField(env, node, fields, path, n - 1, k, v);
      var p := DeclaredProperties(node)[n - 1];
      assert p.name != k;
      assert Lookup(fields[k := v], p.name) == Lookup(fields, p.name);
    }
  }

  /**
   * A non-strict object without a custom check ignores undeclared fields: adding one (other
   * than a shadowing `constructor`) leaves the result unchanged.
   */
  lemma UndeclaredFieldIgnored(env: Env, node: Node, fields: map<string, Value>, path: Path, k: string, v: Value)
    requires node.ObjectNode? && !(node.strict && node.propertiesSet) && node.common.check.None?
    requires !Declared(DeclaredProperties(node), k) && k != "constructor"
    ensures ValidateObject(env, node, Obj(fields[k := v]), path) == ValidateObject(env, node, Obj(fields), path)
  {
    PropertyResultsIgnoreField(env, node, fields, path, |DeclaredProperties(node)|, k, v);
  }

  /**
   * An array node's own checks: a required absent value is reported once, an absent optional
   * value yields nothing, a present non-array is reported once, and a length-bound breach is
   * reported once with the bound's message, skipping uniqueness, elements and the custom check.
   */
  lemma ArrayOwnChecks(env: Env, node: Node, value: Value, path: Path)
    requires node.ArrayNode?
    ensures IsRequired(node.common) && IsNullish(value) ==>
      ValidateArray(env, node, value, path) == Ok(map[PathOrBody(path) := "is required"])
    ensures !IsRequired(node.common) && IsNullish(value) ==> ValidateArray(env, node, value, path) == Ok(map[])
    ensures !IsNullish(value) && !value.Arr? ==>
      ValidateArray(env, node, value, path) == Ok(map[PathOrBody(path) := "must be of type array"])
    ensures value.Arr? && BoundViolation(LengthWording, node.minLength, node.maxLength, |value.elems|).Some? ==>
      forall env': Env :: ValidateArray(env', node, value, path)
        == Ok(map[PathOrBody(path) := BoundViolation(LengthWording, node.minLength, node.maxLength, |value.elems|).value])
  {
  }

  /**
   * Duplicates found by the uniqueness check are the whole result: element validation and the
   * custom check are skipped, whatever they would report.
   */
  lemma DuplicatesSuppressElements(env: Env, node: Node, elems: seq<Value>, path: Path, check: (CheckId, string, Node, Value) -> ErrorMap)
    requires node.ArrayNode? && UniqueActive(node.uniqueEntries)
    ensures var dups := DuplicateCheck(env.extract, node.uniqueEntries, elems, path);
      BoundViolation(LengthWording, node.minLength, node.maxLength, |elems|).None? && dups.Ok? && |dups.value| > 0 ==>
        && ValidateArray(env, node, Arr(elems), path) == dups
        && ValidateArray(env.(check := check), node, Arr(elems), path) == dups
  {
  }

  /** Without an element schema the array's custom check is never called. */
  lemma NoElementSchemaNoCustomCheck(env: Env, node: Node, value: Value, path: Path, check: (CheckId, string, Node, Value) -> ErrorMap)
    requires node.ArrayNode? && ElementSchema(node).None?
    ensures ValidateArray(env.(check := check), node, value, path) == ValidateArray(env, node, value, path)
    ensures ValidateArray(env, node, value, path).Ok? ==>
      ValidateArray(env, node, value, path).value.Keys <= {PathOrBody(path)} ||
      ValidateArray(env, node, value, path) == DuplicateCheck(env.extract, node.uniqueEntries, value.elems, path)
  {
  }

  /**
   * The map of an array whose elements are walked (length in range, no duplicates, an element
   * schema): element i is validated at `index-<i>`, the element maps are merged in index order,
   * then the custom check's map, a later part winning on a shared key; every key comes from an
   * element or the custom check. An element that throws makes the array throw.
   */
  lemma {:induction false} ArrayMergeOrder(env: Env, node: Node, elems: seq<Value>, path: Path)
    requires node.ArrayNode? && ElementSchema(node).Some?
    ensures var walked := BoundViolation(LengthWording, node.minLength, node.maxLength, |elems|).None? &&
        UniquenessErrors(env.extract, node.uniqueEntries, elems, path) == Ok(map[]);
      var results := ElementResults(env, node, elems, path, |elems|);
      walked && results.Err? ==> ValidateArray(env, node, Arr(elems), path) == Err(results.fault)
    ensures var walked := BoundViolation(LengthWording, node.minLength, node.maxLength, |elems|).None? &&
        UniquenessErrors(env.extract, node.uniqueEntries, elems, path) == Ok(map[]);
      var results := ElementResults(env, node, elems, path, |elems|);
      walked && results.Ok? ==>
        var custom := CustomCheck(env, node.common, PathOrBody(path), node, Arr(elems));
        var r := ValidateArray(env, node, Arr(elems), path);
        && r.Ok?
        && (forall i :: 0 <= i < |elems| ==>
              ValidateNode(env, ElementSchema(node).value, elems[i], path + [IndexSegment(i)]) == Ok(results.value[i]))
        && (forall k :: k in r.value <==> (exists i :: 0 <= i < |elems| && k in results.value[i]) || k in custom)
        && (forall k :: k in custom ==> r.value[k] == custom[k])
        && (forall k, i :: LastWriter(results.value, k, i) && k !in custom ==> r.value[k] == results.value[i][k])
  {
    var results := ElementResults(env, node, elems, path, |elems|);
    if results.Ok? {
      ElementResultsValues(env, node, elems, path, |elems|);
      MergeAllKeys(results.value);
    }
  }

  /**
   * String, number and boolean nodes: the result is at most one entry, at the joined path with
   * no `body` fallback, unless it is the custom check's map returned as it is.
   */
  lemma ScalarAtMostOneEntry(env: Env, node: Node, value: Value, path: Path)
    requires node.StringNode? || node.NumberNode? || node.BooleanNode?
    ensures ValidateNode(env, node, value, path).Ok? ==>
      ValidateNode(env, node, value, path).value.Keys <= {Joined(path)} ||
      ValidateNode(env, node, value, path).value == CustomCheck(env, node.common, Joined(path), node, value)
  {
  }

  /**
   * A string node treats every falsy value as absent: with the node optional, "" (or 0, false,
   * null, undefined) is valid whatever the pattern, options and custom check.
   */
  lemma FalsyStringIsAbsent(env: Env, node: Node, value: Value, path: Path)
    requires node.StringNode? && !Truthy(value)
    ensures ValidateString(env, node, value, path) ==
      if IsRequired(node.common) then map[Joined(path) := "is required"] else map[]
  {
  }

  /** A number or boolean node treats only undefined as absent: null is a type error. */
  lemma NullIsNotAbsentForNumbersAndBooleans(env: Env, node: Node, path: Path)
    requires node.NumberNode? || node.BooleanNode?
    ensures node.NumberNode? ==> ValidateNumber(env, node, Null, path) == Ok(map[Joined(path) := "must be of type number"])
    ensures node.BooleanNode? ==> ValidateBoolean(node, Null, path) == map[Joined(path) := "must be of type boolean"]
  {
  }

  /**
   * A string node's checks, the first failing one deciding: absent (any falsy value), type,
   * pattern, options; only when all pass is the custom check's map returned, as it is. Each
   * outcome holds whatever the attributes and the custom check that come later in the order.
   */
  lemma StringChecksInOrder(env: Env, node: Node, value: Value, path: Path)
    requires node.StringNode?
    ensures !Truthy(value) ==>
      forall env': Env, pattern: string, helper: string, options: seq<Choice>, optionsHelper: string ::
        ValidateString(env', StringNode(node.common, pattern, helper, options, optionsHelper), value, path)
          == if IsRequired(node.common) then map[Joined(path) := "is required"] else map[]
    ensures Truthy(value) && !value.Str? ==>
      forall env': Env, pattern: string, helper: string, options: seq<Choice>, optionsHelper: string ::
        ValidateString(env', StringNode(node.common, pattern, helper, options, optionsHelper), value, path)
          == map[Joined(path) := "must be of type string"]
    ensures value.Str? && value.s != "" && node.pattern != "" && !env.matches(node.pattern, value.s) ==>
      forall check: (CheckId, string, Node, Value) -> ErrorMap, options: seq<Choice>, optionsHelper: string ::
        ValidateString(env.(check := check), StringNode(node.common, node.pattern, node.patternHelper, options, optionsHelper), value, path)
          == map[Joined(path) := "does not match pattern" + Helper(node.patternHelper)]
    ensures var passed := value.Str? && value.s != "" && (node.pattern == "" || env.matches(node.pattern, value.s));
      passed && |node.options| > 0 && !Listed(node.options, value.s) ==>
        forall check: (CheckId, string, Node, Value) -> ErrorMap ::
          ValidateString(env.(check := check), node, value, path)
            == map[Joined(path) := "not a valid option" + Helper(node.optionsHelper)]
    ensures var passed := value.Str? && value.s != "" && (node.pattern == "" || env.matches(node.pattern, value.s));
      passed && (|node.options| == 0 || Listed(node.options, value.s)) ==>
        ValidateString(env, node, value, path) == CustomCheck(env, node.common, Joined(path), node, value)
  {
  }

  /**
   * A number node's checks, the first failing one deciding: required (only undefined is
   * absent), type, pattern, range, options; only when all pass is the custom check's map
   * returned, as it is. An absent optional number with a pattern or options throws instead.
   */
  lemma NumberChecksInOrder(env: Env, node: Node, value: Value, path: Path)
    requires node.NumberNode?
    ensures IsRequired(node.common) && value.Undefined? ==>
      forall env': Env, pattern: string, helper: string, min: Option<int>, max: Option<int>, options: seq<Choice> ::
        ValidateNumber(env', NumberNode(node.common, pattern, helper, min, max, options), value, path)
          == Ok(map[Joined(path) := "is required"])
    ensures !value.Undefined? && !value.Num? ==>
      forall env': Env, pattern: string, helper: string, min: Option<int>, max: Option<int>, options: seq<Choice> ::
        ValidateNumber(env', NumberNode(node.common, pattern, helper, min, max, options), value, path)
          == Ok(map[Joined(path) := "must be of type number"])
    ensures !IsRequired(node.common) && value.Undefined? && (node.pattern != "" || |node.options| > 0) ==>
      forall env': Env :: ValidateNumber(env', node, value, path) == Err(ToStringOfUndefined)
    ensures value.Num? && node.pattern != "" && !env.matches(node.pattern, IntToString(value.n)) ==>
      forall check: (CheckId, string, Node, Value) -> ErrorMap, min: Option<int>, max: Option<int>, options: seq<Choice> ::
        ValidateNumber(env.(check := check), NumberNode(node.common, node.pattern, node.patternHelper, min, max, options), value, path)
          == Ok(map[Joined(path) := "does not match pattern" + Helper(node.patternHelper)])
    ensures var passed := value.Num? && (node.pattern == "" || env.matches(node.pattern, IntToString(value.n)));
      passed && BoundViolation(RangeWording, node.min, node.max, value.n).Some? ==>
        forall check: (CheckId, string, Node, Value) -> ErrorMap, options: seq<Choice> ::
          ValidateNumber(env.(check := check), NumberNode(node.common, node.pattern, node.patternHelper, node.min, node.max, options), value, path)
            == Ok(map[Joined(path) := BoundViolation(RangeWording, node.min, node.max, value.n).value])
    ensures var passed := value.Num? && (node.pattern == "" || env.matches(node.pattern, IntToString(value.n))) &&
        BoundViolation(RangeWording, node.min, node.max, value.n).None?;
      passed && |node.options| > 0 && !Listed(node.options, IntToString(value.n)) ==>
        forall check: (CheckId, string, Node, Value) -> ErrorMap ::
          ValidateNumber(env.(check := check), node, value, path) == Ok(map[Joined(path) := "not a valid option"])
    ensures var passed := value.Num? && (node.pattern == "" || env.matches(node.pattern, IntToString(value.n))) &&
        BoundViolation(RangeWording, node.min, node.max, value.n).None?;
      passed && (|node.options| == 0 || Listed(node.options, IntToString(value.n))) ==>
        ValidateNumber(env, node, value, path) == Ok(CustomCheck(env, node.common, Joined(path), node, value))
    ensures !IsRequired(node.common) && value.Undefined? && node.pattern == "" && |node.options| == 0 ==>
      ValidateNumber(env, node, value, path) == Ok(CustomCheck(env, node.common, Joined(path), node, value))
  {
  }

  /**
   * A boolean node: required (only undefined is absent), then type, and nothing else; its
   * custom check is never called, so neither the environment nor a `function` changes the result.
   */
  lemma BooleanChecks(env: Env, node: Node, value: Value, path: Path)
    requires node.BooleanNode?
    ensures IsRequired(node.common) && value.Undefined? ==>
      ValidateNode(env, node, value, path) == Ok(map[Joined(path) := "is required"])
    ensures !value.Undefined? && !value.Bool? ==>
      ValidateNode(env, node, value, path) == Ok(map[Joined(path) := "must be of type boolean"])
    ensures value.Bool? || (value.Undefined? && !IsRequired(node.common)) ==> ValidateNode(env, node, value, path) == Ok(map[])
    ensures forall env': Env, check: Option<CheckId> ::
      ValidateNode(env', BooleanNode(node.common.(check := check)), value, path) == ValidateNode(env, node, value, path)
  {
  }
}
