/** Worked cases of the current validator on small schemas and bodies. */
module Examples {
  import opened Text
  import opened Values
  import opened Paths
  import opened Schema
  import opened Duplicates
  import opened RequestValidation

  const Optional := Common(false, false, None)
  const Required := Common(true, false, None)

  /** A required root object with no body: one `body` entry, and the request is invalid. */
  lemma MissingBody(env: Env)
    ensures ValidateRequest(env, ObjectNode(Required, false, false, []), Undefined)
      == Ok(Outcome(false, Some(MakeResponseFromErrors(map["body" := "is required"]))))
  {
  }

  /** Merging a single map, or merging with nothing, gives that map. */
  lemma MergeOne(m: ErrorMap)
    ensures MergeAll([m]) == m
    ensures Merge(m, map[]) == m
  {
    assert [m][..0] == [];
    assert Merge(map[], m) == m;
  }

  /** A required string `b` missing inside the object `a` is reported as `a.b`. */
  lemma NestedRequired(env: Env)
    ensures var inner := ObjectNode(Optional, false, true, [Property("b", StringNode(Required, "", "", [], ""))]);
      var schema := ObjectNode(Required, false, true, [Property("a", inner)]);
      ValidateNode(env, schema, Obj(map["a" := Obj(map[])]), []) == Ok(map["a.b" := "is required"])
  {
    var inner := ObjectNode(Optional, false, true, [Property("b", StringNode(Required, "", "", [], ""))]);
    var schema := ObjectNode(Required, false, true, [Property("a", inner)]);
    var m := map["a.b" := "is required"];
    MergeOne(m);
    assert ["a"] + ["b"] == ["a", "b"];
    assert Joined(["a", "b"]) == Joined(["a"]) + "." + "b" == "a.b";
    assert ValidateNode(env, StringNode(Required, "", "", [], ""), Undefined, ["a", "b"]) == Ok(m);
    assert [] + [m] == [m];
    assert PropertyResults(env, inner, map[], ["a"], 1) == Ok([m]);
    assert ValidateNode(env, inner, Obj(map[]), ["a"]) == Ok(m);
    assert [] + ["a"] == ["a"];
    assert PropertyResults(env, schema, map["a" := Obj(map[])], [], 1) == Ok([m]);
  }

  /** The strict-mode errors of the body {a: 1, c: 2} when only `a` is declared. */
  lemma UndeclaredC()
    ensures StrictErrors([], [Property("a", IgnoreNode)], map["a" := Num(1), "c" := Num(2)])
      == map["c" := "is not allowed on this object"]
  {
    var props := [Property("a", IgnoreNode)];
    var fields := map["a" := Num(1), "c" := Num(2)];
    var e := StrictErrors([], props, fields);
    assert "c" in e && e["c"] == "is not allowed on this object" by {
      StrictErrorsExact([], props, fields);
      assert Joined([] + ["c"]) == "c";
      assert props[0].name == "a";
    }
    assert forall k :: k in e ==> k == "c" by {
      forall k | k in e
        ensures k == "c"
      {
        var f :| f in fields && !Declared(props, f) && KeyPrefix([]) + f == k;
        assert props[0].name == "a";
      }
    }
  }

  /** In strict mode the field `c`, which is not declared, is reported as not allowed. */
  lemma StrictRejectsUndeclared(env: Env)
    ensures var schema := ObjectNode(Optional, true, true, [Property("a", IgnoreNode)]);
      ValidateNode(env, schema, Obj(map["a" := Num(1), "c" := Num(2)]), [])
        == Ok(map["c" := "is not allowed on this object"])
  {
    var schema := ObjectNode(Optional, true, true, [Property("a", IgnoreNode)]);
    var fields := map["a" := Num(1), "c" := Num(2)];
    UndeclaredC();
    var none: ErrorMap := map[];
    assert [] + [none] == [none];
    assert PropertyResults(env, schema, fields, [], 1) == Ok([none]);
    MergeOne(none);
    var e := map["c" := "is not allowed on this object"];
    assert Merge(map[], e) == e;
    assert Merge(e, map[]) == e;
  }

  /** The keys of the body [1, 1, 2, 1, 3] when the elements themselves are compared. */
  lemma RepeatedKeys(extract: Extractors)
    ensures EntryKeys(extract, UniqueSelf, [Num(1), Num(1), Num(2), Num(1), Num(3)], 5)
      == Ok([Some("1"), Some("1"), Some("2"), Some("1"), Some("3")])
  {
    var elems := [Num(1), Num(1), Num(2), Num(1), Num(3)];
    var keys := [Some("1"), Some("1"), Some("2"), Some("1"), Some("3")];
    assert NatToString(1) == [Digit(1)] == "1";
    assert NatToString(2) == [Digit(2)] == "2";
    assert NatToString(3) == [Digit(3)] == "3";
    forall i | 0 <= i < 5
      ensures EntryKey(extract, UniqueSelf, elems[i]) == Ok(keys[i])
    {
      assert elems[i] == Num(if i == 2 then 2 else if i == 4 then 3 else 1);
    }
    EntryKeysSpec(extract, UniqueSelf, elems, 5);
    assert EntryKeys(extract, UniqueSelf, elems, 5).value == keys;
  }

  /** In the keys of [1, 1, 2, 1, 3], exactly elements 1 and 3 repeat an earlier key. */
  lemma RepeatsOfOnes()
    ensures var keys := [Some("1"), Some("1"), Some("2"), Some("1"), Some("3")];
      IsRepeat(keys, 1) && IsRepeat(keys, 3) && forall i :: IsRepeat(keys, i) ==> i == 1 || i == 3
  {
    var keys := [Some("1"), Some("1"), Some("2"), Some("1"), Some("3")];
    assert keys[0] == keys[1] == keys[3];
    assert "2" != "1" && "3" != "1" && "3" != "2";
  }

  /** A map with exactly the two distinct keys a and b. */
  lemma TwoEntries(e: ErrorMap, a: string, b: string)
    requires a != b && a in e && b in e
    requires forall k :: k in e ==> k == a || k == b
    ensures e == map[a := e[a], b := e[b]]
  {
  }

  /** With exactly two repeated elements, the duplicate errors are their two entries. */
  lemma TwoDuplicates(keys: seq<Option<string>>, prefix: string, suffix: string, i1: nat, i2: nat)
    requires IsRepeat(keys, i1) && IsRepeat(keys, i2) && i1 != i2
    requires forall i :: IsRepeat(keys, i) ==> i == i1 || i == i2
    ensures DuplicateErrors(keys, prefix, suffix) ==
      map[DupPath(prefix, i1, suffix) := DupMessage(keys[i1].value), DupPath(prefix, i2, suffix) := DupMessage(keys[i2].value)]
  {
    var e := DuplicateErrors(keys, prefix, suffix);
    var a, b := DupPath(prefix, i1, suffix), DupPath(prefix, i2, suffix);
    DuplicateErrorsExact(keys, prefix, suffix);
    DupPathInjective(prefix, suffix);
    assert a != b;
    assert a in e && b in e;
    forall k | k in e
      ensures k == a || k == b
    {
      var i :| 0 <= i < |keys| && IsRepeat(keys, i) && k == DupPath(prefix, i, suffix);
    }
    TwoEntries(e, a, b);
  }

  /**
   * In [1, 1, 2, 1, 3] with `uniqueEntries: true`, the second and third 1 are duplicates and
   * nothing else is; the first occurrence is never reported.
   */
  lemma DuplicateOnes(extract: Extractors)
    ensures DuplicateCheck(extract, UniqueSelf, [Num(1), Num(1), Num(2), Num(1), Num(3)], [])
      == Ok(map["index-1" := "is a duplicate (1)", "index-3" := "is a duplicate (1)"])
  {
    var keys := [Some("1"), Some("1"), Some("2"), Some("1"), Some("3")];
    RepeatedKeys(extract);
    RepeatsOfOnes();
    TwoDuplicates(keys, "", "", 1, 3);
    assert NatToString(1) == [Digit(1)] == "1";
    assert NatToString(3) == [Digit(3)] == "3";
    assert DupPath("", 1, "") == "index-1" && DupPath("", 3, "") == "index-3";
    assert DupMessage(keys[1].value) == DupMessage(keys[3].value) == "is a duplicate (1)";
    assert KeyPrefix([]) == "" && Suffix(UniqueSelf) == "";
    assert DuplicateErrors(keys, "", "") == map["index-1" := "is a duplicate (1)", "index-3" := "is a duplicate (1)"];
  }

  /** The keys of [[1], [2]] compared by `length`: both arrays have length 1. */
  lemma LengthKeys(extract: Extractors)
    ensures EntryKeys(extract, UniqueBy("length"), [Arr([Num(1)]), Arr([Num(2)])], 2) == Ok([Some("1"), Some("1")])
  {
    var u := UniqueBy("length");
    var elems := [Arr([Num(1)]), Arr([Num(2)])];
    assert NatToString(1) == [Digit(1)] == "1";
    forall i | 0 <= i < 2
      ensures EntryKey(extract, u, elems[i]) == Ok(Some("1"))
    {
      assert CompareValue(extract, u, elems[i]) == Ok(Num(1));
    }
    EntryKeysSpec(extract, u, elems, 2);
    assert EntryKeys(extract, u, elems, 2).value == [Some("1"), Some("1")];
  }

  /** With exactly one repeated element, the duplicate errors are its one entry. */
  lemma OneDuplicate(keys: seq<Option<string>>, prefix: string, suffix: string, i1: nat)
    requires IsRepeat(keys, i1)
    requires forall i :: IsRepeat(keys, i) ==> i == i1
    ensures DuplicateErrors(keys, prefix, suffix) == map[DupPath(prefix, i1, suffix) := DupMessage(keys[i1].value)]
  {
    var e := DuplicateErrors(keys, prefix, suffix);
    var a := DupPath(prefix, i1, suffix);
    DuplicateErrorsExact(keys, prefix, suffix);
    assert a in e;
    forall k | k in e
      ensures k == a
    {
      var i :| 0 <= i < |keys| && IsRepeat(keys, i) && k == DupPath(prefix, i, suffix);
    }
  }

  /**
   * With `uniqueEntries: "length"`, the arrays [1] and [2] share the length 1, so the second is
   * reported under its `length` property.
   */
  lemma SameLength(extract: Extractors)
    ensures DuplicateCheck(extract, UniqueBy("length"), [Arr([Num(1)]), Arr([Num(2)])], [])
      == Ok(map["index-1.length" := "is a duplicate (1)"])
  {
    var keys := [Some("1"), Some("1")];
    LengthKeys(extract);
    assert keys[0] == keys[1];
    assert IsRepeat(keys, 1);
    assert forall i :: IsRepeat(keys, i) ==> i == 1;
    OneDuplicate(keys, "", ".length", 1);
    assert NatToString(1) == [Digit(1)] == "1";
    assert DupPath("", 1, ".length") == "index-1.length";
    assert DupMessage(keys[1].value) == "is a duplicate (1)";
    assert KeyPrefix([]) == "" && Suffix(UniqueBy("length")) == ".length";
  }

  /** A number below a two-sided range gets the combined message. */
  lemma OutOfRange(env: Env)
    ensures ValidateNumber(env, NumberNode(Optional, "", "", Some(2), Some(9), []), Num(1), ["n"])
      == Ok(map["n" := "must be between 2 and 9"])
  {
    assert NatToString(2) == [Digit(2)] == "2";
    assert NatToString(9) == [Digit(9)] == "9";
    var b := BoundViolation(RangeWording, Some(2), Some(9), 1);
    assert b.Some?;
    assert b.value == "must be between " + "2" + " and " + "9" == "must be between 2 and 9";
    assert Joined(["n"]) == "n";
  }

  /** A required array of length 1 against `minLength: 2, maxLength: 4` is reported at `body`. */
  lemma TooShort(env: Env)
    ensures var schema := ArrayNode(Required, Some(2), Some(4), NotUnique, None, Some(NumberNode(Required, "", "", None, None, [])));
      ValidateArray(env, schema, Arr([Num(1)]), []) == Ok(map["body" := "length must be between 2 and 4"])
  {
    assert NatToString(2) == [Digit(2)] == "2";
    assert NatToString(4) == [Digit(4)] == "4";
    var b := BoundViolation(LengthWording, Some(2), Some(4), 1);
    assert b.value == "length must be between " + "2" + " and " + "4" == "length must be between 2 and 4";
  }

  /** The whole array node of the body [1, 1, 2, 1, 3] reports only the two duplicates. */
  lemma DuplicateOnesReported(env: Env)
    ensures var schema := ArrayNode(Required, Some(2), None, UniqueSelf, None, Some(NumberNode(Required, "", "", None, None, [])));
      ValidateArray(env, schema, Arr([Num(1), Num(1), Num(2), Num(1), Num(3)]), [])
        == Ok(map["index-1" := "is a duplicate (1)", "index-3" := "is a duplicate (1)"])
  {
    DuplicateOnes(env.extract);
    assert "index-1" in map["index-1" := "is a duplicate (1)", "index-3" := "is a duplicate (1)"];
  }
}
