/**
 * The `uniqueEntries` check of an array node: every element gets a comparison key, elements are
 * grouped by key, and every member of a group except the first is reported as a duplicate.
 */
module Duplicates {
  import opened Text
  import opened Values
  import opened Paths
  import opened Schema

  /** `if (schemaNode.uniqueEntries)`: false, unset and the empty property name switch it off. */
  predicate UniqueActive(u: Unique) {
    match u
    case NotUnique => false
    case UniqueBy(prop) => prop != ""
    case _ => true
  }

  /** What follows a duplicate's index in its key: `.prop` when uniqueEntries names a property. */
  function Suffix(u: Unique): string {
    if u.UniqueBy? then "." + u.prop else ""
  }

  /** What an element is compared by: `o[prop]`, the extractor's result, or the element itself. */
  function CompareValue(extract: Extractors, u: Unique, o: Value): (r: Result<Value>)
    ensures r.Err? <==> u.UniqueBy? && IsNullish(o)
    ensures r.Err? ==> r.fault == PropertyOfNullish
    ensures u.UniqueBy? && o.Obj? ==> r == Ok(Lookup(o.fields, u.prop))
    ensures u.UniqueBy? && u.prop == "length" && o.Arr? ==> r == Ok(Num(|o.elems|))
    ensures u.UniqueBy? && u.prop == "length" && o.Str? ==> r == Ok(Num(|o.s|))
    ensures u.UniqueBy? && (o.Bool? || o.Num?) ==> r == Ok(Undefined)
    ensures u.UniqueVia? ==> r == Ok(extract(u.extractor, o))
    ensures u.UniqueSelf? ==> r == Ok(o)
  {
    match u
    case UniqueBy(prop) =>
      if IsNullish(o) then Err(PropertyOfNullish)
      else Ok(OwnProperty(o, prop))
    case UniqueVia(id) => Ok(extract(id, o))
    case _ => Ok(o)
  }

  /** The group an element joins (`acc[value]`), or None when its compare value is falsy. */
  function EntryKey(extract: Extractors, u: Unique, o: Value): Result<Option<string>> {
    var v :- CompareValue(extract, u, o);
    Ok(if Truthy(v) then Some(JsString(v)) else None)
  }

  /** The keys of the first n elements, or the fault of the first element that has none. */
  function EntryKeys(extract: Extractors, u: Unique, elems: seq<Value>, n: nat): (r: Result<seq<Option<string>>>)
    requires n <= |elems|
    ensures r.Err? ==> r.fault == PropertyOfNullish
    ensures r.Ok? ==> |r.value| == n
  {
    if n == 0 then Ok([])
    else
      var keys :- EntryKeys(extract, u, elems, n - 1);
      var k :- EntryKey(extract, u, elems[n - 1]);
      Ok(keys + [k])
  }

  /** The keys exist exactly when every element has one, and they are the elements' keys in order. */
  lemma {:induction false} EntryKeysSpec(extract: Extractors, u: Unique, elems: seq<Value>, n: nat)
    requires n <= |elems|
    ensures EntryKeys(extract, u, elems, n).Ok? <==> forall i :: 0 <= i < n ==> EntryKey(extract, u, elems[i]).Ok?
    ensures EntryKeys(extract, u, elems, n).Ok? ==>
      forall i :: 0 <= i < n ==> EntryKey(extract, u, elems[i]) == Ok(EntryKeys(extract, u, elems, n).value[i])
  {
    if n > 0 {
      EntryKeysSpec(extract, u, elems, n - 1);
    }
  }

  /** An element without a key makes the whole key list fail. */
  lemma {:induction false} EntryKeysErr(extract: Extractors, u: Unique, elems: seq<Value>, i: nat, n: nat)
    requires i < n <= |elems| && EntryKey(extract, u, elems[i]).Err?
    ensures EntryKeys(extract, u, elems, n).Err?
  {
    if i < n - 1 {
      EntryKeysErr(extract, u, elems, i, n - 1);
    }
  }

  /** The indices carrying key k, ascending: the list `acc[k]` that the grouping pass builds. */
  function Positions(keys: seq<Option<string>>, k: string): seq<int> {
    if |keys| == 0 then []
    else Positions(keys[..|keys| - 1], k) + (if keys[|keys| - 1] == Some(k) then [|keys| - 1] else [])
  }

  /** Every listed index is an index of keys whose key is k. */
  lemma {:induction false} PositionsBounds(keys: seq<Option<string>>, k: string)
    ensures forall m :: 0 <= m < |Positions(keys, k)| ==>
      0 <= Positions(keys, k)[m] < |keys| && keys[Positions(keys, k)[m]] == Some(k)
  {
    if |keys| > 0 {
      var init := keys[..|keys| - 1];
      PositionsBounds(init, k);
      var q := Positions(init, k);
      forall m | 0 <= m < |q|
        ensures Positions(keys, k)[m] == q[m] && keys[q[m]] == Some(k)
      {
        assert init[q[m]] == keys[q[m]];
      }
    }
  }

  /** The listed indices ascend strictly. */
  lemma {:induction false} PositionsAscending(keys: seq<Option<string>>, k: string)
    ensures forall m, m' :: 0 <= m < m' < |Positions(keys, k)| ==> Positions(keys, k)[m] < Positions(keys, k)[m']
  {
    if |keys| > 0 {
      var init := keys[..|keys| - 1];
      PositionsAscending(init, k);
      PositionsBounds(init, k);
      var q := Positions(init, k);
      var p := Positions(keys, k);
      forall m, m' | 0 <= m < m' < |p|
        ensures p[m] < p[m']
      {
        if m' < |q| {
          assert p[m] == q[m] && p[m'] == q[m'];
        } else {
          assert p[m] == q[m] < |init| == p[m'];
        }
      }
    }
  }

  /** Every index whose key is k is listed. */
  lemma {:induction false} PositionsComplete(keys: seq<Option<string>>, k: string)
    ensures forall j :: 0 <= j < |keys| && keys[j] == Some(k) ==> j in Positions(keys, k)
  {
    if |keys| > 0 {
      var init := keys[..|keys| - 1];
      PositionsComplete(init, k);
      var q := Positions(init, k);
      var p := Positions(keys, k);
      forall j | 0 <= j < |keys| && keys[j] == Some(k)
        ensures j in p
      {
        if j < |init| {
          assert init[j] == keys[j];
          assert j in q;
          assert p == q + p[|q|..];
        } else {
          assert p[|p| - 1] == j;
        }
      }
    }
  }

  /** Positions lists, in ascending order, exactly the indices whose key is k. */
  lemma PositionsSpec(keys: seq<Option<string>>, k: string)
    ensures forall m :: 0 <= m < |Positions(keys, k)| ==>
      0 <= Positions(keys, k)[m] < |keys| && keys[Positions(keys, k)[m]] == Some(k)
    ensures forall m, m' :: 0 <= m < m' < |Positions(keys, k)| ==> Positions(keys, k)[m] < Positions(keys, k)[m']
    ensures forall j :: 0 <= j < |keys| && keys[j] == Some(k) ==> j in Positions(keys, k)
  {
    PositionsBounds(keys, k);
    PositionsAscending(keys, k);
    PositionsComplete(keys, k);
  }

  /** groups maps every key that occurs, and no other, to the ascending list of its indices. */
  ghost predicate Grouped(groups: map<string, seq<int>>, keys: seq<Option<string>>) {
    forall k :: (if k in groups then groups[k] else []) == Positions(keys, k)
  }

  /** Element i has a truthy key that an earlier element already had. */
  predicate IsRepeat(keys: seq<Option<string>>, i: int) {
    0 <= i < |keys| && keys[i].Some? && exists j :: 0 <= j < i && keys[j] == keys[i]
  }

  /** The indices that are reported as duplicates. */
  function FlaggedSet(keys: seq<Option<string>>): set<int> {
    set i | 0 <= i < |keys| && IsRepeat(keys, i)
  }

  /** The key of a duplicate: `<prefix>index-<i><suffix>`. */
  function DupPath(prefix: string, i: nat, suffix: string): string {
    prefix + IndexSegment(i) + suffix
  }

  /** `is a duplicate (<key>)`. */
  function DupMessage(k: string): string {
    "is a duplicate (" + k + ")"
  }

  /** Distinct indices give distinct duplicate keys. */
  lemma DupPathInjective(prefix: string, suffix: string)
    ensures forall i: nat, j: nat :: DupPath(prefix, i, suffix) == DupPath(prefix, j, suffix) ==> i == j
  {
    forall i: nat, j: nat | DupPath(prefix, i, suffix) == DupPath(prefix, j, suffix)
      ensures i == j
    {
      var s := DupPath(prefix, i, suffix);
      var si, sj := IndexSegment(i), IndexSegment(j);
      assert |si| == |sj|;
      assert si == s[|prefix|..|prefix| + |si|];
      assert sj == s[|prefix|..|prefix| + |sj|];
      IndexSegmentInjective(i, j);
    }
  }

  /** The error entries of a set of duplicate indices. */
  function Reported(keys: seq<Option<string>>, s: set<int>, prefix: string, suffix: string): ErrorMap {
    DupPathInjective(prefix, suffix);
    map i | i in s && 0 <= i < |keys| && keys[i].Some? :: DupPath(prefix, i, suffix) := DupMessage(keys[i].value)
  }

  /** The duplicate errors: the entries of every flagged index. */
  function DuplicateErrors(keys: seq<Option<string>>, prefix: string, suffix: string): ErrorMap {
    Reported(keys, FlaggedSet(keys), prefix, suffix)
  }

  /**
   * Element i is reported, at its own key and naming its group's key, exactly when an earlier
   * element has the same truthy key: first occurrences and elements with a falsy key are never
   * reported, and nothing else is.
   */
  lemma DuplicateErrorsExact(keys: seq<Option<string>>, prefix: string, suffix: string)
    ensures var errors := DuplicateErrors(keys, prefix, suffix);
      forall i :: 0 <= i < |keys| ==> (DupPath(prefix, i, suffix) in errors <==> IsRepeat(keys, i))
    ensures var errors := DuplicateErrors(keys, prefix, suffix);
      forall i :: 0 <= i < |keys| && IsRepeat(keys, i) ==> errors[DupPath(prefix, i, suffix)] == DupMessage(keys[i].value)
    ensures var errors := DuplicateErrors(keys, prefix, suffix);
      forall p :: p in errors ==> exists i :: 0 <= i < |keys| && IsRepeat(keys, i) && p == DupPath(prefix, i, suffix)
  {
    DupPathInjective(prefix, suffix);
  }

  /** The uniqueness check of an array node whose value is the array elems, at path. */
  function DuplicateCheck(extract: Extractors, u: Unique, elems: seq<Value>, path: Path): Result<ErrorMap> {
    var keys :- EntryKeys(extract, u, elems, |elems|);
    Ok(DuplicateErrors(keys, KeyPrefix(path), Suffix(u)))
  }

  lemma PositionsSnoc(keys: seq<Option<string>>, key: Option<string>, k: string)
    ensures Positions(keys + [key], k) == Positions(keys, k) + (if key == Some(k) then [|keys|] else [])
  {
    assert (keys + [key])[..|keys|] == keys;
  }

  /** The keys of one more element. */
  lemma EntryKeysSnoc(extract: Extractors, u: Unique, elems: seq<Value>, n: nat, keys: seq<Option<string>>)
    requires n < |elems| && EntryKeys(extract, u, elems, n) == Ok(keys)
    requires EntryKey(extract, u, elems[n]).Ok?
    ensures EntryKeys(extract, u, elems, n + 1) == Ok(keys + [EntryKey(extract, u, elems[n]).value])
  {
  }

  /** One step of the grouping pass keeps the groups exact. */
  lemma GroupedSnoc(groups: map<string, seq<int>>, keys: seq<Option<string>>, key: Option<string>,
                    groups': map<string, seq<int>>)
    requires Grouped(groups, keys)
    requires key.None? ==> groups' == groups
    requires key.Some? ==>
      groups' == groups[key.value := (if key.value in groups then groups[key.value] else []) + [|keys|]]
    ensures Grouped(groups', keys + [key])
  {
    forall k {
      PositionsSnoc(keys, key, k);
    }
  }

  /** Only the first index of a group is not a repeat. */
  lemma PositionsRepeat(keys: seq<Option<string>>, k: string)
    ensures forall m :: 0 <= m < |Positions(keys, k)| ==> (IsRepeat(keys, Positions(keys, k)[m]) <==> m > 0)
  {
    var p := Positions(keys, k);
    PositionsSpec(keys, k);
    forall m | 0 <= m < |p|
      ensures IsRepeat(keys, p[m]) <==> m > 0
    {
      if m > 0 {
        assert keys[p[0]] == keys[p[m]] && p[0] < p[m];
      } else {
        forall j | 0 <= j < p[0]
          ensures keys[j] != keys[p[0]]
        {
        }
      }
    }
  }

  /** The groups the grouping pass has built after visiting the elements whose keys are keys. */
  function Groups(keys: seq<Option<string>>): map<string, seq<int>> {
    if |keys| == 0 then map[]
    else
      var g := Groups(keys[..|keys| - 1]);
      var key := keys[|keys| - 1];
      if key.Some? then g[key.value := (if key.value in g then g[key.value] else []) + [|keys| - 1]] else g
  }

  /** Visiting one more element appends its index to its key's group, if it has a key. */
  lemma GroupsSnoc(keys: seq<Option<string>>, key: Option<string>)
    ensures var g := Groups(keys);
      Groups(keys + [key]) == if key.Some? then g[key.value := (if key.value in g then g[key.value] else []) + [|keys|]] else g
  {
    assert (keys + [key])[..|keys|] == keys;
  }

  /** The grouping pass groups exactly: every key that occurs, with all of its indices in order. */
  lemma {:induction false} GroupsExact(keys: seq<Option<string>>)
    ensures Grouped(Groups(keys), keys)
  {
    if |keys| > 0 {
      var init := keys[..|keys| - 1];
      GroupsExact(init);
      assert keys == init + [keys[|keys| - 1]];
      GroupedSnoc(Groups(init), init, keys[|keys| - 1], Groups(keys));
    }
  }

  /**
   * The grouping pass: for every element with a truthy key, append its index to that key's
   * list (`acc[value] = acc[value] || []; acc[value].push(i)`).
   */
  method GroupIndices(extract: Extractors, u: Unique, elems: seq<Value>) returns (r: Result<map<string, seq<int>>>)
    ensures r.Err? <==> EntryKeys(extract, u, elems, |elems|).Err?
    ensures r.Err? ==> r.fault == PropertyOfNullish
    ensures r.Ok? ==> r.value == Groups(EntryKeys(extract, u, elems, |elems|).value)
  {
    var groups: map<string, seq<int>> := map[];
    ghost var keys: seq<Option<string>> := [];
    var i := 0;
    while i < |elems|
      invariant 0 <= i <= |elems|
      invariant |keys| == i
      invariant EntryKeys(extract, u, elems, i) == Ok(keys)
      invariant groups == Groups(keys)
    {
      var key := EntryKey(extract, u, elems[i]);
      if key.Err? {
        EntryKeysErr(extract, u, elems, i, |elems|);
        return Err(key.fault);
      }
      if key.value.Some? {
        var k := key.value.value;
        var list := if k in groups then groups[k] else [];
        groups := groups[k := list + [i]];
      }
      EntryKeysSnoc(extract, u, elems, i, keys);
      GroupsSnoc(keys, key.value);
      keys := keys + [key.value];
      i := i + 1;
    }
    r := Ok(groups);
  }

  /** The duplicates whose key the reporting pass has finished with. */
  ghost function Done(keys: seq<Option<string>>, pending: set<string>): set<int> {
    set i | 0 <= i < |keys| && IsRepeat(keys, i) && keys[i].value !in pending
  }

  /** The members of a group after the first, up to (not including) position n. */
  ghost function Tail(indices: seq<int>, n: int): set<int> {
    set j | 1 <= j < n && j < |indices| :: indices[j]
  }

  /** Finishing key k moves exactly the members of its group after the first into Done. */
  lemma GroupDone(keys: seq<Option<string>>, k: string, pending: set<string>)
    ensures Done(keys, pending - {k}) == Done(keys, pending) + Tail(Positions(keys, k), |Positions(keys, k)|)
  {
    var p := Positions(keys, k);
    PositionsSpec(keys, k);
    PositionsRepeat(keys, k);
    forall i | i in Done(keys, pending - {k}) && i !in Done(keys, pending)
      ensures i in Tail(p, |p|)
    {
      assert i in p;
      var m :| 0 <= m < |p| && p[m] == i;
    }
  }

  /** Position n of key k's group is a duplicate not yet reported. */
  lemma ReportStep(keys: seq<Option<string>>, k: string, pending: set<string>, n: nat)
    requires k in pending
    requires 1 <= n < |Positions(keys, k)|
    ensures var x := Positions(keys, k)[n];
      && 0 <= x < |keys| && keys[x] == Some(k)
      && x !in Done(keys, pending) + Tail(Positions(keys, k), n)
      && Tail(Positions(keys, k), n + 1) == Tail(Positions(keys, k), n) + {x}
  {
    var p := Positions(keys, k);
    PositionsSpec(keys, k);
    assert Tail(p, n + 1) == Tail(p, n) + {p[n]};
  }

  lemma ReportedAdd(keys: seq<Option<string>>, s: set<int>, x: nat, prefix: string, suffix: string)
    requires x < |keys| && keys[x].Some? && x !in s
    ensures Reported(keys, s + {x}, prefix, suffix)
         == Reported(keys, s, prefix, suffix)[DupPath(prefix, x, suffix) := DupMessage(keys[x].value)]
  {
    DupPathInjective(prefix, suffix);
  }

  /**
   * One group of the reporting pass: every index of key k's group but the first gets
   * `is a duplicate (<k>)` at its key, which completes the group.
   */
  method ReportGroup(indices: seq<int>, k: string, ghost keys: seq<Option<string>>, ghost pending: set<string>,
                     prefix: string, suffix: string, errors0: ErrorMap)
    returns (errors: ErrorMap)
    requires k in pending && indices == Positions(keys, k)
    requires errors0 == Reported(keys, Done(keys, pending), prefix, suffix)
    ensures errors == Reported(keys, Done(keys, pending - {k}), prefix, suffix)
  {
    errors := errors0;
    ghost var reported := Done(keys, pending);
    if |indices| > 1 {
      var n := 1;
      while n < |indices|
        invariant 1 <= n <= |indices|
        invariant reported == Done(keys, pending) + Tail(indices, n)
        invariant errors == Reported(keys, reported, prefix, suffix)
      {
        var x := indices[n];
        ReportStep(keys, k, pending, n);
        ReportedAdd(keys, reported, x, prefix, suffix);
        errors := errors[DupPath(prefix, x, suffix) := DupMessage(k)];
        reported := reported + {x};
        n := n + 1;
      }
    } else {
      assert Tail(indices, |indices|) == {};
    }
    GroupDone(keys, k, pending);
  }

  /**
   * The reporting pass: for every group with more than one index, every index but the first
   * gets `is a duplicate (<key>)` at its key.
   */
  method ReportDuplicates(groups: map<string, seq<int>>, ghost keys: seq<Option<string>>, prefix: string, suffix: string)
    returns (errors: ErrorMap)
    requires Grouped(groups, keys)
    ensures errors == DuplicateErrors(keys, prefix, suffix)
  {
    errors := map[];
    var pending := groups.Keys;
    forall i | 0 <= i < |keys| && keys[i].Some?
      ensures keys[i].value in pending
    {
      PositionsSpec(keys, keys[i].value);
    }
    assert Done(keys, pending) == {};
    while pending != {}
      invariant pending <= groups.Keys
      invariant errors == Reported(keys, Done(keys, pending), prefix, suffix)
      decreases |pending|
    {
      var k :| k in pending;
      assert groups[k] == Positions(keys, k);
      errors := ReportGroup(groups[k], k, keys, pending, prefix, suffix, errors);
      pending := pending - {k};
    }
    assert Done(keys, pending) == FlaggedSet(keys);
  }

  /** The whole uniqueness pass as the source runs it: group, then report. */
  method FindDuplicates(extract: Extractors, u: Unique, elems: seq<Value>, path: Path) returns (r: Result<ErrorMap>)
    ensures r == DuplicateCheck(extract, u, elems, path)
  {
    var groups := GroupIndices(extract, u, elems);
    if groups.Err? {
      return Err(groups.fault);
    }
    ghost var keys := EntryKeys(extract, u, elems, |elems|).value;
    GroupsExact(keys);
    var errors := ReportDuplicates(groups.value, keys, KeyPrefix(path), Suffix(u));
    return Ok(errors);
  }
}
