# Request validation, modelled in Dafny

The library validates an HTTP request body against a declarative schema tree. Every schema node
has a `type`: `object`, `array`, `string`, `number`, `boolean` or `ignore`. A node may also have
`required`/`mandatory`, a user `function` check and per-kind attributes: `properties` and
`strict` on objects; `items`, `minLength`, `maxLength` and `uniqueEntries` on arrays; `pattern`,
`patternHelper`, `options` and `optionsHelper` on strings; `pattern`, `min`, `max` and `options`
on numbers.

`validateNode` walks the schema and the body together. It returns an error map from dotted
field paths (`a.b`, `items.index-2.name`, or `body` for the root object or array) to one
message each. For objects and arrays the map also holds the results of the nodes below, merged
left to right with a later writer winning. `validateRequest` runs the walk from the root and
reports the request valid exactly when the map is empty. Otherwise it builds a 400 response
that carries the map.

Two versions of the core exist, and both are modelled:

* **The current validator** (`requestValidation.ts`) is in `RequestValidation`. It has
  `mandatory`, strict objects, array length bounds, `uniqueEntries`, `items`, options and
  pattern helpers.
* **The legacy validator** (`requestValidation.js`) is in `LegacyValidation`.
* `Compatibility` proves that the current validator extends the legacy one conservatively. The
  two give the same outcome for every body on every schema that meets three conditions. It
  uses none of the later features. Every array node declares `properties`. Only a required
  number has a `pattern`. The last two conditions exclude real differences, not later features. A legacy array without
  `properties` throws on its first element, and an absent optional legacy number is tested
  against the string "undefined", where the current validator throws.

The model is organised as follows:

* `Values` holds JavaScript values: `undefined`, `null`, booleans, integers, strings, arrays and
  plain objects. It also holds truthiness and the string form `String(v)`.
* `Schema` holds the schema tree, the error maps and `merge`. It also holds the environment: the
  user functions and the regular-expression test, passed in as parameters.
* A JavaScript exception that escapes the walk is an `Err(Fault)` result, not an entry of the
  map. Examples are an unknown `type`, `null.constructor` and `undefined.toString()`.
* The uniqueness check of arrays is written the way the source runs it in `Duplicates`. One
  pass groups element indices by key, and a second pass reports every index of a group but the
  first. Both passes are methods with loops, proved equal to a declarative definition:
  element i is a duplicate exactly when an earlier element has the same truthy key.

The main library-wide properties are:

* `ErrorPaths` shows that, without user checks, every key of a node's map names that node or a
  node below it.
* `RequestProperties` and `LegacyProperties` state each validator's promises node kind by node
  kind.
* `Examples` works through the cases of the repository's tests.

Behaviour of the code that is easy to miss:

* The current number validator's "not a valid option" message carries no `optionsHelper`.
* An optional number with a `pattern` or `options` and no value throws, from
  `undefined.toString()`.
* An optional object given `null` throws, from `null.constructor`.
* An object with an own `constructor` field is not a plain object, so it is reported as
  "must be of type object".
* In the legacy validator, an absent optional number with a pattern is tested against the
  string "undefined".
* `uniqueEntries: "<prop>"` reads `o[prop]` on every element, so an array or string element is
  compared by its own `length` or by one of its elements.

## Model

| member | source | states |
|---|---|---|
| `Text.NatToString` | src/requestValidation/requestValidation.ts:125 | an index or length prints as nonempty decimal digits with no leading zero, one digit exactly below 10 (the `index-<i>` keys here and at line 140) |
| `Text.IntToString` | src/requestValidation/requestValidation.ts:203 | a number's string form is nonempty and starts with `-` exactly when the number is negative |
| `Text.NatToStringInjective` | src/requestValidation/requestValidation.ts:125 | distinct indices print differently, so the `index-<i>` keys here and at line 140 never collide |
| `Text.IntToStringInjective` | src/requestValidation/requestValidation.ts:224 | distinct numbers print differently, so a number's option match is decided by its value |
| `Text.JoinSnoc` | src/requestValidation/requestValidation.ts:48 | joining a path extended by one name appends the separator and the name |
| `Text.DecimalOfNatToString` | src/requestValidation/requestValidation.ts:107 | the decimal form of n is a canonical numeral that reads back as n, so `o["<i>"]` finds element i |
| `Text.NatToStringOfDecimal` | src/requestValidation/requestValidation.ts:107 | a canonical numeral is the decimal form of the number it denotes, so no other name reads an element |
| `Values.Truthy` | src/requestValidation/requestValidation.ts:113 | definition of JavaScript truthiness (`if (value)`, `!bodyNode`): undefined, null, false, 0 and "" are falsy; used by `EntryKey` and the string checks |
| `Values.JsString` | src/requestValidation/requestValidation.ts:114 | definition of `String(v)`, the property key a compared value becomes and the text in `is a duplicate (<key>)` (line 125) |
| `Values.OwnProperty` | src/requestValidation/requestValidation.ts:107 | definition of `o[prop]` on a present value: an object's field, an array's or string's `length` and elements by index, nothing on a boolean or number |
| `Values.OwnPropertyOfSequence` | src/requestValidation/requestValidation.ts:107 | an array's or string's `length` is its length, the name `"<i>"` reads element i, and every other name reads undefined |
| `Paths.KeyPrefixJoins` | src/requestValidation/requestValidation.ts:57 | the prefix `<path>.` (empty at the root) followed by a key is the joined path extended by that key |
| `Paths.IndexSegmentInjective` | src/requestValidation/requestValidation.ts:140 | distinct element indices give distinct `index-<i>` segments |
| `Schema.IsRequired` | src/requestValidation/requestValidation.ts:32 | definition: a node is required when `required` or `mandatory` is set |
| `Schema.Merge` | src/requestValidation/requestValidation.ts:254-257 | the merged map has every key of either map, the second map's value winning on a shared key |
| `Schema.MergeAll` | src/requestValidation/requestValidation.ts:47-49 | definition of the `reduce` over `merge` from the empty map; `MergeAllKeys` states its keys and values |
| `Schema.MergeAllKeys` | src/requestValidation/requestValidation.ts:47-49 | folding merge over a list gives exactly the keys of its members, each with the value of the last member that has it |
| `Schema.BoundViolation` | src/requestValidation/requestValidation.ts:206-220 | a bound is violated exactly when the value is outside the given bounds; with both bounds set this gives the combined "between" message, else the one-sided message of the violated bound (array lengths use the same rule, lines 82-99) |
| `Schema.CustomCheck` | src/requestValidation/requestValidation.ts:64 | definition of calling a node's `function` with the rendered path, the node and the value, or nothing without one (also lines 145, 174-176) |
| `Duplicates.CompareValue` | src/requestValidation/requestValidation.ts:104-111 | the compared value is `o[prop]` (an object's field, an array's or string's own `length`, nothing on a boolean or number), the extractor's result or the element itself; a property read on a null or undefined element throws |
| `Duplicates.EntryKey` | src/requestValidation/requestValidation.ts:104-116 | definition: an element joins the group named by `String` of its compared value when that value is truthy, and no group otherwise |
| `Duplicates.EntryKeys` | src/requestValidation/requestValidation.ts:103-117 | the key list has one key per element, and the only fault it can raise is a property read on a nullish element |
| `Duplicates.EntryKeysSpec` | src/requestValidation/requestValidation.ts:103-117 | the key list exists exactly when every element has a key, and lists those keys in element order |
| `Duplicates.EntryKeysErr` | src/requestValidation/requestValidation.ts:106 | one element whose property read throws makes the whole grouping throw |
| `Duplicates.PositionsBounds` | src/requestValidation/requestValidation.ts:112-115 | every index a group lists is an element index whose key is the group's key |
| `Duplicates.PositionsAscending` | src/requestValidation/requestValidation.ts:112-115 | a group lists its indices in strictly ascending order |
| `Duplicates.PositionsComplete` | src/requestValidation/requestValidation.ts:112-115 | every element with the group's key is listed in the group |
| `Duplicates.PositionsSpec` | src/requestValidation/requestValidation.ts:112-115 | a group lists, in ascending order, exactly the indices that have its key |
| `Duplicates.PositionsRepeat` | src/requestValidation/requestValidation.ts:122-126 | a group member is a repeat of an earlier element exactly when it is not the first of its group |
| `Duplicates.DupPathInjective` | src/requestValidation/requestValidation.ts:124 | distinct duplicate indices are reported under distinct keys |
| `Duplicates.DuplicateErrorsExact` | src/requestValidation/requestValidation.ts:118-128 | element i is reported exactly when an earlier element has the same truthy key, under `<path>.index-<i>[.<prop>]` with `is a duplicate (<key>)`, and nothing else is reported |
| `Duplicates.DuplicateCheck` | src/requestValidation/requestValidation.ts:103-129 | definition of the uniqueness map: the duplicate entries of the elements' keys under the array's path prefix; `DuplicateErrorsExact` and `FindDuplicates` state what it holds |
| `Duplicates.GroupsExact` | src/requestValidation/requestValidation.ts:103-117 | the accumulated groups map each key that occurs, and no other, to all of its indices in order |
| `Duplicates.GroupIndices` | src/requestValidation/requestValidation.ts:103-117 | the grouping loop throws exactly when some element has no key, and otherwise returns the groups of the elements' keys |
| `Duplicates.ReportGroup` | src/requestValidation/requestValidation.ts:122-127 | reporting one group adds exactly the entries of its members after the first |
| `Duplicates.ReportDuplicates` | src/requestValidation/requestValidation.ts:118-129 | the reporting loop over exact groups produces exactly the declarative duplicate errors |
| `Duplicates.FindDuplicates` | src/requestValidation/requestValidation.ts:102-130 | grouping then reporting gives the declarative uniqueness check, fault included |
| `RequestValidation.IsPlainObject` | src/requestValidation/requestValidation.ts:39-42 | definition of `bodyNode.constructor === Object`: an object value without an own `constructor` field |
| `RequestValidation.StrictErrors` | src/requestValidation/requestValidation.ts:50-60 | definition of the strict-mode map over the value's keys; `StrictErrorsExact` states its keys |
| `RequestValidation.StrictErrorsExact` | src/requestValidation/requestValidation.ts:51-61 | the strict-mode map has the path of a field exactly when the field is not a declared property, it has no other key, and every message is "is not allowed on this object" |
| `RequestValidation.StrictErrorsOnlyUndeclared` | src/requestValidation/requestValidation.ts:51-61 | every key of the strict-mode map is the path of an undeclared field |
| `RequestValidation.StrictCheck` | src/requestValidation/requestValidation.ts:43-51 | definition: the strict-mode map, only with both `strict` and `properties` set; `NoStrictErrorsUnlessStrict` and `StrictReportsUndeclared` state it |
| `RequestValidation.ValidateNode` | src/requestValidation/requestValidation.ts:235-252 | an `ignore` node yields nothing, and an unknown type throws with that type's name |
| `RequestValidation.PropertyResults` | src/requestValidation/requestValidation.ts:47-49 | the declared properties give one result each |
| `RequestValidation.ValidateObject` | src/requestValidation/requestValidation.ts:34-68 | definition of `validateObject`; `ObjectOwnChecks`, `ObjectMergeOrder`, `UndeclaredFieldIgnored` and `ObjectErrorsBelow` state what it returns |
| `RequestValidation.ElementResults` | src/requestValidation/requestValidation.ts:137-142 | the elements give one result each |
| `RequestValidation.ValidateArray` | src/requestValidation/requestValidation.ts:70-150 | definition of `validateArray`; `ArrayOwnChecks`, `DuplicatesSuppressElements`, `ArrayMergeOrder` and `ArrayErrorsBelow` state what it returns |
| `RequestValidation.ValidateString` | src/requestValidation/requestValidation.ts:152-178 | a string node reports at most one entry, at its joined path, unless it returns the user check's map unchanged |
| `RequestValidation.ValidateNumber` | src/requestValidation/requestValidation.ts:192-233 | a number node throws exactly when it is optional, absent and has a pattern or options, from `undefined.toString()`; otherwise it reports at most one entry at its joined path, unless it returns the user check's map |
| `RequestValidation.ValidateBoolean` | src/requestValidation/requestValidation.ts:180-190 | a boolean node reports at most one entry at its joined path, and none exactly when the value is a boolean or optional and absent |
| `RequestValidation.ValidateRequest` | src/requestValidation/requestValidation.ts:264-277 | the request throws exactly when the walk throws, with the same fault; it is valid exactly when the map is empty; an invalid request carries the 400 response for that map, and a valid one carries none |
| `RequestProperties.PropertyResultsOk` | src/requestValidation/requestValidation.ts:47-49 | the properties' results exist exactly when no declared property's validation throws |
| `RequestProperties.PropertyResultsValues` | src/requestValidation/requestValidation.ts:47-49 | result i is the validation of property i's schema against the same-named field at the path extended by its name |
| `RequestProperties.ElementResultsOk` | src/requestValidation/requestValidation.ts:137-142 | the elements' results exist exactly when no element's validation throws |
| `RequestProperties.ElementResultsValues` | src/requestValidation/requestValidation.ts:136-142 | result i is the validation of element i against the element schema at the path extended by `index-<i>` |
| `RequestProperties.ItemsPreferred` | src/requestValidation/requestValidation.ts:140 | `items` wins over the array form of `properties` |
| `RequestProperties.ObjectOwnChecks` | src/requestValidation/requestValidation.ts:36-41 | a required absent object gives one "is required" entry; a present non-object gives one type entry; an optional absent object gives nothing under any user checks; an optional `null` throws |
| `RequestProperties.ObjectMergeOrder` | src/requestValidation/requestValidation.ts:45-65 | an object's map has exactly the keys of its properties' results, its strict errors and its user check; the user check wins over strict errors, and strict errors win over the last property that reports a key |
| `RequestProperties.NoStrictErrorsUnlessStrict` | src/requestValidation/requestValidation.ts:51-53 | without both `strict` and `properties` there are no strict-mode errors |
| `RequestProperties.StrictReportsUndeclared` | src/requestValidation/requestValidation.ts:51-61 | a strict object reports a field exactly when it is not declared, reports no other key, and always says "is not allowed on this object" |
| `RequestProperties.PropertyResultsIgnoreField` | src/requestValidation/requestValidation.ts:47-49 | the properties' results do not depend on a field that is not declared |
| `RequestProperties.UndeclaredFieldIgnored` | src/requestValidation/requestValidation.ts:42-65 | a non-strict object without a user check gives the same result when an undeclared field is added |
| `RequestProperties.ArrayOwnChecks` | src/requestValidation/requestValidation.ts:72-99 | required, absent and type checks each give at most one entry; a length violation is the whole result under any user checks |
| `RequestProperties.DuplicatesSuppressElements` | src/requestValidation/requestValidation.ts:131-133 | when the length is in range and duplicates are found, they are the whole result; the elements and the user check are not consulted |
| `RequestProperties.NoElementSchemaNoCustomCheck` | src/requestValidation/requestValidation.ts:134-149 | without `items` or `properties` an array never calls its user check, and reports at most its own key or its duplicates |
| `RequestProperties.ArrayMergeOrder` | src/requestValidation/requestValidation.ts:134-147 | when the elements are walked, element i is validated at `index-<i>`; the map has exactly the elements' keys and the user check's, the user check winning and otherwise the last element that reports a key; an element that throws makes the array throw |
| `RequestProperties.ScalarAtMostOneEntry` | src/requestValidation/requestValidation.ts:152-233 | a string, number or boolean node reports at most one entry, at its joined path, unless it returns the user check's map unchanged |
| `RequestProperties.FalsyStringIsAbsent` | src/requestValidation/requestValidation.ts:154-160 | a string node treats every falsy value as absent, whatever its pattern, options and user check |
| `RequestProperties.NullIsNotAbsentForNumbersAndBooleans` | src/requestValidation/requestValidation.ts:192-200 | a number or boolean node treats `null` as a type error, not as absent |
| `RequestProperties.StringChecksInOrder` | src/requestValidation/requestValidation.ts:152-178 | the first failing check decides, in the order absent, type, pattern (with its helper), options (with its helper), whatever the later attributes and the user check; only when all pass is the user check's map returned |
| `RequestProperties.NumberChecksInOrder` | src/requestValidation/requestValidation.ts:192-233 | the first failing check decides, in the order required, type, pattern, range, options, whatever the later attributes and the user check; an absent optional number with a pattern or options throws; only when all pass is the user check's map returned |
| `RequestProperties.BooleanChecks` | src/requestValidation/requestValidation.ts:180-190 | required, then type, then nothing; neither the environment nor a `function` changes a boolean's result |
| `LegacyValidation.ValidateNode` | src/requestValidation/requestValidation.js:122-139 | the legacy dispatch: `ignore` yields nothing, and an unknown type throws with that type's name |
| `LegacyValidation.PropertyResults` | src/requestValidation/requestValidation.js:15-17 | the declared properties give one result each |
| `LegacyValidation.ElementResults` | src/requestValidation/requestValidation.js:40-42 | the elements give one result each |
| `LegacyValidation.ValidateObject` | src/requestValidation/requestValidation.js:4-24 | definition of the legacy `validateObject`; `LegacyProperties.ObjectOwnChecks` and `ObjectMergeOrder` state what it returns |
| `LegacyValidation.ValidateArray` | src/requestValidation/requestValidation.js:26-49 | definition of the legacy `validateArray`; `LegacyProperties.ArrayChecks` and `ArrayMergeOrder` state what it returns |
| `LegacyValidation.ValidateString` | src/requestValidation/requestValidation.js:51-73 | a legacy string node reports at most one entry at its joined path, unless it returns the user check's map |
| `LegacyValidation.ValidateNumber` | src/requestValidation/requestValidation.js:87-120 | a legacy number node never throws, and reports at most one entry at its joined path unless it returns the user check's map |
| `LegacyValidation.ValidateBoolean` | src/requestValidation/requestValidation.js:75-85 | a legacy boolean node reports at most one entry, and none exactly when the value is a boolean or optional and absent |
| `LegacyValidation.ValidateRequest` | src/requestValidation/requestValidation.js:148-159 | the legacy request throws exactly when the walk throws, and is valid exactly when the map is empty |
| `LegacyProperties.ObjectOwnChecks` | src/requestValidation/requestValidation.js:6-11 | the legacy object's own checks, with only `required` counting |
| `LegacyProperties.PropertyResultsValues` | src/requestValidation/requestValidation.js:15-17 | legacy result i is property i validated against its field at its own path |
| `LegacyProperties.ObjectMergeOrder` | src/requestValidation/requestValidation.js:13-21 | a legacy object's map has exactly the keys of its properties' results and its user check, the user check winning; there are no strict errors |
| `LegacyProperties.ElementResultsValues` | src/requestValidation/requestValidation.js:40-42 | legacy element i is validated against `properties` at `index-<i>` |
| `LegacyProperties.ElementResultsMissingSchema` | src/requestValidation/requestValidation.js:41 | without `properties` the legacy element walk throws as soon as there is an element |
| `LegacyProperties.ArrayChecks` | src/requestValidation/requestValidation.js:26-49 | the legacy array's own checks; an empty array gives exactly the user check's map, and the user check's entries always win |
| `LegacyProperties.ArrayMergeOrder` | src/requestValidation/requestValidation.js:37-46 | a legacy array always walks every element, element i at `index-<i>`; its map has exactly the elements' keys and the user check's, the user check winning and otherwise the last element that reports a key; an element that throws makes the array throw |
| `LegacyProperties.AbsentNumberPattern` | src/requestValidation/requestValidation.js:97-99 | an absent optional legacy number with a pattern is tested against "undefined" instead of throwing |
| `LegacyProperties.ScalarAtMostOneEntry` | src/requestValidation/requestValidation.js:51-120 | legacy scalar nodes never throw and report at most one entry at their path, unless they return the user check's map |
| `LegacyProperties.FalsyStringIsAbsent` | src/requestValidation/requestValidation.js:53-59 | a legacy string node treats every falsy value as absent |
| `LegacyProperties.MandatoryIgnored` | src/requestValidation/requestValidation.js:6 | `mandatory` alone does not make a legacy node required, although it does in the current validator |
| `LegacyProperties.StringChecksInOrder` | src/requestValidation/requestValidation.js:51-73 | the first failing check decides, in the order absent, type, pattern (with no helper), whatever the later attributes and the user check; only when all pass is the user check's map returned |
| `LegacyProperties.NumberChecksInOrder` | src/requestValidation/requestValidation.js:87-120 | the first failing check decides, in the order required, type, pattern (on the value's string form), range, whatever the later attributes and the user check; only when all pass is the user check's map returned |
| `LegacyProperties.BooleanChecks` | src/requestValidation/requestValidation.js:75-85 | required, then type, then nothing; neither the environment nor a `function` changes a legacy boolean's result |
| `Compatibility.NodeAgrees` | src/requestValidation/requestValidation.ts:235-252 | on a legacy-compatible schema the current and legacy `validateNode` agree on every value |
| `Compatibility.PropertiesAgree` | src/requestValidation/requestValidation.ts:47-49 | on a legacy-compatible object both validators give the same properties' results |
| `Compatibility.ObjectAgrees` | src/requestValidation/requestValidation.ts:34-68 | on a legacy-compatible object both `validateObject`s agree |
| `Compatibility.ElementsAgree` | src/requestValidation/requestValidation.ts:137-142 | on a legacy-compatible array both validators give the same elements' results |
| `Compatibility.ArrayAgrees` | src/requestValidation/requestValidation.ts:70-150 | on a legacy-compatible array both `validateArray`s agree |
| `Compatibility.RequestAgrees` | src/requestValidation/requestValidation.ts:264-277 | on a legacy-compatible schema both `validateRequest`s give the same outcome for every body |
| `ErrorPaths.OwnKeysAtPath` | src/requestValidation/requestValidation.ts:37 | a node's own key names that node |
| `ErrorPaths.BelowChild` | src/requestValidation/requestValidation.ts:48 | a key below a child is below its parent |
| `ErrorPaths.StrictKeyBelow` | src/requestValidation/requestValidation.ts:57 | a strict-mode key names a field of the object |
| `ErrorPaths.DupKeyBelow` | src/requestValidation/requestValidation.ts:124 | a duplicate key names an element of the array, or the compared property of one |
| `ErrorPaths.NodeErrorsBelow` | src/requestValidation/requestValidation.ts:235-252 | without user checks, every key of a node's map names the node or a node below it |
| `ErrorPaths.PropertiesBelow` | src/requestValidation/requestValidation.ts:47-49 | every key of a property's result lies below the object |
| `ErrorPaths.ObjectErrorsBelow` | src/requestValidation/requestValidation.ts:34-68 | every key of an object's map lies at or below the object |
| `ErrorPaths.ElementsBelow` | src/requestValidation/requestValidation.ts:137-142 | every key of an element's result lies below the array |
| `ErrorPaths.StrictBelow` | src/requestValidation/requestValidation.ts:50-60 | every strict-mode key names a field of the object |
| `ErrorPaths.DupsBelow` | src/requestValidation/requestValidation.ts:120-128 | every key of the duplicate map names an element of the array, or the compared property of one |
| `ErrorPaths.ArrayErrorsBelow` | src/requestValidation/requestValidation.ts:70-150 | every key of an array's map lies at or below the array |
| `Examples.MissingBody` | src/requestValidation/requestValidation.test.ts:67-73 | a required root object with no body makes the request invalid with `body: is required` |
| `Examples.NestedRequired` | src/requestValidation/requestValidation.test.ts:81-87 | a variant of the test with a smaller schema (an optional `a` holding a required string `b`, no root check, no strict mode): the body `{a: {}}` gives exactly `a.b: is required` |
| `Examples.UndeclaredC` | src/requestValidation/requestValidation.test.ts:88-94 | a variant of the test that checks the strict-mode map alone, on the body `{a: 1, c: 2}` with only `a` declared: its one entry is `c` |
| `Examples.StrictRejectsUndeclared` | src/requestValidation/requestValidation.test.ts:88-94 | a variant of the test with a smaller schema (an optional strict object declaring only `a`, no root check): the body `{a: 1, c: 2}` gives exactly `c: is not allowed on this object` |
| `Examples.RepeatedKeys` | src/requestValidation/requestValidation.test.ts:198 | the keys of [1, 1, 2, 1, 3] are their decimal forms |
| `Examples.RepeatsOfOnes` | src/requestValidation/requestValidation.test.ts:197-208 | in those keys exactly elements 1 and 3 repeat an earlier key |
| `Examples.TwoDuplicates` | src/requestValidation/requestValidation.ts:118-128 | with exactly two repeated elements, the duplicate errors are their two entries |
| `Examples.DuplicateOnes` | src/requestValidation/requestValidation.test.ts:197-208 | [1, 1, 2, 1, 3] gives exactly `index-1` and `index-3`, both `is a duplicate (1)` |
| `Examples.DuplicateOnesReported` | src/requestValidation/requestValidation.test.ts:194-208 | the whole array node reports only those two duplicates |
| `Examples.LengthKeys` | src/requestValidation/requestValidation.ts:107 | the keys of `[[1], [2]]` compared by `length` are both "1" |
| `Examples.OneDuplicate` | src/requestValidation/requestValidation.ts:118-128 | with exactly one repeated element, the duplicate errors are its one entry |
| `Examples.SameLength` | src/requestValidation/requestValidation.ts:102-129 | `uniqueEntries: "length"` on `[[1], [2]]` gives exactly `index-1.length: is a duplicate (1)` |
| `Examples.OutOfRange` | src/requestValidation/requestValidation.ts:207-210 | 1 against `min: 2, max: 9` gives "must be between 2 and 9" |
| `Examples.TooShort` | src/requestValidation/requestValidation.test.ts:177-183 | [1] against `minLength: 2, maxLength: 4` gives `body: length must be between 2 and 4` |

## Left out

- Reading the request, the controller, the `response` builder's HTTP envelope, JSON serialisation and the `console.info` log. `MakeResponseFromErrors` keeps the status code, the message and the map that the builder receives.
- The legacy `validateRequest` computes `event.body && JSON.parse(event.body)`. Only `JSON.parse` of a non-empty body is left out, with its syntax errors: the model takes the parsed value. A falsy `event.body` reaches the validator as it is, which the model covers as the body `Null`, `Str("")` or `Undefined`.
- The `try { … } catch (e) { throw e; }` wrapper rethrows unchanged. It is the identity on `Err` results.
- Regular expressions: `new RegExp(pattern).test(s)` is the `matches` parameter of the environment. An invalid pattern's `SyntaxError` is not modelled.
- Numbers are integers. Floating point, `NaN`, `Infinity` and the float printing of `toString()` are left out.
- User `function` checks and `uniqueEntries` extractors are parameters of the environment, called with the same arguments as in the source. Their own behaviour, exceptions included, is not modelled.
- Objects have only own fields. Members inherited from `Object.prototype` are not modelled, so a field named `toString` does not change a lookup. For the grouping accumulator of `uniqueEntries`, such a key would read an inherited function and throw on `push`.
- `Object.entries` and `Object.keys` list integer-like keys first in JavaScript. The model keeps the order in which the schema declares its properties.
- `UnknownNode` stands for a `type` other than the six handled ones. The datatype does not exclude building it with one of those six names, which JavaScript would dispatch normally.
- `Schema.Choice`: the field for an option's `label` is named `labelText`, because `label` is a reserved word in Dafny. The validators read only an option's value.
- A schema that declares the same property name twice cannot be built in JavaScript. The model's property list does not exclude it.
- Duplicates.CompareValue: `o[prop]` reads own properties only. An object's fields, an array's or string's `length` and its elements by index are modelled. Inherited members read as `undefined`: a method such as `map` on an array or `toFixed` on a number would be a truthy function in JavaScript. A string's elements are its characters, not UTF-16 code units, so `length` and index reads differ for characters outside the Basic Multilingual Plane.
- The type-only interfaces (`SchemaNode`, `SchemaNodeArray`) and the default export are not modelled.
- `RequestValidation.ValidateNode`: its own ensures only fix the `ignore` and unknown cases. What it computes for each kind is stated by the lemmas of `RequestProperties`, `ErrorPaths` and `Compatibility`.
