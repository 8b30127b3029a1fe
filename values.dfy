/** The already-parsed JavaScript value that a request body is validated against. */
module Values {
  import opened Text

  /** A JSON-like JavaScript value. Object fields are own properties only. */
  datatype Value =
    | Undefined
    | Null
    | Bool(b: bool)
    | Num(n: int)
    | Str(s: string)
    | Arr(elems: seq<Value>)
    | Obj(fields: map<string, Value>)

  /** `v === null || v === undefined`. */
  predicate IsNullish(v: Value) {
    v.Undefined? || v.Null?
  }

  /** JavaScript truthiness: undefined, null, false, 0 and "" are falsy. */
  predicate Truthy(v: Value) {
    match v
    case Undefined => false
    case Null => false
    case Bool(b) => b
    case Num(n) => n != 0
    case Str(s) => s != ""
    case Arr(_) => true
    case Obj(_) => true
  }

  /** `obj[key]`: the field's value, or undefined when the object has no such field. */
  function Lookup(fields: map<string, Value>, key: string): Value {
    if key in fields then fields[key] else Undefined
  }

  /** The element an array index name picks out: a canonical numeral below the length. */
  predicate IsIndexOf(prop: string, n: nat) {
    IsDecimal(prop) && DecimalValue(prop) < n
  }

  /**
   * `v[prop]` on a value that is not null or undefined, own properties only: an object's
   * field, an array's or string's `length` and its elements (a string's are one-character
   * strings) by index, and nothing on a boolean or number.
   */
  function OwnProperty(v: Value, prop: string): Value {
    match v
    case Obj(fields) => Lookup(fields, prop)
    case Arr(es) =>
      if prop == "length" then Num(|es|)
      else if IsIndexOf(prop, |es|) then es[DecimalValue(prop)]
      else Undefined
    case Str(s) =>
      if prop == "length" then Num(|s|)
      else if IsIndexOf(prop, |s|) then Str([s[DecimalValue(prop)]])
      else Undefined
    case _ => Undefined
  }

  /**
   * An array's own properties are its length and its elements under their decimal indices, and
   * no other name reads anything; the same holds for a string and its characters.
   */
  lemma OwnPropertyOfSequence(v: Value, prop: string)
    requires v.Arr? || v.Str?
    ensures var n := if v.Arr? then |v.elems| else |v.s|;
      && OwnProperty(v, "length") == Num(n)
      && (forall i :: 0 <= i < n ==> OwnProperty(v, NatToString(i)) == if v.Arr? then v.elems[i] else Str([v.s[i]]))
      && (prop != "length" && (forall i :: 0 <= i < n ==> prop != NatToString(i)) ==> OwnProperty(v, prop) == Undefined)
  {
    var n := if v.Arr? then |v.elems| else |v.s|;
    forall i | 0 <= i < n
      ensures OwnProperty(v, NatToString(i)) == if v.Arr? then v.elems[i] else Str([v.s[i]])
    {
      DecimalOfNatToString(i);
      assert NatToString(i) != "length" by {
        assert '0' <= NatToString(i)[0] <= '9';
      }
    }
    if IsIndexOf(prop, n) {
      NatToStringOfDecimal(prop);
      assert prop == NatToString(DecimalValue(prop));
    }
  }

  /**
   * `String(v)`, which is also the property key a value becomes when it indexes an object:
   * an array is its elements' strings joined by "," (null and undefined elements print as
   * empty), every plain object is "[object Object]".
   */
  function JsString(v: Value): string {
    match v
    case Undefined => "undefined"
    case Null => "null"
    case Bool(b) => if b then "true" else "false"
    case Num(n) => IntToString(n)
    case Str(s) => s
    case Obj(_) => "[object Object]"
    case Arr(es) =>
      Join(seq(|es|, i requires 0 <= i < |es| => if IsNullish(es[i]) then "" else JsString(es[i])), ",")
  }
}
