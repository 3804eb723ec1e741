/**
  The parts of JavaScript's own semantics that the store relies on: null,
  plain objects seen as their own enumerable properties in for...in order,
  property assignment, and `String.prototype.substring`.
 */
module Js {

  /**
    A value or its absence: JavaScript's `null` for a result, and `undefined`
    or `null` for an optional argument.
   */
  datatype Option<T> = None | Some(value: T)

  /** One own enumerable property of a plain object. */
  datatype Property<V> = Property(name: string, value: V)

  /** No property name occurs twice. */
  predicate DistinctNames<V>(props: seq<Property<V>>) {
    forall i, j | 0 <= i < j < |props| :: props[i].name != props[j].name
  }

  /**
    A plain object: its properties in the order for...in visits them. A
    property assigned for the first time is visited after all earlier ones.
   */
  type Object<V> = props: seq<Property<V>> | DistinctNames(props) witness []

  /** `name in o`: some property of `o` has this name. */
  predicate HasName<V>(o: seq<Property<V>>, name: string) {
    exists i | 0 <= i < |o| :: o[i].name == name
  }

  /** Where the property `name` sits in `o`, or -1 when `o` has none. */
  function NameIndex<V>(o: seq<Property<V>>, name: string): (i: int)
    ensures -1 <= i < |o|
    ensures 0 <= i ==> o[i].name == name
    ensures i < 0 <==> !HasName(o, name)
  {
    if |o| == 0 then -1
    else if o[|o| - 1].name == name then |o| - 1
    else NameIndex(o[..|o| - 1], name)
  }

  /** The name under which `Object.prototype` exposes its prototype accessor. */
  const ProtoName := "__proto__"

  /**
    Whether `o[name] = value` reaches the inherited `__proto__` accessor
    rather than an own property: the name is `__proto__` and `o` has no own
    property of that name to shadow the accessor.
   */
  predicate AssignsPrototype<V>(o: seq<Property<V>>, name: string) {
    name == ProtoName && !HasName(o, name)
  }

  /**
    The assignment `o[name] = value`: an existing property keeps its place and
    gets the new value; a new property is added after all the others. An
    assignment that reaches the `__proto__` accessor adds no own property.
   */
  function Put<V>(o: Object<V>, name: string, value: V): (r: Object<V>)
    ensures AssignsPrototype(o, name) ==> r == o
    ensures !AssignsPrototype(o, name) ==> HasName(r, name)
    ensures !AssignsPrototype(o, name) && !HasName(o, name) ==> r == o + [Property(name, value)]
    ensures HasName(o, name) ==>
              |r| == |o| &&
              forall i | 0 <= i < |o| ::
                r[i] == if o[i].name == name then Property(name, value) else o[i]
  {
    var i := NameIndex(o, name);
    if i < 0 then
      if name == ProtoName then o
      else
        var r := o + [Property(name, value)];
        assert r[|o|].name == name;
        r
    else
      var r := o[i := Property(name, value)];
      assert r[i].name == name;
      r
  }

  /** Clamps a `substring` argument into `[0, length]`. */
  function Clamp(x: int, length: nat): (c: nat)
    ensures c <= length
    ensures 0 <= x <= length ==> c == x
  {
    if x < 0 then 0 else if x > length then length else x
  }

  /**
    `s.substring(start, end)`: both arguments are clamped into `[0, |s|]`,
    and when the first exceeds the second the two are swapped.
   */
  function Substring(s: string, start: int, end: int): (r: string)
    ensures |r| <= |s|
    ensures start <= end ==> r == s[Clamp(start, |s|)..Clamp(end, |s|)]
    ensures end < start ==> r == s[Clamp(end, |s|)..Clamp(start, |s|)]
    ensures 0 <= start <= end <= |s| ==> r == s[start..end]
    ensures 0 <= end <= start <= |s| ==> r == s[end..start]
  {
    var a := Clamp(start, |s|);
    var b := Clamp(end, |s|);
    if a <= b then s[a..b] else s[b..a]
  }
}
