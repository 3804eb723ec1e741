/**
  The value codec: `copyObject` stores a shallow copy of an object with every
  property `p` renamed to `"__" + p + "__"`, and `restoreObject` strips two
  characters from each end of every property name.
 */
module Codec {
  import opened Js

  /** The stored name of property `name`. */
  function Wrap(name: string): (wrapped: string)
    ensures |wrapped| == |name| + 4
  {
    "__" + name + "__"
  }

  /** `prop.substring(2, prop.length - 2)`. */
  function Strip(name: string): string {
    Substring(name, 2, |name| - 2)
  }

  lemma StripWrap(name: string)
    ensures Strip(Wrap(name)) == name
  {
  }

  /** Distinct property names stay distinct once stored. */
  lemma WrapInjective(a: string, b: string)
    ensures Wrap(a) == Wrap(b) ==> a == b
  {
    StripWrap(a);
    StripWrap(b);
  }

  /**
    The object a for...in loop over `o` builds when it assigns each property,
    in enumeration order, under the name `rename` gives it.
   */
  function RenameAll<V>(o: Object<V>, rename: string -> string): Object<V>
    decreases |o|
  {
    if |o| == 0 then []
    else
      var last := o[|o| - 1];
      Put(RenameAll(o[..|o| - 1], rename), rename(last.name), last.value)
  }

  /**
    When `rename` keeps the names of `o` apart and sends none of them to
    `__proto__`, no assignment overwrites an earlier one or reaches the
    prototype accessor: the result is `o` renamed property by property, in
    order.
   */
  lemma {:induction false} RenameAllPointwise<V>(o: Object<V>, rename: string -> string)
    requires forall i, j | 0 <= i < j < |o| :: rename(o[i].name) != rename(o[j].name)
    requires forall i | 0 <= i < |o| :: rename(o[i].name) != ProtoName
    ensures |RenameAll(o, rename)| == |o|
    ensures forall i | 0 <= i < |o| ::
              RenameAll(o, rename)[i] == Property(rename(o[i].name), o[i].value)
  {
    if |o| > 0 {
      var init := o[..|o| - 1];
      var last := o[|o| - 1];
      RenameAllPointwise(init, rename);
      assert !HasName(RenameAll(init, rename), rename(last.name));
    }
  }

  /**
    An object filled by assignment from `{}` never has an own `__proto__`:
    an assignment under that name goes to the prototype accessor.
   */
  lemma {:induction false} RenameAllLacksProto<V>(o: Object<V>, rename: string -> string)
    ensures !HasName(RenameAll(o, rename), ProtoName)
  {
    if |o| > 0 {
      var init := RenameAll(o[..|o| - 1], rename);
      var last := o[|o| - 1];
      RenameAllLacksProto(o[..|o| - 1], rename);
      var r := Put(init, rename(last.name), last.value);
      forall i | 0 <= i < |r| ensures r[i].name != ProtoName {
        if i < |init| {
          assert r[i] == init[i] || r[i].name == rename(last.name);
        }
      }
    }
  }

  /** The snapshot `copyObject(o)` builds. */
  function Copy<V>(o: Object<V>): Object<V> {
    RenameAll(o, Wrap)
  }

  /** The object `restoreObject(o)` builds. */
  function Restore<V>(o: Object<V>): Object<V> {
    RenameAll(o, Strip)
  }

  /** The one property name whose stored name is `__proto__` is `proto`. */
  lemma WrapIsProto(name: string)
    ensures Wrap(name) == ProtoName <==> name == "proto"
  {
    StripWrap(name);
    assert Strip(ProtoName) == "proto";
  }

  /**
    No property `p` except `proto` and `__proto__`: the names `"__" + p + "__"`
    and `p` then stay clear of the prototype accessor in the copy and the
    restore.
   */
  predicate OrdinaryNames<V>(o: seq<Property<V>>) {
    forall i | 0 <= i < |o| :: o[i].name != "proto" && o[i].name != ProtoName
  }

  /**
    The snapshot of an object without a `proto` property holds the same
    values in the same order, under wrapped names.
   */
  lemma CopyRenames<V>(o: Object<V>)
    requires forall i | 0 <= i < |o| :: o[i].name != "proto"
    ensures |Copy(o)| == |o|
    ensures forall i | 0 <= i < |o| :: Copy(o)[i] == Property(Wrap(o[i].name), o[i].value)
  {
    forall i, j | 0 <= i < j < |o| ensures Wrap(o[i].name) != Wrap(o[j].name) {
      WrapInjective(o[i].name, o[j].name);
    }
    forall i | 0 <= i < |o| ensures Wrap(o[i].name) != ProtoName {
      WrapIsProto(o[i].name);
    }
    RenameAllPointwise(o, Wrap);
  }

  /**
    The property `proto` is lost in the copy: its stored name is assigned
    to the prototype accessor of the fresh object.
   */
  lemma CopyDropsProto<V>(value: V)
    ensures Copy([Property("proto", value)]) == []
  {
    var o: Object<V> := [Property("proto", value)];
    WrapIsProto("proto");
    assert o[..0] == [];
    assert RenameAll(o[..0], Wrap) == [];
    assert Copy(o) == Put(RenameAll(o[..0], Wrap), Wrap(o[0].name), o[0].value);
  }

  /**
    An own property `__proto__` (one that `JSON.parse` can produce) survives
    the copy as `____proto____` but is lost in the restore.
   */
  lemma RestoreDropsProto<V>(value: V)
    ensures Copy([Property(ProtoName, value)]) == [Property("____proto____", value)]
    ensures Restore(Copy([Property(ProtoName, value)])) == []
  {
    var o: Object<V> := [Property(ProtoName, value)];
    var snapshot: Object<V> := [Property("____proto____", value)];
    assert o[..0] == [] && snapshot[..0] == [];
    assert Wrap(ProtoName) == "____proto____";
    assert RenameAll(o[..0], Wrap) == [] && RenameAll(snapshot[..0], Strip) == [];
    assert Copy(o) == Put(RenameAll(o[..0], Wrap), Wrap(o[0].name), o[0].value);
    assert Strip("____proto____") == ProtoName;
    assert Restore(snapshot) == Put(RenameAll(snapshot[..0], Strip), Strip(snapshot[0].name), value);
  }

  /**
    Round trip: restoring a snapshot of an object with ordinary names gives
    back exactly that object, with the same property names, values and
    enumeration order.
   */
  lemma RestoreCopy<V>(o: Object<V>)
    requires OrdinaryNames(o)
    ensures Restore(Copy(o)) == o
  {
    CopyRenames(o);
    var snapshot := Copy(o);
    forall i | 0 <= i < |snapshot| ensures Strip(snapshot[i].name) == o[i].name {
      StripWrap(o[i].name);
    }
    RenameAllPointwise(snapshot, Strip);
  }

  /** The position of a property with the shortest name. */
  function Shortest<V>(o: seq<Property<V>>): (k: nat)
    requires |o| > 0
    ensures k < |o|
    ensures forall i | 0 <= i < |o| :: |o[k].name| <= |o[i].name|
  {
    if |o| == 1 then 0
    else
      var k := Shortest(o[..|o| - 1]);
      if |o[|o| - 1].name| < |o[k].name| then |o| - 1 else k
  }

  /** Every stored name is at least four characters longer than the shortest name copied. */
  lemma {:induction false} CopyNamesLonger<V>(o: Object<V>, m: nat)
    requires forall i | 0 <= i < |o| :: m <= |o[i].name|
    ensures forall i | 0 <= i < |Copy(o)| :: m + 4 <= |Copy(o)[i].name|
  {
    if |o| > 0 {
      var init := o[..|o| - 1];
      CopyNamesLonger(init, m);
      assert Copy(o) == Put(Copy(init), Wrap(o[|o| - 1].name), o[|o| - 1].value);
    }
  }

  /**
    A snapshot of a non-empty object is never the object itself: the
    object's shortest name is too short to be a stored name.
   */
  lemma CopyDiffers<V>(o: Object<V>)
    requires |o| > 0
    ensures Copy(o) != o
  {
    var k := Shortest(o);
    CopyNamesLonger(o, |o[k].name|);
    assert !HasName(Copy(o), o[k].name);
  }

  /** `copyObject`: a for...in loop filling a fresh object. */
  method CopyObject<V>(source: Object<V>) returns (newObject: Object<V>)
    ensures newObject == Copy(source)
    ensures (forall i | 0 <= i < |source| :: source[i].name != "proto") ==>
              |newObject| == |source| &&
              forall i | 0 <= i < |source| ::
                newObject[i] == Property(Wrap(source[i].name), source[i].value)
  {
    newObject := [];
    for k := 0 to |source|
      invariant newObject == RenameAll(source[..k], Wrap)
    {
      assert source[..k + 1][..k] == source[..k];
      var propName := Wrap(source[k].name);
      newObject := Put(newObject, propName, source[k].value);
    }
    assert source[..|source|] == source;
    if forall i | 0 <= i < |source| :: source[i].name != "proto" {
      CopyRenames(source);
    }
  }

  /**
    The stripped names of `o` are pairwise distinct and none of them is
    `__proto__`, so the restore assigns each property to an own property of
    its own.
   */
  predicate StripsApart<V>(o: seq<Property<V>>) {
    && (forall i, j | 0 <= i < j < |o| :: Strip(o[i].name) != Strip(o[j].name))
    && (forall i | 0 <= i < |o| :: Strip(o[i].name) != ProtoName)
  }

  /** `restoreObject`: a for...in loop filling a fresh object. */
  method RestoreObject<V>(source: Object<V>) returns (restoredObject: Object<V>)
    ensures restoredObject == Restore(source)
    ensures StripsApart(source) ==>
              |restoredObject| == |source| &&
              forall i | 0 <= i < |source| ::
                restoredObject[i] == Property(Strip(source[i].name), source[i].value)
  {
    restoredObject := [];
    for k := 0 to |source|
      invariant restoredObject == RenameAll(source[..k], Strip)
    {
      assert source[..k + 1][..k] == source[..k];
      var propName := Strip(source[k].name);
      restoredObject := Put(restoredObject, propName, source[k].value);
    }
    assert source[..|source|] == source;
    if StripsApart(source) {
      RenameAllPointwise(source, Strip);
    }
  }
}
