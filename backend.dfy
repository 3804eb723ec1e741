/**
  The backend adapter `localDB`: one Web Storage capability, or the mock that
  stands in for an absent one, behind `setItem`, `getItem` and `removeItem`.
  Serialization to JSON and back is taken to give back the stored object, so
  a real storage is modelled by the objects it holds. Whether the host
  storage call throws is a parameter `fails`; the store's callers swallow
  every such failure.
 */
module Backend {
  import opened Js

  /** The mock, whose `setItem` and `removeItem` do nothing and whose `getItem` returns null, or a real storage. */
  datatype Storage<V> = Mock | Real(items: map<string, Object<V>>)

  /**
    `localDB.setItem(key, value)` inside the caller's try/catch: nothing for
    the mock, nothing when the host write fails, and otherwise `value` is
    written under `key`.
   */
  function SetItem<V>(s: Storage<V>, key: string, value: Object<V>, fails: bool): (r: Storage<V>)
    ensures r.Mock? == s.Mock?
    ensures s.Mock? || fails ==> r == s
    ensures r.Real? && !fails ==> key in r.items && r.items[key] == value
    ensures r.Real? ==> forall other | other in s.items && other != key ::
              other in r.items && r.items[other] == s.items[other]
    ensures r.Real? ==> r.items.Keys <= s.items.Keys + {key}
  {
    match s
    case Mock => s
    case Real(items) => if fails then s else Real(items[key := value])
  }

  /**
    `localDB.getItem(key)` inside the caller's try/catch: null from the mock,
    null when the host read or the parse throws, null when nothing is stored
    under `key` (`JSON.parse(null)` is null), and otherwise the stored object.
   */
  function GetItem<V>(s: Storage<V>, key: string, fails: bool): (r: Option<Object<V>>)
    ensures r.Some? <==> s.Real? && !fails && key in s.items
    ensures r.Some? ==> r.value == s.items[key]
  {
    match s
    case Mock => None
    case Real(items) => if fails || key !in items then None else Some(items[key])
  }

  /**
    `localDB.removeItem(key)` inside the caller's try/catch: nothing for the
    mock or when the host call fails, and otherwise `key` is deleted.
   */
  function RemoveItem<V>(s: Storage<V>, key: string, fails: bool): (r: Storage<V>)
    ensures r.Mock? == s.Mock?
    ensures s.Mock? || fails ==> r == s
    ensures r.Real? && !fails ==> r.items == s.items - {key}
  {
    match s
    case Mock => s
    case Real(items) => if fails then s else Real(items - {key})
  }

  /** A write that reached a real storage is what a later read of that key returns. */
  lemma FetchAfterMirror<V>(s: Storage<V>, key: string, value: Object<V>)
    ensures GetItem(SetItem(s, key, value, false), key, false) ==
            if s.Real? then Some(value) else None
  {
  }

  /** A write under one key leaves what every other key reads unchanged. */
  lemma MirrorLeavesOthers<V>(s: Storage<V>, key: string, value: Object<V>, fails: bool,
                              other: string, readFails: bool)
    requires other != key
    ensures GetItem(SetItem(s, key, value, fails), other, readFails) == GetItem(s, other, readFails)
  {
  }

  /** After a removal that did not fail, the key reads as null. */
  lemma FetchAfterEvict<V>(s: Storage<V>, key: string, readFails: bool)
    ensures GetItem(RemoveItem(s, key, false), key, readFails) == None
  {
  }

  /** The name of the marker property the mock carries. */
  const MockMarker := "__isMock__"

  /**
    The test `currentStorage.__isMock__` exactly as written. A Web Storage
    object exposes every stored item as a property of the same name, so a
    real storage holding an item named `__isMock__` (whose stored JSON text
    is never empty, hence truthy) passes the test as well.
   */
  predicate LooksLikeMockAsWritten<V>(s: Storage<V>) {
    s.Mock? || MockMarker in s.items
  }

  /** `localDB.setItem` as written, with the marker test above. */
  function SetItemAsWritten<V>(s: Storage<V>, key: string, value: Object<V>, fails: bool): (r: Storage<V>)
    ensures LooksLikeMockAsWritten(s) ==> r == s
    ensures !LooksLikeMockAsWritten(s) ==> r == SetItem(s, key, value, fails)
  {
    if LooksLikeMockAsWritten(s) then s
    else match s
      case Real(items) => if fails then s else Real(items[key := value])
  }

  /**
    As written, saving under the key `__isMock__` to a real storage turns
    mirroring off: the marker item is written, and from then on every other
    write is skipped although the host accepts it.
   */
  lemma MarkerItemStopsMirroringAsWritten<V>(marker: Object<V>, value: Object<V>)
    ensures var s := SetItemAsWritten(Real(map[]), MockMarker, marker, false);
            && GetItem(s, MockMarker, false) == Some(marker)
            && GetItem(SetItemAsWritten(s, "user", value, false), "user", false) == None
  {
  }

  /**
    With the mock told apart from real storage by what it is, the same two
    writes both reach the storage.
   */
  lemma MarkerItemKeepsMirroring<V>(marker: Object<V>, value: Object<V>)
    ensures var s := SetItem(Real(map[]), MockMarker, marker, false);
            && GetItem(s, MockMarker, false) == Some(marker)
            && GetItem(SetItem(s, "user", value, false), "user", false) == Some(value)
  {
  }
}
