/**
  The store itself: the record table, the persistence flag and the binding of
  `currentStorage`, with the public operations `save` (SetValue), `read`
  (GetValue), `remove` (RemoveValue) and `persistData` (PersistData).
 */
module LocalDB {
  import opened Js
  import opened Codec
  import opened Backend
  import opened Table

  /**
    What `getValue(key)` returns: the restored value of the first matching
    record, and only when no record matches, whatever the current storage
    yields for the key, passed on without restoring.
   */
  function Read<V>(db: seq<Record<V>>, storage: Storage<V>, key: string, fails: bool): Option<Object<V>> {
    var index := IndexOf(db, key);
    if index >= 0 then Some(Restore(db[index].value)) else GetItem(storage, key, fails)
  }

  /**
    A read after a save under a non-empty key returns the saved object,
    whatever the backend holds, when the object has ordinary names.
   */
  lemma ReadAfterSave<V>(db: seq<Record<V>>, storage: Storage<V>, key: string, value: Object<V>, fails: bool)
    requires key != ""
    requires OrdinaryNames(value)
    ensures Read(Upserted(db, key, Copy(value)), storage, key, fails) == Some(value)
  {
    UpsertFinds(db, key, Copy(value));
    RestoreCopy(value);
  }

  /**
    A save of an object whose only property is `proto` reads back as `{}`:
    the copy assigns it under `__proto__`.
   */
  lemma SaveDropsProto<V>(db: seq<Record<V>>, storage: Storage<V>, key: string, value: V, fails: bool)
    requires key != ""
    ensures var r := Read(Upserted(db, key, Copy([Property("proto", value)])), storage, key, fails);
            r.Some? && r.value == []
  {
    CopyDropsProto(value);
    UpsertFinds(db, key, []);
    assert Restore<V>([]) == [];
  }

  /** A save under one key, mirrored or not, leaves what every other key reads unchanged. */
  lemma ReadOthersAfterSave<V>(db: seq<Record<V>>, storage: Storage<V>, key: string, value: Object<V>,
                               fails: bool, other: string, readFails: bool)
    requires other != key
    ensures Read(Upserted(db, key, Copy(value)), SetItem(storage, key, Copy(value), fails), other, readFails)
            == Read(db, storage, other, readFails)
  {
    UpsertLeavesOthers(db, key, Copy(value), other);
    MirrorLeavesOthers(storage, key, Copy(value), fails, other, readFails);
  }

  /**
    A read after removing a key the table held falls back to the storage: it
    is null unless the backend removal failed, in which case the stale
    backend copy is returned.
   */
  lemma ReadAfterRemove<V>(db: seq<Record<V>>, storage: Storage<V>, key: string, evictFails: bool,
                           readFails: bool)
    requires UniqueKeys(db)
    requires 0 <= IndexOf(db, key)
    ensures Read(Removed(db, key), RemoveItem(storage, key, evictFails), key, readFails)
            == if evictFails then GetItem(storage, key, readFails) else None
  {
    RemoveLeavesNoMatch(db, key);
  }

  /**
    Removing a key the table does not hold leaves the backend alone, so a
    later read still returns what the backend holds for it.
   */
  lemma ReadAfterRemoveUntracked<V>(db: seq<Record<V>>, storage: Storage<V>, key: string, readFails: bool)
    requires IndexOf(db, key) < 0
    ensures Read(Removed(db, key), storage, key, readFails) == GetItem(storage, key, readFails)
  {
  }

  /**
    The fallback path skips the restore step: when the table misses a key
    whose snapshot reached a real storage (say, in an earlier session), the
    read returns the stored snapshot with its wrapped names, which for a
    non-empty object is not the object that was saved.
   */
  lemma FallbackSkipsRestore<V>(db: seq<Record<V>>, storage: Storage<V>, key: string, value: Object<V>)
    requires IndexOf(db, key) < 0
    requires storage.Real?
    ensures Read(db, SetItem(storage, key, Copy(value), false), key, false) == Some(Copy(value))
    ensures |value| > 0 ==> Read(db, SetItem(storage, key, Copy(value), false), key, false) != Some(value)
  {
    if |value| > 0 {
      CopyDiffers(value);
    }
  }

  class Store<V> {
    /** The record table. */
    var db: seq<Record<V>>
    var persistData: bool
    /** Whether `currentStorage` is bound to `localStorage` rather than `sessionStorage`. */
    var currentIsLocal: bool
    var localStorage: Storage<V>
    var sessionStorage: Storage<V>

    /**
      At most one record per non-empty key, and `currentStorage` is the
      durable storage exactly when the persistence flag is set.
     */
    ghost predicate Valid()
      reads this
    {
      UniqueKeys(db) && currentIsLocal == persistData
    }

    /** The storage `localDB` forwards to. */
    function CurrentStorage(): Storage<V>
      reads this
    {
      if currentIsLocal then localStorage else sessionStorage
    }

    /**
      The module's initial state: an empty table, no persistence, and
      `currentStorage` bound to the session storage. Each storage is the
      host's, or `Mock` when the host has none.
     */
    constructor (localStorage: Storage<V>, sessionStorage: Storage<V>)
      ensures Valid()
      ensures db == [] && !persistData && CurrentStorage() == sessionStorage
      ensures this.localStorage == localStorage && this.sessionStorage == sessionStorage
    {
      this.localStorage := localStorage;
      this.sessionStorage := sessionStorage;
      db := [];
      currentIsLocal := false;
      persistData := false;
    }

    /** `indexKey`: the index of the first record with a non-empty key equal to `key`, or -1. */
    method IndexKey(key: string) returns (index: int)
      ensures index == IndexOf(db, key)
      ensures index == -1 <==> forall j | 0 <= j < |db| :: !Matches(db[j], key)
      ensures 0 <= index ==>
                index < |db| && Matches(db[index], key) &&
                forall j | 0 <= j < index :: !Matches(db[j], key)
    {
      for i := 0 to |db|
        invariant forall j | 0 <= j < i :: !Matches(db[j], key)
      {
        var record := db[i];
        if record.key != "" && record.key == key {
          return i;
        }
      }
      return -1;
    }

    /**
      `getValue`: a scan of the table; on a hit the restored value of the
      first matching record, on a miss the current storage's answer (null
      from the mock, or when the backend read fails).
     */
    method GetValue(key: string, fails: bool) returns (result: Option<Object<V>>)
      ensures result == Read(db, CurrentStorage(), key, fails)
      ensures 0 <= IndexOf(db, key) ==> result == Some(Restore(db[IndexOf(db, key)].value))
      ensures IndexOf(db, key) < 0 ==> result == GetItem(CurrentStorage(), key, fails)
    {
      for i := 0 to |db|
        invariant forall j | 0 <= j < i :: !Matches(db[j], key)
      {
        var record := db[i];
        if record.key != "" && record.key == key {
          var restored := RestoreObject(record.value);
          return Some(restored);
        }
      }
      result := GetItem(CurrentStorage(), key, fails);
    }

    /**
      `setValue`: upserts the snapshot of `value` into the table, then
      mirrors the record to the current storage; a failed backend write
      changes nothing but the backend.
     */
    method SetValue(key: string, value: Object<V>, fails: bool)
      requires Valid()
      modifies this`db, this`localStorage, this`sessionStorage
      ensures Valid()
      ensures db == Upserted(old(db), key, Copy(value))
      ensures CurrentStorage() == SetItem(old(CurrentStorage()), key, Copy(value), fails)
      ensures if currentIsLocal then sessionStorage == old(sessionStorage)
              else localStorage == old(localStorage)
    {
      var index := IndexKey(key);
      var snapshot := CopyObject(value);
      var record: Record<V>;
      if 0 > index {
        record := Record(key, snapshot);
        db := db + [record];
      } else {
        record := db[index].(value := snapshot);
        db := db[index := record];
      }
      UpsertKeepsUnique(old(db), key, snapshot);
      if currentIsLocal {
        localStorage := SetItem(localStorage, record.key, record.value, fails);
      } else {
        sessionStorage := SetItem(sessionStorage, record.key, record.value, fails);
      }
    }

    /**
      `removeValue`: when a record matches, splices it out and removes the
      key from the current storage; when none matches, changes nothing.
     */
    method RemoveValue(key: string, fails: bool)
      requires Valid()
      modifies this`db, this`localStorage, this`sessionStorage
      ensures Valid()
      ensures db == Removed(old(db), key)
      ensures IndexOf(old(db), key) < 0 ==>
                localStorage == old(localStorage) && sessionStorage == old(sessionStorage)
      ensures 0 <= IndexOf(old(db), key) ==>
                CurrentStorage() == RemoveItem(old(CurrentStorage()), key, fails)
      ensures if currentIsLocal then sessionStorage == old(sessionStorage)
              else localStorage == old(localStorage)
    {
      var index := IndexKey(key);
      if 0 > index {
        return;
      }
      db := db[..index] + db[index + 1..];
      RemoveKeepsUnique(old(db), key);
      if currentIsLocal {
        localStorage := RemoveItem(localStorage, key, fails);
      } else {
        sessionStorage := RemoveItem(sessionStorage, key, fails);
      }
    }

    /**
      `getterSetterPersistData(newValue)`: with no value (undefined or null)
      a pure read of the flag; otherwise the flag becomes the truthiness of
      the argument and `currentStorage` is rebound to the durable storage
      exactly when it is set. The table and the storages are not touched.
     */
    method PersistData(newValue: Option<bool>) returns (flag: bool)
      requires Valid()
      modifies this`persistData, this`currentIsLocal
      ensures Valid()
      ensures newValue.None? ==> persistData == old(persistData)
      ensures newValue.Some? ==> persistData == newValue.value
      ensures CurrentStorage() == if persistData then localStorage else sessionStorage
      ensures flag == persistData
    {
      if newValue.Some? {
        persistData := if newValue.value then true else false;
        if persistData {
          currentIsLocal := true;
        } else {
          currentIsLocal := false;
        }
      }
      return persistData;
    }
  }

  /** Saving, reading, removing and reading again with no host storage at all. */
  method SaveReadRemoveScenario() {
    var store := new Store<string>(Mock, Mock);
    var user: Object<string> := [Property("name", "Ana")];
    store.SetValue("user", user, false);
    ReadAfterSave([], Mock, "user", user, false);
    var read := store.GetValue("user", false);
    assert read == Some(user);
    ghost var saved := store.db;
    store.RemoveValue("user", false);
    ReadAfterRemove(saved, Mock, "user", false, false);
    read := store.GetValue("user", false);
    assert read == None;
    store.RemoveValue("user", false);
    assert store.db == [];
  }

  /** Switching persistence on sends later saves to the durable storage only. */
  method PersistenceScenario(value: Object<int>) {
    var store := new Store<int>(Real(map[]), Real(map[]));
    var flag := store.PersistData(Some(true));
    flag := store.PersistData(None);
    assert flag;
    store.SetValue("k", value, false);
    assert GetItem(store.localStorage, "k", false) == Some(Copy(value));
    assert store.sessionStorage == Real(map[]);
    flag := store.PersistData(Some(false));
    assert !flag && store.CurrentStorage() == Real(map[]);
  }
}
