/**
  The record table `db`: an ordered sequence of `{key, value}` records, where
  each value is a snapshot made by the codec. This module gives the lookup,
  the upsert of `setValue` and the splice of `removeValue` as functions on
  the sequence, with the properties they keep.
 */
module Table {
  import opened Js

  datatype Record<V> = Record(key: string, value: Object<V>)

  /**
    The test `record && record.key && record.key == key`: a record whose key
    is the empty string (falsy) never matches.
   */
  predicate Matches<V>(record: Record<V>, key: string) {
    record.key != "" && record.key == key
  }

  /** What `indexKey(key)` returns: the first matching position, or -1. */
  function IndexOf<V>(db: seq<Record<V>>, key: string): (index: int)
    ensures -1 <= index < |db|
    ensures index == -1 ==> forall j | 0 <= j < |db| :: !Matches(db[j], key)
    ensures 0 <= index ==> Matches(db[index], key)
    ensures forall j | 0 <= j < index :: !Matches(db[j], key)
  {
    IndexFrom(db, key, 0)
  }

  /** The scan of `indexKey` from position `start` on. */
  function IndexFrom<V>(db: seq<Record<V>>, key: string, start: nat): (index: int)
    requires start <= |db|
    ensures index == -1 || start <= index < |db|
    ensures index == -1 ==> forall j | start <= j < |db| :: !Matches(db[j], key)
    ensures 0 <= index ==> Matches(db[index], key)
    ensures forall j | start <= j < index :: !Matches(db[j], key)
    decreases |db| - start
  {
    if start == |db| then -1
    else if Matches(db[start], key) then start
    else IndexFrom(db, key, start + 1)
  }

  /** At most one record per non-empty key. */
  predicate UniqueKeys<V>(db: seq<Record<V>>) {
    forall i, j | 0 <= i < j < |db| :: db[i].key != "" ==> db[i].key != db[j].key
  }

  /**
    The table after `setValue(key, ...)` stores `snapshot`: a new record at
    the end when no record matches, otherwise the matching record with its
    value replaced.
   */
  function Upserted<V>(db: seq<Record<V>>, key: string, snapshot: Object<V>): seq<Record<V>> {
    var index := IndexOf(db, key);
    if index < 0 then db + [Record(key, snapshot)]
    else db[index := db[index].(value := snapshot)]
  }

  /** The table after `removeValue(key)`: the matching record spliced out, if any. */
  function Removed<V>(db: seq<Record<V>>, key: string): seq<Record<V>> {
    var index := IndexOf(db, key);
    if index < 0 then db else db[..index] + db[index + 1..]
  }

  /** The empty key is never found, so every save under it adds one more record. */
  lemma EmptyKeyAppends<V>(db: seq<Record<V>>, snapshot: Object<V>)
    ensures IndexOf(db, "") == -1
    ensures Upserted(db, "", snapshot) == db + [Record("", snapshot)]
  {
  }

  /**
    An upsert either appends exactly one record for the key or keeps the
    length and every other record, replacing only the value of the match.
   */
  lemma UpsertShape<V>(db: seq<Record<V>>, key: string, snapshot: Object<V>)
    ensures var r := Upserted(db, key, snapshot);
            if IndexOf(db, key) < 0 then
              |r| == |db| + 1 && r[..|db|] == db && r[|db|] == Record(key, snapshot)
            else
              |r| == |db| && r[IndexOf(db, key)] == Record(key, snapshot) &&
              forall j | 0 <= j < |db| && j != IndexOf(db, key) :: r[j] == db[j]
  {
  }

  /** After an upsert under a non-empty key, the first record found for it holds the new snapshot. */
  lemma UpsertFinds<V>(db: seq<Record<V>>, key: string, snapshot: Object<V>)
    requires key != ""
    ensures var r := Upserted(db, key, snapshot);
            0 <= IndexOf(r, key) && r[IndexOf(r, key)].value == snapshot
  {
    var r := Upserted(db, key, snapshot);
    var index := IndexOf(db, key);
    var at := if index < 0 then |db| else index;
    assert Matches(r[at], key);
    assert forall j | 0 <= j < at :: r[j] == db[j];
  }

  /** An upsert under one key changes nothing that another key finds. */
  lemma UpsertLeavesOthers<V>(db: seq<Record<V>>, key: string, snapshot: Object<V>, other: string)
    requires other != key
    ensures var r := Upserted(db, key, snapshot);
            IndexOf(r, other) == IndexOf(db, other) &&
            (0 <= IndexOf(db, other) ==> r[IndexOf(r, other)] == db[IndexOf(db, other)])
  {
  }

  /** An upsert keeps at most one record per non-empty key. */
  lemma UpsertKeepsUnique<V>(db: seq<Record<V>>, key: string, snapshot: Object<V>)
    requires UniqueKeys(db)
    ensures UniqueKeys(Upserted(db, key, snapshot))
  {
  }

  /** After an upsert under a non-empty key, exactly one record has that key. */
  lemma UpsertLeavesOneRecord<V>(db: seq<Record<V>>, key: string, snapshot: Object<V>)
    requires UniqueKeys(db)
    requires key != ""
    ensures var r := Upserted(db, key, snapshot);
            forall j | 0 <= j < |r| :: Matches(r[j], key) <==> j == IndexOf(r, key)
  {
  }

  /** `r` is `db` with position `index` spliced out: every later record moves one place to the front. */
  ghost predicate SplicedAt<V>(db: seq<Record<V>>, index: int, r: seq<Record<V>>) {
    && 0 <= index < |db|
    && |r| == |db| - 1
    && (forall j | 0 <= j < index :: r[j] == db[j])
    && (forall j | index <= j < |r| :: r[j] == db[j + 1])
  }

  lemma SpliceAt<V>(db: seq<Record<V>>, index: int)
    requires 0 <= index < |db|
    ensures SplicedAt(db, index, db[..index] + db[index + 1..])
  {
  }

  /**
    A removal of a key that is not found changes nothing; otherwise exactly
    the matching record goes and the others keep their relative order.
   */
  lemma RemoveShape<V>(db: seq<Record<V>>, key: string)
    ensures var r := Removed(db, key);
            var index := IndexOf(db, key);
            if index < 0 then r == db
            else SplicedAt(db, index, r) && multiset(r) + multiset{db[index]} == multiset(db)
  {
    var index := IndexOf(db, key);
    if index >= 0 {
      SpliceAt(db, index);
      assert db == db[..index] + [db[index]] + db[index + 1..];
    }
  }

  /** A removal keeps at most one record per non-empty key. */
  lemma RemoveKeepsUnique<V>(db: seq<Record<V>>, key: string)
    requires UniqueKeys(db)
    ensures UniqueKeys(Removed(db, key))
  {
    var index := IndexOf(db, key);
    if index >= 0 {
      var r := Removed(db, key);
      SpliceAt(db, index);
      forall i, j | 0 <= i < j < |r| && r[i].key != "" ensures r[i].key != r[j].key {
        var i' := if i < index then i else i + 1;
        var j' := if j < index then j else j + 1;
        assert r[i] == db[i'] && r[j] == db[j'];
      }
    }
  }

  /** Splicing out one record adds no match for `other`. */
  lemma SpliceMisses<V>(db: seq<Record<V>>, index: int, r: seq<Record<V>>, other: string)
    requires SplicedAt(db, index, r)
    requires forall j | 0 <= j < |db| && j != index :: !Matches(db[j], other)
    ensures IndexOf(r, other) < 0
  {
    forall j | 0 <= j < |r| ensures !Matches(r[j], other) {
      if j >= index { assert r[j] == db[j + 1]; }
    }
  }

  /** With unique keys, a removed key is no longer found. */
  lemma RemoveLeavesNoMatch<V>(db: seq<Record<V>>, key: string)
    requires UniqueKeys(db)
    ensures IndexOf(Removed(db, key), key) == -1
  {
    var index := IndexOf(db, key);
    if index >= 0 {
      SpliceAt(db, index);
      SpliceMisses(db, index, Removed(db, key), key);
    }
  }

  /** With unique keys, removing the same key twice is the same as removing it once. */
  lemma RemoveIdempotent<V>(db: seq<Record<V>>, key: string)
    requires UniqueKeys(db)
    ensures Removed(Removed(db, key), key) == Removed(db, key)
  {
    RemoveLeavesNoMatch(db, key);
  }

  /** The first record that matches `key` sits at `at`. */
  lemma FirstMatchAt<V>(db: seq<Record<V>>, key: string, at: int)
    requires 0 <= at < |db| && Matches(db[at], key)
    requires forall j | 0 <= j < at :: !Matches(db[j], key)
    ensures IndexOf(db, key) == at
  {
  }

  /** A removal of one key changes nothing that another key finds. */
  lemma RemoveLeavesOthers<V>(db: seq<Record<V>>, key: string, other: string)
    requires other != key
    ensures var r := Removed(db, key);
            (IndexOf(r, other) < 0 <==> IndexOf(db, other) < 0) &&
            (0 <= IndexOf(db, other) ==> r[IndexOf(r, other)] == db[IndexOf(db, other)])
  {
    var index := IndexOf(db, key);
    var found := IndexOf(db, other);
    if index >= 0 {
      RemoveShape(db, key);
      var r := Removed(db, key);
      assert SplicedAt(db, index, r);
      if found < 0 {
        SpliceMisses(db, index, r, other);
        assert IndexOf(r, other) < 0;
      } else if found < index {
        SpliceFindsEarlier(db, index, r, found, other);
        assert IndexOf(r, other) == found && r[found] == db[found];
      } else {
        assert db[found].key != db[index].key;
        SpliceFindsLater(db, index, r, found, other);
        assert IndexOf(r, other) == found - 1 && r[found - 1] == db[found];
      }
    }
  }

  /** A first match before the spliced record stays where it is. */
  lemma SpliceFindsEarlier<V>(db: seq<Record<V>>, index: int, r: seq<Record<V>>, found: int, other: string)
    requires SplicedAt(db, index, r)
    requires 0 <= found < index
    requires IndexOf(db, other) == found
    ensures IndexOf(r, other) == found && r[found] == db[found]
  {
    FirstMatchAt(r, other, found);
  }

  /** A first match after the spliced record moves one place to the front. */
  lemma SpliceFindsLater<V>(db: seq<Record<V>>, index: int, r: seq<Record<V>>, found: int, other: string)
    requires SplicedAt(db, index, r)
    requires index < found
    requires IndexOf(db, other) == found
    ensures IndexOf(r, other) == found - 1 && r[found - 1] == db[found]
  {
    forall j | 0 <= j < found - 1 ensures !Matches(r[j], other) {
      if j >= index { assert r[j] == db[j + 1]; }
    }
    FirstMatchAt(r, other, found - 1);
  }
}
