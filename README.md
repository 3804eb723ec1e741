# LocalDB in Dafny

A model of LocalDB (`src/localdb.js`), a small key/value store for the browser. LocalDB keeps an
in-memory table `db` of `{key, value}` records. It mirrors every save to a Web Storage backend:
`sessionStorage` by default, or `localStorage` once persistence is switched on. When the host has
no storage, a mock stands in for it.

Values are stored as snapshots. `copyObject` renames every property `p` to `"__" + p + "__"` in a
fresh object, and `restoreObject` strips two characters from each end of every name. Both fill the
fresh object by plain assignment, so a name that comes out as `__proto__` reaches the inherited
prototype accessor and adds no property. A property `proto` is lost in the copy, and an own
property `__proto__` is lost in the restore. The round trip holds for every object without those
two names (`Codec.RestoreCopy`).

The model has five modules, one per concern of the source:

- `Js` (`js.dfy`): the JavaScript semantics the code relies on.
  - A plain object is the sequence of its properties in for...in order, with distinct names.
  - Property assignment (`Put`) overwrites in place or appends at the end.
  - `String.prototype.substring` (`Substring`) clamps its arguments and swaps them when reversed.
- `Codec` (`codec.dfy`): `copyObject` and `restoreObject`, as loops (`CopyObject`, `RestoreObject`)
  proved against the functions `Copy` and `Restore`. Both are one generic `RenameAll`.
- `Backend` (`backend.dfy`): the `localDB` adapter over a storage that is `Mock` or `Real(items)`.
- `Table` (`table.dfy`): `indexKey`, and the upsert and the splice that `setValue` and
  `removeValue` apply to `db`, as functions on the record sequence, with their lemmas.
- `LocalDB` (`localdb.dfy`): the class `Store`. Its fields are the module variables `db`,
  `persistData`, `currentStorage` (the flag `currentIsLocal`), `localStorage` and `sessionStorage`.
  Its methods are `indexKey`, `getValue`, `setValue`, `removeValue` and `getterSetterPersistData`.
  Two client methods, `SaveReadRemoveScenario` and `PersistenceScenario`, show that the contracts
  are enough to follow a save, a read, a remove and a mode switch.

Conventions:

- Keys are strings. A key is truthy when it is not `""`.
- The argument of `persistData` is `Option<bool>`. `None` stands for `undefined` or `null`, the two
  values for which the test `newValue != undefined` is false. `Some(b)` stands for any other value of
  truthiness `b`.
- A backend call that throws is modelled by a `fails` parameter of the operation. The failure has
  no effect on the storage, and a failed read yields null.
- The host storages are constructor parameters, each `Mock` when the host has none.

Behaviours of the code that the model keeps, although a reader might expect otherwise:

- Keys are compared as strings. JavaScript's `==` would also let the number `1` match the key `"1"`.
- The backend receives the codec snapshot `record.value`, not the raw value.
- A read that misses the table returns the backend's object without restoring it. After a reload,
  the wrapped names come back (`FallbackSkipsRestore`).
- `remove(k)` of a key the table does not hold returns before touching the backend, so a value
  persisted in an earlier session stays readable (`ReadAfterRemoveUntracked`). A read after a
  remove is null only when the table held the key and the backend removal did not fail
  (`ReadAfterRemove`).
- A save under the empty key can never be found again. Each such save appends one more record
  (`EmptyKeyAppends`).

## Model

| member | source | states |
|---|---|---|
| `Js.Put` | src/localdb.js:161 | assigning a property: a new name is appended after all others; an existing name keeps its position and takes the new value; every other property is unchanged; names stay distinct; `__proto__` on an object without such an own property adds nothing |
| `Js.Substring` | src/localdb.js:173 | `substring` clamps both arguments into `[0, length]` and takes the slice between them in either argument order; in-range arguments give the plain slice; the result is never longer than the string |
| `Codec.StripWrap` | src/localdb.js:159-173 | stripping two characters from each end of `"__" + p + "__"` gives `p` back |
| `Codec.WrapInjective` | src/localdb.js:159 | distinct property names get distinct stored names |
| `Codec.RenameAllPointwise` | src/localdb.js:158-162 | when the renaming keeps names apart, the for...in copy is the input renamed property by property, same values, same order |
| `Codec.CopyRenames` | src/localdb.js:156-164 | for an object without a `proto` property, the snapshot has exactly one property `"__" + p + "__"` per property `p`, with the same value, in the same order |
| `Codec.RestoreCopy` | src/localdb.js:156-178 | round trip: for an object without properties `proto` and `__proto__`, `restoreObject(copyObject(o))` equals `o`: same names, same values, same order |
| `Codec.RenameAllLacksProto` | src/localdb.js:157-162 | an object filled by assignment from `{}` never has an own property `__proto__` |
| `Codec.WrapIsProto` | src/localdb.js:159 | the stored name is `__proto__` exactly when the property is `proto` |
| `Codec.CopyDropsProto` | src/localdb.js:156-164 | `copyObject({proto: v})` is `{}` |
| `Codec.RestoreDropsProto` | src/localdb.js:156-178 | an own property `__proto__` is copied as `____proto____`, and restoring that snapshot gives `{}` |
| `Codec.CopyDiffers` | src/localdb.js:159 | a snapshot of a non-empty object differs from the object: the object's shortest name is shorter than every stored name |
| `Codec.CopyObject` | src/localdb.js:156-164 | the loop returns the snapshot `Copy(o)`; without a `proto` property, each property is renamed to its wrapped name, values and order kept |
| `Codec.RestoreObject` | src/localdb.js:170-178 | the loop returns `Restore(o)`; when stripped names neither collide nor equal `__proto__`, each property is renamed to its stripped name, values and order kept |
| `Backend.SetItem` | src/localdb.js:49-55 | mock or failed write: storage unchanged; otherwise the value is stored under the key, other keys keep their values, no other key appears |
| `Backend.GetItem` | src/localdb.js:56-62 | a value comes back exactly when the storage is real, the read does not fail and the key is stored, and it is the stored one; otherwise null |
| `Backend.RemoveItem` | src/localdb.js:63-65 | mock or failed removal: storage unchanged; otherwise exactly the key is deleted |
| `Backend.FetchAfterMirror` | src/localdb.js:49-62 | a write that reached a real storage is what the next read of that key returns; with the mock, null |
| `Backend.MirrorLeavesOthers` | src/localdb.js:49-62 | a write under one key leaves every other key's read unchanged |
| `Backend.FetchAfterEvict` | src/localdb.js:56-65 | after a removal that did not fail, the key reads as null |
| `Backend.SetItemAsWritten` | src/localdb.js:49-55 | the adapter's write with its `__isMock__` test as written: skipped whenever the storage holds a `__isMock__` item |
| `Backend.MarkerItemStopsMirroringAsWritten` | src/localdb.js:50 | as written, once `__isMock__` has been saved to a real storage, a later write under another key is lost |
| `Backend.MarkerItemKeepsMirroring` | src/localdb.js:50-54 | with the mock recognised by identity, both writes reach the storage |
| `Table.IndexOf` | src/localdb.js:74-82 | -1 exactly when no record has a non-empty key equal to `key`; otherwise the smallest such index |
| `Table.EmptyKeyAppends` | src/localdb.js:77 | the empty key is never found, so a save under it appends a new record every time |
| `Table.UpsertShape` | src/localdb.js:110-117 | key not found: exactly one record `{key, snapshot}` appended at the end; found: same length, only that record's value replaced |
| `Table.UpsertFinds` | src/localdb.js:109-117 | after an upsert under a non-empty key, the first record found for it holds the new snapshot |
| `Table.UpsertLeavesOthers` | src/localdb.js:109-117 | an upsert under one key does not change what another key finds |
| `Table.UpsertKeepsUnique` | src/localdb.js:109-117 | an upsert keeps at most one record per non-empty key |
| `Table.UpsertLeavesOneRecord` | src/localdb.js:109-117 | after an upsert under a non-empty key, exactly one record has that key |
| `Table.RemoveShape` | src/localdb.js:130-134 | key not found: table unchanged; found: exactly that record removed, the rest in their relative order |
| `Table.RemoveKeepsUnique` | src/localdb.js:129-134 | a removal keeps at most one record per non-empty key |
| `Table.RemoveLeavesNoMatch` | src/localdb.js:129-134 | with unique keys, a removed key is no longer found |
| `Table.RemoveIdempotent` | src/localdb.js:129-134 | with unique keys, a second removal of the same key changes nothing |
| `Table.RemoveLeavesOthers` | src/localdb.js:129-134 | a removal does not change which record another key finds |
| `LocalDB.ReadAfterSave` | src/localdb.js:88-117 | after `save(k, v)` with non-empty `k` and `v` free of the names `proto` and `__proto__`, `read(k)` returns an object equal to `v`, whatever the backend holds |
| `LocalDB.SaveDropsProto` | src/localdb.js:88-117 | after `save(k, {proto: v})` with non-empty `k`, `read(k)` returns `{}` |
| `LocalDB.ReadOthersAfterSave` | src/localdb.js:88-124 | a save, mirrored or not, leaves every other key's read unchanged |
| `LocalDB.ReadAfterRemove` | src/localdb.js:88-142 | after removing a key the table held, `read` is null, unless the backend removal failed and leaves the stale backend copy |
| `LocalDB.ReadAfterRemoveUntracked` | src/localdb.js:129-133 | removing a key the table lacks leaves `read` with the backend's value for it |
| `LocalDB.FallbackSkipsRestore` | src/localdb.js:95-102 | on a table miss the backend's snapshot is returned without restoring it, so a non-empty saved object does not come back equal |
| `LocalDB.Store.constructor` | src/localdb.js:20-32 | initial state: empty table, flag false, current storage is the session storage |
| `LocalDB.Store.IndexKey` | src/localdb.js:74-82 | the loop returns -1 exactly when no record matches, otherwise the first matching index |
| `LocalDB.Store.GetValue` | src/localdb.js:88-103 | first match: its restored value; no match: what the current storage yields, null for the mock or a failed read |
| `LocalDB.Store.SetValue` | src/localdb.js:109-124 | the table becomes the upsert of the snapshot; only the current storage gets the write, and a failed write leaves it alone; unique keys kept |
| `LocalDB.Store.RemoveValue` | src/localdb.js:129-142 | the table loses the matching record if any; no match: neither storage is touched; match: the key is removed from the current storage only |
| `LocalDB.Store.PersistData` | src/localdb.js:183-195 | no value: nothing changes, the flag is returned; a value: the flag becomes its truthiness and the current storage is the durable one exactly when the flag is set; table and storages untouched |

## Findings

| source | as written | input that shows it | evidently intended | confidence | as-written member | corrected member |
|---|---|---|---|---|---|---|
| src/localdb.js:50 | `currentStorage.__isMock__` is read on the real storage object too. Web Storage exposes each stored item as a property of that name, so a stored `__isMock__` item passes the test. | With persistence on and a real `localStorage`, `save("__isMock__", v)` and then `save("user", w)`: the second write never reaches the storage. From then on `getItem` also stops parsing. | Only the mock object is treated as the mock. | medium, not executed | `Backend.MarkerItemStopsMirroringAsWritten` | `Backend.MarkerItemKeepsMirroring` |

The rest of the model uses the corrected adapter `Backend.SetItem`. Its general property is
`Backend.FetchAfterMirror`.

## Left out

- JSON serialization and parsing (src/localdb.js:37-46) and the check that a global `JSON` exists (src/localdb.js:15-17): foreign library calls. A real storage holds the objects written to it.
- Detecting the host storages with `global.localStorage || mock` (src/localdb.js:27-28): the two storages are constructor parameters, `Mock` when absent.
- Exceptions inside the `try/catch` blocks: each backend call either takes effect or has no effect, as chosen by the `fails` parameter.
- Store.SetValue, Store.GetValue: the store calls the corrected adapter (`Backend.SetItem`, `Backend.GetItem`). The code as written skips the write once the current real storage holds an item `__isMock__` (src/localdb.js:50), and then `getItem` returns the stored JSON text unparsed on a table miss (src/localdb.js:58). The as-written write is `Backend.SetItemAsWritten`.
- Store.GetValue: a failing host read and a failing parse are one `fails` flag. Both yield null in the source too.
- Backend.SetItemAsWritten: the as-written `getItem` with a stored `__isMock__` item returns the raw JSON text. The abstract storage cannot represent that text.
- Js.Put: an assignment under `__proto__` to an object without that own property adds no property, as in JavaScript. The change of prototype it makes when the value is an object is not modelled, because values are opaque. Neither are the inherited properties that a later for...in would then visit.
- Codec.CopyRenames, Codec.RestoreCopy, LocalDB.ReadAfterSave: stated only for objects without the names `proto` (and `__proto__` for the round trip). The source loses those properties, as `Codec.CopyDropsProto`, `Codec.RestoreDropsProto` and `LocalDB.SaveDropsProto` show.
- Loose equality between numbers and strings (src/localdb.js:77): keys are strings.
- Values that are not plain objects (`null`, primitives, arrays): `save` takes a plain object. For example, `copyObject(null)` is `{}` in the source.
- for...in enumeration details: integer-like names visited first, inherited enumerable properties, and symbol keys. Properties are visited in the order they were assigned.
- Shallow copying and the aliasing of nested objects: property values are opaque and immutable, so the snapshot's freedom from shared references is not stated.
- Store.SetValue: the existing record is replaced at its index, not mutated in place. No record object is visible outside `db`, so no caller can tell the difference.
- Strings are sequences of Dafny characters, not UTF-16 code units.
- The IIFE, the local `undefined` rebinding and the registration of `window.localDB` (src/localdb.js:11-12, src/localdb.js:197-204): module glue. The four registered operations are the methods of `Store`.
