# Normalized cache store

A Dafny model of the `Store` class of urql-exchange-graphcache (`src/store.ts`).
The store is the bottom layer of a normalized GraphQL cache. It holds three
pieces of mutable state:

- `records`: the entity table. It maps an entity key to an attribute bag
  (field name to value).
- `links`: the link table. It maps a link key to a link, which is `null` or a
  reference.
- `touched`: the log of every key accessed since the last flush.

Lookups return the stored value, or `null` when the key is absent. Writing
`null` or `undefined` deletes. Entity accesses do not log operation keys
(those for which `isOperation` holds), while link accesses log every key.
`flushTouched` drains the log into a list without repeats, kept in order of
first access. The cache layer above uses that list to decide which queries to
re-run.

The model has two modules:

- `TouchLog` (`touch_log.dfy`) models the `filter`/`indexOf` deduplication as
  the functions `IndexOf`, `FilterFirst` and `Dedup`. Lemmas about them show
  that a flush returns every logged key exactly once, in order of first
  occurrence. Further lemmas show how a flush behaves as the log grows.
- `Store` (`store.dfy`) holds the class `Store<V, L>`. Its fields `touched`,
  `records` and `links` are a `seq` and two `map`s, and its methods reassign
  them. Each method's `ensures` gives the whole new state, the value returned
  and the keys appended to the log. Three client methods at the end combine
  the operations: a double log flushed once, an operation key that entity
  accesses never log while link accesses do, and a store restored from a
  snapshot.

Attribute values (`V`) and link targets (`L`) are type parameters. The
function `isOperation` is a constructor argument of type `string -> bool`, and
no property depends on how it decides.

## Model

| member | source | states |
|---|---|---|
| `TouchLog.IndexOf` | src/store.ts:77 | Returns -1 exactly when the key does not occur. Otherwise it returns a position holding the key with no earlier occurrence, i.e. the first one. |
| `TouchLog.FilterFirst` | src/store.ts:76-78 | The filter applied to the first `n` log entries, keeping an entry exactly at the first position of its key. Its own contract only bounds it: at most `n` entries, each taken from the first `n`. `FilterFirstSpec` characterises it fully. |
| `TouchLog.Dedup` | src/store.ts:76-78 | The flushed list. Its own contract says every logged key is in it, only logged keys are, and none twice. `DedupSpec` adds first-occurrence order, which fixes the result uniquely. |
| `TouchLog.FilterFirstSpec` | src/store.ts:76-78 | Filtering the first `n` log entries keeps exactly the keys among them. Each kept key has its first occurrence among them, and kept keys appear in strictly increasing order of first occurrence. |
| `TouchLog.DedupSpec` | src/store.ts:75-81 | The flushed list contains a key iff the log does, has no repeats, and lists keys in order of first occurrence in the log. |
| `TouchLog.IndexOfAppend` | src/store.ts:77 | Appending to the log does not move the first occurrence of a key already in it. |
| `TouchLog.FilterFirstAppend` | src/store.ts:76-78 | Appending to the log does not change which of the earlier entries the filter keeps. |
| `TouchLog.DedupSnoc` | src/store.ts:76-78 | Logging one more key adds it to the end of the flushed list exactly when it was not logged before. |
| `TouchLog.DedupDistinct` | src/store.ts:76-78 | A log without repeats flushes to itself. |
| `TouchLog.DedupIdempotent` | src/store.ts:76-78 | Deduplicating a flushed list again changes nothing. |
| `TouchLog.DedupRepeat` | src/store.ts:43-47 | Logging a key twice in a row, as `writeEntityValue` does, flushes the same as logging it once. |
| `TouchLog.FilterFirstPrefix` | src/store.ts:76-78 | Filtering fewer log entries yields a prefix of filtering more. |
| `TouchLog.DedupPrefix` | src/store.ts:75-81 | Later accesses only add keys to the end of the flushed list. Keys flushed from a prefix of the log keep their positions. |
| `Store.WithField` | src/store.ts:48-52 | After a `null` or `undefined` write the field is absent. After any other write it holds the value. No other field changes. |
| `Store.LinkAt` | src/store.ts:57-58 | A stored link is returned as stored, and a missing link reads as `null`. |
| `Store.WithLink` | src/store.ts:64-68 | A `null` link removes the key and any other link is stored. Either way, reading the key back gives the written link. No other key changes. |
| `Store.Store.EntityTouch` | src/store.ts:25-27 | An entity access logs its key unless `isOperation` holds for it. |
| `Store.Store.constructor` | src/store.ts:14-22 | The log starts empty. The tables equal those of the initial data when it is given, and are empty otherwise. |
| `Store.Store.GetEntity` | src/store.ts:24-31 | Returns the stored entity, or none when the key is absent. It leaves both tables unchanged. It appends the key to the log iff the key is not an operation key. |
| `Store.Store.GetOrCreateEntity` | src/store.ts:33-40 | Afterwards the key is in `records`. A present entity is returned with the table unchanged. Otherwise an empty entity is stored and returned, and no other key changes. Logging is as for `GetEntity`. |
| `Store.Store.WriteEntityValue` | src/store.ts:42-53 | Afterwards the entity exists, even after a deletion. The field is absent after a `null`/`undefined` write and holds the value otherwise. No other field, entity or link changes. A graph key is logged twice and an operation key not at all. |
| `Store.Store.GetLink` | src/store.ts:55-59 | Returns the stored link, or `null` when there is none. It always logs the key and changes no table. |
| `Store.Store.WriteLink` | src/store.ts:61-69 | A `null` link removes the key and any other link is stored. Reading the key back gives the written link. No other link or record changes. The key is always logged. |
| `Store.Store.ToJSON` | src/store.ts:71-73 | Returns exactly the current entity and link tables. |
| `Store.Store.FlushTouched` | src/store.ts:75-81 | Returns each distinct logged key exactly once, in order of first access. It empties the log and leaves the tables unchanged. |
| `Store.RepeatedKeyFlushesOnce` | src/store.ts:75-81 | An example instance of `DedupRepeat`, used by the client methods: a log holding one key twice flushes to that key once. |
| `Store.FlushAfterWrite` | src/store.ts:42-81 | A write to a graph key logs the key twice, yet the flush returns it once. An immediate second flush returns the empty list. |
| `Store.FlushOperationKey` | src/store.ts:24-69 | For an operation key, a flush after an entity write and read is empty. A flush after a following link write and read returns the key. |
| `Store.RestoreFromSnapshot` | src/store.ts:14-73 | A store built from another's `toJSON` output reads every entity and every link exactly as the original holds them. |

## Left out

- `isOperation` and the `Entity`/`Link` types are defined in `src/keys.ts` and `src/types.ts`, which are not part of this model. `isOperation` is a parameter with no assumed behaviour. Attribute values and link targets are type parameters, and a link is `null` or a reference.
- JavaScript object identity is not modelled. The tables are value maps, so the following are not represented:
  - the `Object.create(null)` prototypes;
  - the shallow copy made by `Object.assign`;
  - the fact that `toJSON` returns the live table objects. A caller that mutates them changes the store.
- Store.Store.GetOrCreateEntity: the source returns the live entity object, and `writeEntityValue` updates the table through that alias. The model returns the entity's value, and `WriteEntityValue` stores the updated entity back into `records`.
- An initial table whose entries are `undefined` (which `getEntity` and `getLink` would read as missing) is not represented. Map values are always present.
- The cache exchange (`src/exchange.ts`) is not part of this model: dependency tracking, redelivery and optimistic writes. `src/exchange.test.ts` only exercises that layer.
- `toJSON` returns the live tables, not a copy, and `getLink`/`writeLink` log every key, including operation keys, unlike the entity accessors. The model follows the code.
