/**
 The normalized cache store: an entity table (entity key to attribute bag), a
 link table (link key to link) and the log of every key accessed since the
 last flush. The higher layers learn which keys were read or written only
 through `FlushTouched`.

 `isOperation`, which tells operation-scoped keys apart from graph keys, is
 defined elsewhere; the store receives it as a parameter and nothing here
 depends on how it decides. Attribute values (`V`) and link targets (`L`) are
 abstract.
 */
module Store {
  import opened TouchLog

  datatype Option<T> = None | Some(value: T)

  /** A stored link: `null`, or a reference (one key or a list of keys). */
  datatype Link<L> = NullLink | Ref(target: L)

  /** The value passed to `writeEntityValue`: `null`, `undefined` or a value. */
  datatype FieldValue<V> = Null | Undefined | Defined(value: V)

  /** An attribute bag: field name to value. */
  type Entity<V> = map<string, V>

  /** The two tables, as taken by the constructor and returned by `ToJSON`. */
  datatype StoreData<V, L> = StoreData(records: map<string, Entity<V>>, links: map<string, Link<L>>)

  /** The entity `e` after writing `val` to its field `prop`: a `null` or
      `undefined` value deletes the field, any other value replaces it. */
  function WithField<V>(e: Entity<V>, prop: string, val: FieldValue<V>): (r: Entity<V>)
    ensures prop in r <==> val.Defined?
    ensures val.Defined? ==> r[prop] == val.value
    ensures forall q :: q != prop ==> (q in r <==> q in e)
    ensures forall q :: q != prop && q in e ==> r[q] == e[q]
  {
    match val
    case Defined(v) => e[prop := v]
    case _ => e - {prop}
  }

  /** What `getLink` reads from `links` at `key`: a missing link reads as `null`. */
  function LinkAt<L>(links: map<string, Link<L>>, key: string): (r: Link<L>)
    ensures key in links ==> r == links[key]
    ensures key !in links ==> r.NullLink?
  {
    if key in links then links[key] else NullLink
  }

  /** The link table after `writeLink(key, link)`: a `null` link deletes the
      entry, any other link replaces it. Reading `key` back gives `link` in
      both cases, and every other key reads as before. */
  function WithLink<L>(links: map<string, Link<L>>, key: string, link: Link<L>): (r: map<string, Link<L>>)
    ensures link.NullLink? <==> key !in r
    ensures LinkAt(r, key) == link
    ensures forall k :: k != key ==> (k in r <==> k in links)
    ensures forall k :: k != key && k in links ==> r[k] == links[k]
  {
    if link.NullLink? then links - {key} else links[key := link]
  }

  class Store<V, L> {
    /** Whether a key names an operation-scoped record. */
    const isOperation: string -> bool
    var touched: seq<string>
    var records: map<string, Entity<V>>
    var links: map<string, Link<L>>

    /** What an entity access appends to the log: the key, unless it is an
        operation key. */
    function EntityTouch(key: string): (r: seq<string>)
      ensures isOperation(key) ==> r == []
      ensures !isOperation(key) ==> r == [key]
    {
      if isOperation(key) then [] else [key]
    }

    /** A new store: an empty log, and either empty tables or the tables of
        `initial`. */
    constructor (isOperation: string -> bool, initial: Option<StoreData<V, L>>)
      ensures this.isOperation == isOperation
      ensures touched == []
      ensures initial.None? ==> records == map[] && links == map[]
      ensures initial.Some? ==> records == initial.value.records && links == initial.value.links
    {
      this.isOperation := isOperation;
      touched := [];
      records := map[];
      links := map[];
      if initial.Some? {
        records := initial.value.records;
        links := initial.value.links;
      }
    }

    /** Looks `key` up in the entity table, logging it unless it is an
        operation key. */
    method GetEntity(key: string) returns (entity: Option<Entity<V>>)
      modifies this`touched
      ensures key in records ==> entity == Some(records[key])
      ensures key !in records ==> entity == None
      ensures touched == old(touched) + EntityTouch(key)
      ensures isOperation(key) <==> touched == old(touched)
      ensures records == old(records) && links == old(links)
    {
      if !isOperation(key) {
        touched := touched + [key];
      }
      if key in records {
        entity := Some(records[key]);
      } else {
        entity := None;
      }
    }

    /** Returns the entity at `key`, storing a fresh empty one first when
        there is none; logs as `GetEntity` does. */
    method GetOrCreateEntity(key: string) returns (entity: Entity<V>)
      modifies this`touched, this`records
      ensures key in records && records[key] == entity
      ensures key in old(records) ==> records == old(records)
      ensures key !in old(records) ==> entity == map[] && records == old(records)[key := map[]]
      ensures forall k :: k != key ==> (k in records <==> k in old(records))
      ensures forall k :: k != key && k in old(records) ==> records[k] == old(records)[k]
      ensures touched == old(touched) + EntityTouch(key)
      ensures links == old(links)
    {
      var found := GetEntity(key);
      if found.Some? {
        return found.value;
      }
      entity := map[];
      records := records[key := entity];
    }

    /** Writes `val` to field `prop` of the entity at `key`, creating the
        entity if needed. The key is logged twice (once here, once by the
        lookup inside `GetOrCreateEntity`) unless it is an operation key. */
    method WriteEntityValue(key: string, prop: string, val: FieldValue<V>)
      modifies this`touched, this`records
      ensures key in records
      ensures records == old(records)[key := WithField(if key in old(records) then old(records)[key] else map[], prop, val)]
      ensures val.Null? || val.Undefined? ==> prop !in records[key]
      ensures val.Defined? ==> prop in records[key] && records[key][prop] == val.value
      ensures key in old(records) ==> forall q :: q != prop ==> (q in records[key] <==> q in old(records)[key])
      ensures key in old(records) ==> forall q :: q != prop && q in old(records)[key] ==> records[key][q] == old(records)[key][q]
      ensures key !in old(records) ==> records[key].Keys <= {prop}
      ensures forall k :: k != key ==> (k in records <==> k in old(records))
      ensures forall k :: k != key && k in old(records) ==> records[k] == old(records)[k]
      ensures touched == old(touched) + EntityTouch(key) + EntityTouch(key)
      ensures links == old(links)
    {
      if !isOperation(key) {
        touched := touched + [key];
      }
      var entity := GetOrCreateEntity(key);
      records := records[key := WithField(entity, prop, val)];
    }

    /** Reads the link at `key` (`null` when there is none); always logs `key`. */
    method GetLink(key: string) returns (link: Link<L>)
      modifies this`touched
      ensures key in links ==> link == links[key]
      ensures key !in links ==> link == NullLink
      ensures touched == old(touched) + [key]
      ensures records == old(records) && links == old(links)
    {
      touched := touched + [key];
      link := LinkAt(links, key);
    }

    /** Stores `link` at `key`, deleting the entry for a `null` link; always
        logs `key`. */
    method WriteLink(key: string, link: Link<L>)
      modifies this`touched, this`links
      ensures links == WithLink(old(links), key, link)
      ensures link.NullLink? ==> key !in links
      ensures link.Ref? ==> key in links && links[key] == link
      ensures LinkAt(links, key) == link
      ensures forall k :: k != key ==> LinkAt(links, k) == LinkAt(old(links), k)
      ensures touched == old(touched) + [key]
      ensures records == old(records)
    {
      touched := touched + [key];
      links := WithLink(links, key, link);
    }

    /** The current tables. */
    method ToJSON() returns (data: StoreData<V, L>)
      ensures data.records == records && data.links == links
    {
      data := StoreData(records, links);
    }

    /** Returns every logged key once, in order of first access, and empties
        the log. */
    method FlushTouched() returns (keys: seq<string>)
      modifies this`touched
      ensures keys == Dedup(old(touched))
      ensures forall k :: k in keys <==> k in old(touched)
      ensures Distinct(keys)
      ensures forall i, j :: 0 <= i < j < |keys| ==> IndexOf(old(touched), keys[i]) < IndexOf(old(touched), keys[j])
      ensures touched == []
      ensures records == old(records) && links == old(links)
    {
      keys := Dedup(touched);
      DedupSpec(touched);
      touched := [];
    }
  }

  /** An instance of `DedupRepeat`: a log holding one key twice flushes to
      that key once. */
  lemma RepeatedKeyFlushesOnce(key: string)
    ensures Dedup([key, key]) == [key]
  {
    DedupSnoc([], key);
    assert [] + [key] == [key] && [] + [key, key] == [key, key];
    DedupRepeat([], key);
  }

  /** A graph key written once is flushed once although it was logged twice,
      and a second flush with no access in between is empty. */
  method FlushAfterWrite<V>(isOperation: string -> bool, key: string, prop: string, v: V)
    returns (first: seq<string>, second: seq<string>)
    requires !isOperation(key)
    ensures first == [key]
    ensures second == []
  {
    var store := new Store<V, V>(isOperation, None);
    store.WriteEntityValue(key, prop, Defined(v));
    assert store.touched == [key, key];
    first := store.FlushTouched();
    RepeatedKeyFlushesOnce(key);
    second := store.FlushTouched();
  }

  /** Entity accesses never log an operation key, link accesses always do:
      after writing and reading the entity at an operation key the flush is
      empty, and after writing and reading the link at it the flush holds the
      key. */
  method FlushOperationKey<V, L>(isOperation: string -> bool, key: string, prop: string, v: V, link: L)
    returns (afterEntity: seq<string>, afterLink: seq<string>)
    requires isOperation(key)
    ensures afterEntity == []
    ensures afterLink == [key]
  {
    var store := new Store<V, L>(isOperation, None);
    store.WriteEntityValue(key, prop, Defined(v));
    var entity := store.GetEntity(key);
    afterEntity := store.FlushTouched();
    store.WriteLink(key, Ref(link));
    var read := store.GetLink(key);
    assert store.touched == [key, key];
    afterLink := store.FlushTouched();
    RepeatedKeyFlushesOnce(key);
  }

  /** A store rebuilt from the snapshot of another reads every entity and
      every link exactly as the original holds it. */
  method RestoreFromSnapshot<V, L>(original: Store<V, L>, key: string)
    returns (entity: Option<Entity<V>>, link: Link<L>)
    ensures key in original.records <==> entity.Some?
    ensures key in original.records ==> entity.value == original.records[key]
    ensures link == LinkAt(original.links, key)
  {
    var data := original.ToJSON();
    var copy := new Store<V, L>(original.isOperation, Some(data));
    entity := copy.GetEntity(key);
    link := copy.GetLink(key);
  }
}
