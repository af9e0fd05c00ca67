/**
 The part of Home Assistant's entity registry the integration relies on, as a
 contract: one entry per entity id, one entity id per unique id of a platform,
 removed entries remembered by their unique id, and an entity id free when
 neither an entry nor a state holds it.
 */
module EntityRegistry {
  import opened Wrappers
  import opened Entries

  datatype EntityId = EntityId(domain: string, objectId: string)

  /** What identifies an entity to its platform. */
  datatype Key = Key(domain: string, platform: string, uniqueId: string)

  /** What the user set on an entity. */
  datatype Own = Own(aliases: set<string>, areaId: Option<string>, categories: map<string, string>,
                     deviceClass: Option<string>, icon: Option<string>, labels: set<string>, name: Option<string>)

  const NOTHING_SET: Own := Own({}, None, map[], None, None, {}, None)

  /** Who disabled or hid an entity. */
  datatype Actor = User | Other(who: string)

  /** Everything about an entity that outlives its removal. */
  datatype Settings = Settings(own: Own, disabledBy: Option<Actor>, hiddenBy: Option<Actor>, options: map<string, string>)

  const DEFAULTS: Settings := Settings(NOTHING_SET, None, None, map[])

  datatype Entity = Entity(key: Key, configEntry: Option<EntryId>, originalName: Option<string>, settings: Settings)

  datatype Deleted = Deleted(id: EntityId, settings: Settings)

  /** A state someone serves, or a placeholder written at the start. */
  datatype StateKind = Live | Restored

  datatype Snapshot = Snapshot(entities: map<EntityId, Entity>, index: map<Key, EntityId>,
                               deleted: map<Key, Deleted>, states: map<EntityId, StateKind>)
  {
    /** The index is the inverse of the entries, so no two of them share a unique id. */
    ghost predicate Consistent() {
      && (forall k :: k in index ==> index[k] in entities && entities[index[k]].key == k)
      && (forall e :: e in entities ==> HoldsItsKey(e))
      && (forall k :: k in deleted ==> deleted[k].id.domain == k.domain)
    }

    ghost predicate HoldsItsKey(e: EntityId)
      requires e in entities
    {
      var key := entities[e].key;
      key in index && index[key] == e && key.domain == e.domain
    }

    predicate Available(id: EntityId) {
      id !in entities && id !in states
    }

    predicate IsLive(id: EntityId) {
      id in states && states[id] == Live
    }

    /** What a new entry of that unique id starts with. */
    function Remembered(key: Key): Settings {
      if key in deleted then deleted[key].settings else DEFAULTS
    }
  }

  lemma RemovedKeepsConsistent(s: Snapshot, t: Snapshot, id: EntityId)
    requires s.Consistent() && id in s.entities
    requires t.entities == s.entities - {id} && t.index == s.index - {s.entities[id].key}
    requires t.deleted == s.deleted[s.entities[id].key := Deleted(id, s.entities[id].settings)]
    ensures t.Consistent()
  {
    assert s.HoldsItsKey(id);
    forall e | e in t.entities ensures t.HoldsItsKey(e) {
      assert s.HoldsItsKey(e);
    }
  }

  lemma AddedKeepsConsistent(s: Snapshot, t: Snapshot, id: EntityId, key: Key)
    requires s.Consistent() && key !in s.index && id !in s.entities && id.domain == key.domain
    requires t.entities.Keys == s.entities.Keys + {id} && t.entities[id].key == key
    requires forall e :: e in s.entities ==> t.entities[e] == s.entities[e]
    requires t.index == s.index[key := id] && t.deleted == s.deleted - {key}
    ensures t.Consistent()
  {
    forall e | e in t.entities ensures t.HoldsItsKey(e) {
      if e != id {
        assert s.HoldsItsKey(e);
      }
    }
  }

  class EntityRegistry {
    var entities: map<EntityId, Entity>
    var index: map<Key, EntityId>
    var deleted: map<Key, Deleted>
    var states: map<EntityId, StateKind>

    constructor ()
      ensures Valid() && Now() == Snapshot(map[], map[], map[], map[])
    {
      entities, index, deleted, states := map[], map[], map[], map[];
    }

    function Now(): Snapshot
      reads this
    {
      Snapshot(entities, index, deleted, states)
    }

    ghost predicate Valid()
      reads this
    {
      Now().Consistent()
    }

    function EntityIdOf(key: Key): Option<EntityId>
      reads this
    {
      if key in index then Some(index[key]) else None
    }

    /** Removing an entry remembers it, and takes a placeholder state along. */
    method Remove(id: EntityId)
      requires Valid() && id in entities
      modifies this
      ensures Valid()
      ensures entities == old(entities) - {id}
      ensures index == old(index) - {old(entities)[id].key}
      ensures deleted == old(deleted)[old(entities)[id].key := Deleted(id, old(entities)[id].settings)]
      ensures states == if old(id in states && states[id] == Restored) then old(states) - {id} else old(states)
    {
      hide Snapshot.Consistent;
      var entity := entities[id];
      entities := entities - {id};
      index := index - {entity.key};
      deleted := deleted[entity.key := Deleted(id, entity.settings)];
      if id in states && states[id] == Restored {
        states := states - {id};
      }
      RemovedKeepsConsistent(old(Now()), Now(), id);
    }

    /** An id no one holds: the one wanted, or a longer one. */
    method FreeId(wanted: EntityId) returns (id: EntityId)
      ensures Now().Available(id) && id.domain == wanted.domain
      ensures Now().Available(wanted) ==> id == wanted
    {
      id := wanted;
      var taken := set e | e in entities.Keys + states.Keys && |e.objectId| >= |wanted.objectId|;
      while !Now().Available(id)
        invariant taken == set e | e in entities.Keys + states.Keys && |e.objectId| >= |id.objectId|
        invariant id.domain == wanted.domain && (Now().Available(wanted) ==> id == wanted)
        decreases taken
      {
        ghost var before := id;
        id := EntityId(id.domain, id.objectId + "_");
        assert before in taken;
        taken := set e | e in entities.Keys + states.Keys && |e.objectId| >= |id.objectId|;
        assert before !in taken;
      }
    }

    /** The entry of that unique id. One that was removed comes back with its own
        entity id, if that is free, before the suggested one is looked at. */
    method GetOrCreate(key: Key, suggested: string, configEntry: Option<EntryId>) returns (id: EntityId)
      requires Valid()
      modifies this
      ensures Valid() && id in entities && entities[id].key == key
      ensures key in old(index) ==> id == old(index)[key] && Now() == old(Now())
      ensures key !in old(index) ==>
                && old(Now()).Available(id) && id.domain == key.domain
                && entities == old(entities)[id := Entity(key, configEntry, None, if key in old(deleted) then old(deleted)[key].settings
                                                                         else DEFAULTS)]
                && index == old(index)[key := id]
                && deleted == old(deleted) - {key}
                && states == old(states)
                && (if old(key in deleted && Now().Available(deleted[key].id))
                    then id == old(deleted)[key].id
                    else old(Now().Available(EntityId(key.domain, suggested))) ==> id == EntityId(key.domain, suggested))
    {
      if key in index {
        return index[key];
      }
      hide Snapshot.Consistent;
      var settings := Now().Remembered(key);
      if key in deleted && Now().Available(deleted[key].id) {
        id := deleted[key].id;
      } else {
        id := FreeId(EntityId(key.domain, suggested));
      }
      deleted := deleted - {key};
      entities := entities[id := Entity(key, configEntry, None, settings)];
      index := index[key := id];
      AddedKeepsConsistent(old(Now()), Now(), id, key);
    }

    method UpdateEntity(id: EntityId, settings: Settings)
      requires Valid() && id in entities
      modifies this`entities
      ensures Valid()
      ensures entities == old(entities)[id := old(entities)[id].(settings := settings)]
    {
      assert Now().HoldsItsKey(id);
      entities := entities[id := entities[id].(settings := settings)];
      assert forall e :: e in entities ==> old(Now()).HoldsItsKey(e);
    }

    method UpdateOptions(id: EntityId, domain: string, options: string)
      requires Valid() && id in entities
      modifies this`entities
      ensures Valid()
      ensures var was := old(entities)[id];
              entities == old(entities)[id := was.(settings := was.settings.(options := was.settings.options[domain := options]))]
    {
      var was := entities[id];
      UpdateEntity(id, was.settings.(options := was.settings.options[domain := options]));
    }

    /** Moves an entry to another entity id, if that is free. */
    method Rename(id: EntityId, wanted: EntityId) returns (ok: bool)
      requires Valid() && id in entities && wanted.domain == id.domain
      modifies this`entities, this`index
      ensures Valid()
      ensures ok <==> wanted == id || old(Now()).Available(wanted)
      ensures !ok || wanted == id ==> Now() == old(Now())
      ensures ok && wanted != id ==>
                && entities == (old(entities) - {id})[wanted := old(entities)[id]]
                && index == old(index)[old(entities)[id].key := wanted]
    {
      if wanted == id {
        return true;
      }
      if !Now().Available(wanted) {
        return false;
      }
      var entity := entities[id];
      assert Now().HoldsItsKey(id);
      entities := (entities - {id})[wanted := entity];
      index := index[entity.key := wanted];
      assert forall e :: e in old(entities) ==> old(Now()).HoldsItsKey(e);
      ok := true;
    }
  }
}
