/** Registry entries of the YAML modbus block, replaced under the entity ids they held. */
module Adoption {
  import opened Wrappers
  import opened Entries
  import opened EntityRegistry

  const SENSOR := "sensor"
  const MODBUS := "modbus"
  const WAGO := "wago_879"

  /** A unique id of the YAML block, and the field of the meter it stood for. */
  datatype Legacy = Legacy(uniqueId: string, field: string)

  const LEGACY: seq<Legacy> := [
    Legacy("WagoSpannungL1", "voltage_l1"),
    Legacy("WagoSpannungL2", "voltage_l2"),
    Legacy("WagoSpannungL3", "voltage_l3"),
    Legacy("WagoStromL1", "current_l1"),
    Legacy("WagoStromL2", "current_l2"),
    Legacy("WagoStromL3", "current_l3"),
    Legacy("WagoWirkleistungGesamt", "active_power_total"),
    Legacy("WagoWirkleistungL1", "active_power_l1"),
    Legacy("WagoWirkleistungL2", "active_power_l2"),
    Legacy("WagoWirkleistungL3", "active_power_l3"),
    Legacy("WagoWirkenergieTotal", "active_energy_total"),
    Legacy("WagoWirkenergieBezug", "active_energy_import"),
    Legacy("WagoWirkenergieLieferung", "active_energy_export")
  ]

  predicate Distinct(table: seq<Legacy>) {
    forall i, j :: 0 <= i < j < |table| ==> table[i].uniqueId != table[j].uniqueId && table[i].field != table[j].field
  }

  /** A legacy entry, where it stands, and the unique id of its successor there. */
  datatype Adoption = Adoption(id: EntityId, legacy: Entity, newUniqueId: string)

  datatype Refusal =
    | YamlStillActive(id: EntityId)
    | UniqueIdTaken(id: EntityId, heldBy: EntityId)
    | RemovedEntryInTheWay(id: EntityId, restored: EntityId)
    | EntityIdTaken(id: EntityId, created: EntityId)

  function LegacyKey(uniqueId: string): Key {
    Key(SENSOR, MODBUS, uniqueId)
  }

  function NewKey(uniqueId: string): Key {
    Key(SENSOR, WAGO, uniqueId)
  }

  function NewUniqueId(serial: string, field: string): string {
    serial + "_" + field
  }

  /** The table the integration ships names no unique id and no field twice: length
      and two letters tell them apart. */
  lemma LegacyIsDistinct()
    ensures Distinct(LEGACY) && |LEGACY| == 13
  {
    UniqueIdsDiffer();
    FieldsDiffer();
    hide Ends;
    forall i, j | 0 <= i < j < |LEGACY|
      ensures LEGACY[i].uniqueId != LEGACY[j].uniqueId && LEGACY[i].field != LEGACY[j].field
    {
      assert Ends(LEGACY[i].uniqueId) != Ends(LEGACY[j].uniqueId);
      assert Ends(LEGACY[i].field) != Ends(LEGACY[j].field);
    }
  }

  lemma UniqueIdsDiffer()
    ensures forall i :: 0 <= i < |LEGACY| ==> |LEGACY[i].uniqueId| >= 6
    ensures forall i, j :: 0 <= i < j < |LEGACY| ==> Ends(LEGACY[i].uniqueId) != Ends(LEGACY[j].uniqueId)
  {
  }

  lemma FieldsDiffer()
    ensures forall i :: 0 <= i < |LEGACY| ==> |LEGACY[i].field| >= 6
    ensures forall i, j :: 0 <= i < j < |LEGACY| ==> Ends(LEGACY[i].field) != Ends(LEGACY[j].field)
  {
  }

  function Ends(text: string): (int, char, char)
    requires |text| >= 6
  {
    (|text|, text[|text| - 6], text[|text| - 1])
  }

  lemma NewUniqueIdsDiffer(serial: string, a: string, b: string)
    requires a != b
    ensures NewUniqueId(serial, a) != NewUniqueId(serial, b)
  {
    assert NewUniqueId(serial, a)[|serial| + 1..] == a;
    assert NewUniqueId(serial, b)[|serial| + 1..] == b;
  }

  // ---------------------------------------------------------------- what stands in the way

  ghost predicate Blocked(s: Snapshot, legacy: Legacy, serial: string) {
    var key := NewKey(NewUniqueId(serial, legacy.field));
    && LegacyKey(legacy.uniqueId) in s.index
    && var id := s.index[LegacyKey(legacy.uniqueId)];
    s.IsLive(id) || key in s.index || (key in s.deleted && s.deleted[key].id != id)
  }

  ghost predicate Unblocked(s: Snapshot, table: seq<Legacy>, serial: string) {
    forall i :: 0 <= i < |table| ==> !Blocked(s, table[i], serial)
  }

  /** The refusal names a legacy entity and the first thing in its way. */
  ghost predicate Refused(s: Snapshot, legacy: Legacy, serial: string, refusal: Refusal) {
    var key := NewKey(NewUniqueId(serial, legacy.field));
    && LegacyKey(legacy.uniqueId) in s.index
    && refusal.id == s.index[LegacyKey(legacy.uniqueId)]
    && match refusal
       case YamlStillActive(id) => s.IsLive(id)
       case UniqueIdTaken(id, heldBy) => !s.IsLive(id) && key in s.index && s.index[key] == heldBy
       case RemovedEntryInTheWay(id, restored) =>
         !s.IsLive(id) && key !in s.index && key in s.deleted && s.deleted[key].id == restored != id
       case EntityIdTaken(_, _) => false
  }

  /** The adoptions of the legacy entries that are present. */
  ghost function Plan(s: Snapshot, table: seq<Legacy>, serial: string): seq<Adoption>
    requires s.Consistent()
  {
    if table == [] then [] else
      var last := table[|table| - 1];
      var before := Plan(s, table[..|table| - 1], serial);
      var key := LegacyKey(last.uniqueId);
      if key !in s.index then before
      else before + [Adoption(s.index[key], s.entities[s.index[key]], NewUniqueId(serial, last.field))]
  }

  method Resolve(registry: EntityRegistry, table: seq<Legacy>, serial: string)
      returns (result: Result<seq<Adoption>, Refusal>)
    requires registry.Valid()
    ensures result.Ok? <==> Unblocked(registry.Now(), table, serial)
    ensures result.Ok? ==> result.value == Plan(registry.Now(), table, serial)
    ensures result.Err? ==> exists i :: (0 <= i < |table|
                                         && Refused(registry.Now(), table[i], serial, result.error)
                                         && Unblocked(registry.Now(), table[..i], serial))
  {
    var adoptions := [];
    ghost var s := registry.Now();
    for n := 0 to |table|
      invariant Unblocked(s, table[..n], serial)
      invariant adoptions == Plan(s, table[..n], serial)
    {
      var legacy := table[n];
      assert table[..n + 1][..n] == table[..n];
      assert forall r :: Refused(s, legacy, serial, r) ==> Blocked(s, legacy, serial);
      var held := registry.EntityIdOf(LegacyKey(legacy.uniqueId));
      if held.Some? {
        var id := held.value;
        if id in registry.states && registry.states[id] != Restored {
          assert Refused(s, table[n], serial, YamlStillActive(id));
          return Err(YamlStillActive(id));
        }
        var newUniqueId := NewUniqueId(serial, legacy.field);
        var heldBy := registry.EntityIdOf(NewKey(newUniqueId));
        if heldBy.Some? {
          assert Refused(s, table[n], serial, UniqueIdTaken(id, heldBy.value));
          return Err(UniqueIdTaken(id, heldBy.value));
        }
        if NewKey(newUniqueId) in registry.deleted && registry.deleted[NewKey(newUniqueId)].id != id {
          var restored := registry.deleted[NewKey(newUniqueId)].id;
          assert Refused(s, table[n], serial, RemovedEntryInTheWay(id, restored));
          return Err(RemovedEntryInTheWay(id, restored));
        }
        adoptions := adoptions + [Adoption(id, registry.entities[id], newUniqueId)];
      }
    }
    assert table[..|table|] == table;
    result := Ok(adoptions);
  }

  // ---------------------------------------------------------------- one adoption

  function OfUser(chosen: Option<Actor>, otherwise: Option<Actor>): Option<Actor> {
    if chosen == Some(User) then chosen else otherwise
  }

  /** The user's settings of the legacy entry, over what the new one started with. */
  function UserSettings(base: Settings, legacy: Settings): Settings {
    base.(own := legacy.own,
          disabledBy := OfUser(legacy.disabledBy, base.disabledBy),
          hiddenBy := OfUser(legacy.hiddenBy, base.hiddenBy))
  }

  /** The entry that takes the legacy entity's place. */
  ghost function Successor(s: Snapshot, a: Adoption, entry: EntryId): Entity {
    var was := a.legacy.settings;
    var base := s.Remembered(NewKey(a.newUniqueId));
    Entity(NewKey(a.newUniqueId), Some(entry), None,
           Settings(was.own, OfUser(was.disabledBy, base.disabledBy), OfUser(was.hiddenBy, base.hiddenBy),
                    base.options + was.options))
  }

  ghost predicate IsLegacy(s: Snapshot, a: Adoption) {
    a.id in s.entities && s.entities[a.id] == a.legacy && a.legacy.key == LegacyKey(a.legacy.key.uniqueId)
  }

  /** The registry will give the new unique id the legacy entity's id. */
  ghost predicate Clear(s: Snapshot, a: Adoption) {
    var key := NewKey(a.newUniqueId);
    && !s.IsLive(a.id)
    && key !in s.index
    && (key in s.deleted && s.Available(s.deleted[key].id) ==> s.deleted[key].id == a.id)
  }

  ghost function AfterOne(s: Snapshot, a: Adoption, entry: EntryId): Snapshot {
    Snapshot(s.entities[a.id := Successor(s, a, entry)],
             (s.index - {a.legacy.key})[NewKey(a.newUniqueId) := a.id],
             s.deleted[a.legacy.key := Deleted(a.id, a.legacy.settings)] - {NewKey(a.newUniqueId)},
             s.states - {a.id})
  }

  /**
   Adopting succeeds exactly when the registry is clear for it. Otherwise the
   legacy entry is put back with what the user set on it, and at its own entity
   id exactly when no one serves a state there, while the new unique id is left
   among the deleted entries with the id it had been given.
   */
  method AdoptOne(registry: EntityRegistry, a: Adoption, entry: EntryId) returns (result: Result<(), Refusal>)
    requires registry.Valid() && IsLegacy(registry.Now(), a)
    modifies registry
    ensures registry.Valid()
    ensures result.Ok? <==> old(Clear(registry.Now(), a))
    ensures result.Ok? ==> registry.Now() == AfterOne(old(registry.Now()), a, entry)
    ensures result.Err? ==>
              && a.legacy.key in registry.index
              && registry.entities[registry.index[a.legacy.key]].settings == a.legacy.settings
              && (registry.index[a.legacy.key] == a.id <==> !old(registry.Now()).IsLive(a.id))
              && result.error.EntityIdTaken? && result.error.id == a.id != result.error.created
              && NewKey(a.newUniqueId) in registry.deleted
              && registry.deleted[NewKey(a.newUniqueId)].id == result.error.created
              && forall e :: e in old(registry.entities) && e != a.id && e != result.error.created
                   ==> e in registry.entities && registry.entities[e] == old(registry.entities)[e]
  {
    hide Snapshot.Consistent, Clear, AfterOne, Handed, Elsewhere, UserSettings;
    ghost var s := registry.Now();
    var created := Replace(registry, a, entry);
    if created != a.id {
      PutBack(registry, a, created, s);
      return Err(EntityIdTaken(a.id, created));
    }
    ghost var t := registry.Now();
    registry.UpdateEntity(created, UserSettings(registry.entities[created].settings, a.legacy.settings));
    CopyOptions(registry, created, a.legacy.settings.options);
    SettledIsSuccessor(s, t, registry.Now(), a, entry);
    result := Ok(());
  }

  /** The legacy entry's place in the registry, handed to the new unique id. */
  ghost function Handed(s: Snapshot, a: Adoption, entry: EntryId): Snapshot {
    var key := NewKey(a.newUniqueId);
    AfterOne(s, a, entry).(entities := s.entities[a.id := Entity(key, Some(entry), None, s.Remembered(key))])
  }

  method Replace(registry: EntityRegistry, a: Adoption, entry: EntryId) returns (created: EntityId)
    requires registry.Valid() && IsLegacy(registry.Now(), a)
    modifies registry
    ensures registry.Valid() && created in registry.entities
    ensures created == a.id <==> old(Clear(registry.Now(), a))
    ensures created == a.id ==> registry.Now() == Handed(old(registry.Now()), a, entry)
    ensures created != a.id ==> Elsewhere(old(registry.Now()), registry.Now(), a, created)
  {
    hide Snapshot.Consistent, Clear, Elsewhere, Handed;
    ghost var s := registry.Now();
    KeyOfLegacy(s, a);
    registry.Remove(a.id);
    ghost var u := registry.Now();
    RemovedLegacy(s, u, a);
    created := registry.GetOrCreate(NewKey(a.newUniqueId), a.id.objectId, Some(entry));
    CreatedAt(s, u, registry.Now(), a, entry, created);
  }

  lemma KeyOfLegacy(s: Snapshot, a: Adoption)
    requires s.Consistent() && IsLegacy(s, a)
    ensures a.legacy.key in s.index && s.index[a.legacy.key] == a.id && a.id == EntityId(SENSOR, a.id.objectId)
    ensures NewKey(a.newUniqueId) in s.index ==> s.index[NewKey(a.newUniqueId)] != a.id
  {
    assert s.HoldsItsKey(a.id);
  }

  /** What removing the legacy entry leaves. */
  ghost function Removed(s: Snapshot, a: Adoption): Snapshot {
    Snapshot(s.entities - {a.id}, s.index - {a.legacy.key},
             s.deleted[a.legacy.key := Deleted(a.id, a.legacy.settings)],
             if s.IsLive(a.id) then s.states else s.states - {a.id})
  }

  lemma RemovedLegacy(s: Snapshot, u: Snapshot, a: Adoption)
    requires IsLegacy(s, a)
    requires u.entities == s.entities - {a.id} && u.index == s.index - {a.legacy.key}
    requires u.deleted == s.deleted[a.legacy.key := Deleted(a.id, a.legacy.settings)]
    requires u.states == if a.id in s.states && s.states[a.id] == Restored then s.states - {a.id} else s.states
    ensures u == Removed(s, a)
  {
    assert a.id !in s.states ==> s.states - {a.id} == s.states;
  }

  /** The registry gives the new unique id the legacy entity's id exactly when it is clear for it. */
  lemma CreatedAt(s: Snapshot, u: Snapshot, t: Snapshot, a: Adoption, entry: EntryId, created: EntityId)
    requires IsLegacy(s, a) && u == Removed(s, a) && a.id == EntityId(SENSOR, a.id.objectId)
    requires a.legacy.key in s.index && s.index[a.legacy.key] == a.id
    requires NewKey(a.newUniqueId) in s.index ==> s.index[NewKey(a.newUniqueId)] != a.id
    requires var key := NewKey(a.newUniqueId);
             created in t.entities && t.entities[created].key == key
             && if key in u.index then created == u.index[key] && t == u
             else
               && u.Available(created)
               && t.entities == u.entities[created := Entity(key, Some(entry), None, u.Remembered(key))]
               && t.index == u.index[key := created]
               && t.deleted == u.deleted - {key} && t.states == u.states
               && (if key in u.deleted && u.Available(u.deleted[key].id) then created == u.deleted[key].id
                   else u.Available(a.id) ==> created == a.id)
    ensures created == a.id <==> Clear(s, a)
    ensures created == a.id ==> t == Handed(s, a, entry)
    ensures created != a.id ==> Elsewhere(s, t, a, created)
  {
    hide Snapshot.Consistent, Handed;
    var key := NewKey(a.newUniqueId);
    assert key != a.legacy.key;
    assert key in u.index <==> key in s.index;
    assert u.Available(a.id) <==> !s.IsLive(a.id);
    assert forall e :: e != a.id ==> (u.Available(e) <==> s.Available(e));
    if created == a.id {
      HandedOver(s, u, t, a, entry);
    }
  }

  lemma HandedOver(s: Snapshot, u: Snapshot, t: Snapshot, a: Adoption, entry: EntryId)
    requires a.id in s.entities && u == Removed(s, a) && a.legacy.key != NewKey(a.newUniqueId) && !s.IsLive(a.id)
    requires var key := NewKey(a.newUniqueId);
             && t.entities == u.entities[a.id := Entity(key, Some(entry), None, u.Remembered(key))]
             && t.index == u.index[key := a.id]
             && t.deleted == u.deleted - {key} && t.states == u.states
    ensures t == Handed(s, a, entry)
  {
    hide Snapshot.Consistent;
    assert t.entities == Handed(s, a, entry).entities;
    assert t.index == Handed(s, a, entry).index;
    assert t.deleted == Handed(s, a, entry).deleted;
    assert t.states == Handed(s, a, entry).states;
  }

  /** The new unique id came up at another entity id, and the legacy entry is gone. */
  ghost predicate Elsewhere(s: Snapshot, t: Snapshot, a: Adoption, created: EntityId) {
    && a.legacy.key !in t.index && a.id !in t.entities
    && a.legacy.key in t.deleted && t.deleted[a.legacy.key] == Deleted(a.id, a.legacy.settings)
    && created in t.entities && t.entities[created].key == NewKey(a.newUniqueId)
    && (a.id in t.states <==> s.IsLive(a.id))
    && forall e :: e in s.entities && e != a.id && e != created ==> e in t.entities && t.entities[e] == s.entities[e]
  }

  /** Undoes a handover that went elsewhere. */
  method PutBack(registry: EntityRegistry, a: Adoption, created: EntityId, ghost s: Snapshot)
    requires registry.Valid() && IsLegacy(s, a) && created != a.id && Elsewhere(s, registry.Now(), a, created)
    modifies registry
    ensures registry.Valid()
    ensures a.legacy.key in registry.index
    ensures registry.entities[registry.index[a.legacy.key]].settings == a.legacy.settings
    ensures registry.index[a.legacy.key] == a.id <==> !s.IsLive(a.id)
    ensures NewKey(a.newUniqueId) in registry.deleted && registry.deleted[NewKey(a.newUniqueId)].id == created
    ensures forall e :: e in s.entities && e != a.id && e != created
              ==> e in registry.entities && registry.entities[e] == s.entities[e]
  {
    registry.Remove(created);
    var restored := registry.GetOrCreate(a.legacy.key, MODBUS + "_" + a.legacy.key.uniqueId, None);
  }

  lemma SettledIsSuccessor(s: Snapshot, t: Snapshot, now: Snapshot, a: Adoption, entry: EntryId)
    requires t == Handed(s, a, entry)
    requires now.(entities := t.entities) == t
    requires var was := t.entities[a.id];
             var mine := UserSettings(was.settings, a.legacy.settings);
             now.entities == t.entities[a.id := was.(settings := mine.(options := mine.options + a.legacy.settings.options))]
    ensures now == AfterOne(s, a, entry)
  {
    assert now.entities == AfterOne(s, a, entry).entities;
  }

  /** Copies the options over, one domain after the other. */
  method CopyOptions(registry: EntityRegistry, id: EntityId, options: map<string, string>)
    requires registry.Valid() && id in registry.entities
    modifies registry`entities
    ensures registry.Valid()
    ensures var was := old(registry.entities)[id];
            registry.entities == old(registry.entities)[
              id := was.(settings := was.settings.(options := was.settings.options + options))]
  {
    hide *;
    var left := options.Keys;
    ghost var all := registry.entities;
    CopiedAll(all, id, options);
    while left != {}
      invariant left <= options.Keys && registry.Valid()
      invariant registry.entities == Copied(all, id, options, left)
      decreases left
    {
      var domain :| domain in left;
      CopiedOne(all, id, options, left, domain);
      registry.UpdateOptions(id, domain, options[domain]);
      left := left - {domain};
    }
  }

  /** The options of all but these domains are copied. */
  ghost function Copied(all: map<EntityId, Entity>, id: EntityId, options: map<string, string>, left: set<string>)
      : (r: map<EntityId, Entity>)
    requires id in all
    ensures id in r
  {
    var was := all[id];
    all[id := was.(settings := was.settings.(options := was.settings.options + (options - left)))]
  }

  lemma CopiedAll(all: map<EntityId, Entity>, id: EntityId, options: map<string, string>)
    requires id in all
    ensures Copied(all, id, options, options.Keys) == all
    ensures var was := all[id];
            Copied(all, id, options, {}) == all[id := was.(settings := was.settings.(options := was.settings.options + options))]
  {
    assert all[id].settings.options + (options - options.Keys) == all[id].settings.options;
    assert options - {} == options;
  }

  lemma CopiedOne(all: map<EntityId, Entity>, id: EntityId, options: map<string, string>, left: set<string>, domain: string)
    requires id in all && domain in left && domain in options
    ensures var c := Copied(all, id, options, left)[id];
            Copied(all, id, options, left - {domain}) == Copied(all, id, options, left)[
              id := c.(settings := c.settings.(options := c.settings.options[domain := options[domain]]))]
  {
    assert all[id].settings.options + (options - (left - {domain}))
        == (all[id].settings.options + (options - left))[domain := options[domain]];
  }

  // ---------------------------------------------------------------- all of them

  ghost predicate Ready(s: Snapshot, a: Adoption) {
    IsLegacy(s, a) && Clear(s, a)
  }

  ghost predicate Apart(a: Adoption, b: Adoption) {
    a.id != b.id && a.newUniqueId != b.newUniqueId
  }

  /** A list that can be worked through without a further decision. */
  ghost predicate Fit(s: Snapshot, plan: seq<Adoption>) {
    && s.Consistent()
    && (forall i :: 0 <= i < |plan| ==> Ready(s, plan[i]))
    && (forall i, j :: 0 <= i < j < |plan| ==> Apart(plan[i], plan[j]))
  }

  ghost function After(s: Snapshot, plan: seq<Adoption>, entry: EntryId): Snapshot {
    if plan == [] then s
    else AfterOne(After(s, plan[..|plan| - 1], entry), plan[|plan| - 1], entry)
  }

  /** What a list holds: the present legacy entries, each with its new unique id. */
  lemma {:induction false} PlanHolds(s: Snapshot, table: seq<Legacy>, serial: string)
    requires s.Consistent()
    ensures forall a :: a in Plan(s, table, serial) <==> exists l :: l in table && Planned(s, l, serial, a)
  {
    if table != [] {
      var n := |table| - 1;
      PlanHolds(s, table[..n], serial);
      assert table == table[..n] + [table[n]];
      forall a ensures a in Plan(s, table, serial) <==> a in Plan(s, table[..n], serial) || Planned(s, table[n], serial, a) {
      }
      assert forall l :: l in table <==> l in table[..n] || l == table[n];
    }
  }

  ghost predicate Planned(s: Snapshot, l: Legacy, serial: string, a: Adoption)
    requires s.Consistent()
  {
    var key := LegacyKey(l.uniqueId);
    key in s.index && a == Adoption(s.index[key], s.entities[s.index[key]], NewUniqueId(serial, l.field))
  }

  /** A resolved list is fit to be applied: nothing the registry can do surprises it. */
  lemma {:induction false} PlanFits(s: Snapshot, table: seq<Legacy>, serial: string)
    requires s.Consistent() && Distinct(table) && Unblocked(s, table, serial)
    ensures Fit(s, Plan(s, table, serial))
  {
    if table != [] {
      var n := |table| - 1;
      PlanFits(s, table[..n], serial);
      PlanHolds(s, table[..n], serial);
      var plan := Plan(s, table[..n], serial);
      var l := table[n];
      if LegacyKey(l.uniqueId) in s.index {
        assert !Blocked(s, l, serial);
        var last := Adoption(s.index[LegacyKey(l.uniqueId)], s.entities[s.index[LegacyKey(l.uniqueId)]], NewUniqueId(serial, l.field));
        forall i | 0 <= i < |plan| ensures Apart(plan[i], last) {
          assert plan[i] in plan;
          var k :| k in table[..n] && Planned(s, k, serial, plan[i]);
          NewUniqueIdsDiffer(serial, k.field, l.field);
        }
      }
    }
  }

  lemma OneKeepsConsistent(s: Snapshot, a: Adoption, entry: EntryId)
    requires s.Consistent() && Ready(s, a)
    ensures AfterOne(s, a, entry).Consistent()
  {
    var t := AfterOne(s, a, entry);
    assert s.HoldsItsKey(a.id);
    forall e | e in t.entities ensures t.HoldsItsKey(e) {
      assert s.HoldsItsKey(e);
    }
  }

  lemma OneKeepsReady(s: Snapshot, a: Adoption, entry: EntryId, b: Adoption)
    requires s.Consistent() && Ready(s, a) && Ready(s, b) && Apart(a, b)
    ensures Ready(AfterOne(s, a, entry), b)
  {
  }

  /** After the first k adoptions the rest can still be made. */
  lemma {:induction false} RestStaysReady(s: Snapshot, plan: seq<Adoption>, k: nat, entry: EntryId)
    requires Fit(s, plan) && k <= |plan|
    ensures After(s, plan[..k], entry).Consistent()
    ensures forall j :: k <= j < |plan| ==> Ready(After(s, plan[..k], entry), plan[j])
  {
    hide Snapshot.Consistent, Clear, IsLegacy, AfterOne;
    if k > 0 {
      RestStaysReady(s, plan, k - 1, entry);
      var t := After(s, plan[..k - 1], entry);
      assert plan[..k][..k - 1] == plan[..k - 1];
      OneKeepsConsistent(t, plan[k - 1], entry);
      forall j | k <= j < |plan| ensures Ready(After(s, plan[..k], entry), plan[j]) {
        OneKeepsReady(t, plan[k - 1], entry, plan[j]);
      }
    }
  }

  /**
   All or nothing: either the registry is as it was and the refusal names what
   is in the way, or every legacy entry present was adopted. No attempt stops
   half way, since the entity id is never taken once resolving succeeded.
   */
  method Adopt(registry: EntityRegistry, table: seq<Legacy>, serial: string, entry: EntryId)
      returns (result: Result<(), Refusal>)
    requires registry.Valid() && Distinct(table)
    modifies registry
    ensures registry.Valid()
    ensures result.Ok? <==> old(Unblocked(registry.Now(), table, serial))
    ensures result.Err? ==> registry.Now() == old(registry.Now()) && !result.error.EntityIdTaken?
    ensures result.Ok? ==> registry.Now() == After(old(registry.Now()), old(Plan(registry.Now(), table, serial)), entry)
  {
    hide Snapshot.Consistent, Blocked, Unblocked, Plan, AfterOne, Clear, Distinct;
    var adoptions := Resolve(registry, table, serial);
    if adoptions.Err? {
      return Err(adoptions.error);
    }
    var plan := adoptions.value;
    ghost var s := registry.Now();
    PlanFits(s, table, serial);
    for k := 0 to |plan|
      invariant registry.Now() == After(s, plan[..k], entry)
      invariant registry.Valid()
    {
      RestStaysReady(s, plan, k, entry);
      var one := AdoptOne(registry, plan[k], entry);
      assert one.Ok?;
      assert plan[..k + 1][..k] == plan[..k];
    }
    assert plan[..|plan|] == plan;
    result := Ok(());
  }

  // ---------------------------------------------------------------- what it comes to

  ghost predicate IsPlanned(plan: seq<Adoption>, e: EntityId) {
    exists j :: 0 <= j < |plan| && plan[j].id == e
  }

  /** The entity ids are conserved, and only the planned entries change: each becomes its successor. */
  lemma {:induction false} AdoptedExactly(s: Snapshot, plan: seq<Adoption>, entry: EntryId)
    requires Fit(s, plan)
    ensures EntriesAfter(s, After(s, plan, entry), plan, entry)
  {
    if plan != [] {
      var n := |plan| - 1;
      FitPrefix(s, plan, n);
      AdoptedExactly(s, plan[..n], entry);
      RememberedStays(s, plan, n, entry);
      OneMore(s, After(s, plan[..n], entry), plan, n, entry);
    }
  }

  lemma FitPrefix(s: Snapshot, plan: seq<Adoption>, n: nat)
    requires Fit(s, plan) && n <= |plan|
    ensures Fit(s, plan[..n])
  {
    hide Snapshot.Consistent, Ready, Apart;
  }

  /** What the entries are after these adoptions. */
  ghost predicate EntriesAfter(s: Snapshot, t: Snapshot, plan: seq<Adoption>, entry: EntryId) {
    && t.entities.Keys == s.entities.Keys
    && (forall j :: 0 <= j < |plan| ==> plan[j].id in t.entities && t.entities[plan[j].id] == Successor(s, plan[j], entry))
    && (forall e :: e in s.entities && !IsPlanned(plan, e) ==> t.entities[e] == s.entities[e])
  }

  lemma OneMore(s: Snapshot, u: Snapshot, plan: seq<Adoption>, n: nat, entry: EntryId)
    requires Fit(s, plan) && n == |plan| - 1 && EntriesAfter(s, u, plan[..n], entry)
    requires u.Remembered(NewKey(plan[n].newUniqueId)) == s.Remembered(NewKey(plan[n].newUniqueId))
    ensures EntriesAfter(s, AfterOne(u, plan[n], entry), plan, entry)
  {
    hide Snapshot.Consistent, Clear, IsPlanned, EntriesAfter;
    assert Ready(s, plan[n]);
    assert Successor(u, plan[n], entry) == Successor(s, plan[n], entry);
    forall j | 0 <= j < n ensures plan[..n][j] == plan[j] && plan[j].id != plan[n].id {
      assert Apart(plan[j], plan[n]);
    }
    OneMoreEntry(s, u, AfterOne(u, plan[n], entry), plan, n, entry);
  }

  lemma OneMoreEntry(s: Snapshot, u: Snapshot, t: Snapshot, plan: seq<Adoption>, n: nat, entry: EntryId)
    requires n == |plan| - 1 && EntriesAfter(s, u, plan[..n], entry) && plan[n].id in s.entities
    requires forall j :: 0 <= j < n ==> plan[..n][j] == plan[j] && plan[j].id != plan[n].id
    requires t.entities == u.entities[plan[n].id := Successor(s, plan[n], entry)]
    ensures EntriesAfter(s, t, plan, entry)
  {
    hide Successor, IsPlanned;
    forall e | e in s.entities && !IsPlanned(plan, e) ensures t.entities[e] == s.entities[e] {
      NotPlannedBefore(plan, n, e);
    }
  }

  lemma NotPlannedBefore(plan: seq<Adoption>, n: nat, e: EntityId)
    requires n < |plan| && !IsPlanned(plan, e)
    ensures plan[n].id != e && !IsPlanned(plan[..n], e)
  {
    assert plan[n].id == e ==> IsPlanned(plan, e);
    assert forall j :: 0 <= j < n ==> plan[..n][j] == plan[j];
  }

  /** What is remembered of a removed new entry waits for its own adoption. */
  lemma {:induction false} RememberedStays(s: Snapshot, plan: seq<Adoption>, n: nat, entry: EntryId)
    requires Fit(s, plan) && n < |plan|
    ensures After(s, plan[..n], entry).Remembered(NewKey(plan[n].newUniqueId)) == s.Remembered(NewKey(plan[n].newUniqueId))
  {
    RememberedStaysUpTo(s, plan, n, n, entry);
  }

  lemma {:induction false} RememberedStaysUpTo(s: Snapshot, plan: seq<Adoption>, n: nat, k: nat, entry: EntryId)
    requires Fit(s, plan) && k <= n < |plan|
    ensures After(s, plan[..k], entry).Remembered(NewKey(plan[n].newUniqueId)) == s.Remembered(NewKey(plan[n].newUniqueId))
  {
    hide Snapshot.Consistent, Snapshot.Remembered, Clear, AfterOne;
    if k > 0 {
      RememberedStaysUpTo(s, plan, n, k - 1, entry);
      assert plan[..k][..k - 1] == plan[..k - 1];
      assert Apart(plan[k - 1], plan[n]) && Ready(s, plan[k - 1]);
      RememberedStaysOnce(After(s, plan[..k - 1], entry), plan[k - 1], plan[n].newUniqueId, entry);
    }
  }

  lemma RememberedStaysOnce(s: Snapshot, a: Adoption, uniqueId: string, entry: EntryId)
    requires a.newUniqueId != uniqueId && a.legacy.key == LegacyKey(a.legacy.key.uniqueId)
    ensures AfterOne(s, a, entry).Remembered(NewKey(uniqueId)) == s.Remembered(NewKey(uniqueId))
  {
  }

  /** Every legacy entity id present ends up under its new unique id, and no legacy unique id is left. */
  lemma EveryLegacyIdIsAdopted(s: Snapshot, table: seq<Legacy>, serial: string, entry: EntryId, l: Legacy)
    requires s.Consistent() && Distinct(table) && Unblocked(s, table, serial) && l in table
    ensures var t := After(s, Plan(s, table, serial), entry);
            var was := LegacyKey(l.uniqueId);
            var key := NewKey(NewUniqueId(serial, l.field));
            && t.Consistent()
            && was !in t.index
            && (was in s.index ==> key in t.index && t.index[key] == s.index[was])
            && (was !in s.index ==> (key in t.index <==> key in s.index))
  {
    var plan := Plan(s, table, serial);
    PlanFits(s, table, serial);
    RestStaysReady(s, plan, |plan|, entry);
    assert plan[..|plan|] == plan;
    if LegacyKey(l.uniqueId) in s.index {
      PresentIsAdopted(s, table, serial, entry, l);
    } else {
      AbsentIsLeft(s, table, serial, entry, l);
    }
  }

  lemma PresentIsAdopted(s: Snapshot, table: seq<Legacy>, serial: string, entry: EntryId, l: Legacy)
    requires s.Consistent() && Fit(s, Plan(s, table, serial)) && l in table && LegacyKey(l.uniqueId) in s.index
    requires After(s, Plan(s, table, serial), entry).Consistent()
    ensures var t := After(s, Plan(s, table, serial), entry);
            var key := NewKey(NewUniqueId(serial, l.field));
            LegacyKey(l.uniqueId) !in t.index && key in t.index && t.index[key] == s.index[LegacyKey(l.uniqueId)]
  {
    var plan := Plan(s, table, serial);
    var was := LegacyKey(l.uniqueId);
    PlanHolds(s, table, serial);
    var a := Adoption(s.index[was], s.entities[s.index[was]], NewUniqueId(serial, l.field));
    assert Planned(s, l, serial, a);
    assert a in plan;
    var i :| 0 <= i < |plan| && plan[i] == a;
    PlannedIsAdopted(s, plan, entry, i);
  }

  lemma PlannedIsAdopted(s: Snapshot, plan: seq<Adoption>, entry: EntryId, i: nat)
    requires Fit(s, plan) && i < |plan| && After(s, plan, entry).Consistent()
    ensures var t := After(s, plan, entry);
            var key := NewKey(plan[i].newUniqueId);
            plan[i].legacy.key !in t.index && key in t.index && t.index[key] == plan[i].id
  {
    hide After, AfterOne, Clear, Apart, IsPlanned;
    var t := After(s, plan, entry);
    assert Ready(s, plan[i]);
    AdoptedExactly(s, plan, entry);
    assert t.entities[plan[i].id].key == NewKey(plan[i].newUniqueId);
    assert t.HoldsItsKey(plan[i].id);
    KeysAfter(s, plan, entry);
    assert plan[i].legacy.key in LegacyKeys(plan);
  }

  lemma AbsentIsLeft(s: Snapshot, table: seq<Legacy>, serial: string, entry: EntryId, l: Legacy)
    requires s.Consistent() && Fit(s, Plan(s, table, serial)) && Distinct(table) && l in table && LegacyKey(l.uniqueId) !in s.index
    ensures var t := After(s, Plan(s, table, serial), entry);
            var key := NewKey(NewUniqueId(serial, l.field));
            LegacyKey(l.uniqueId) !in t.index && (key in t.index <==> key in s.index)
  {
    var plan := Plan(s, table, serial);
    var key := NewKey(NewUniqueId(serial, l.field));
    KeysAfter(s, plan, entry);
    assert forall a :: a in plan ==> Ready(s, a);
    assert forall a :: a in plan ==> a.legacy.key in s.index by {
      forall a | a in plan ensures a.legacy.key in s.index {
        assert Ready(s, a) && s.HoldsItsKey(a.id);
      }
    }
    forall a | a in plan ensures NewKey(a.newUniqueId) != key {
      PlannedApart(s, table, serial, l, a);
    }
    hide Plan, After, Snapshot.Consistent, Fit, Clear, NewUniqueId;
    assert LegacyKey(l.uniqueId) !in NewKeys(plan) && key !in NewKeys(plan);
    assert key !in LegacyKeys(plan);
  }

  /** No other planned entry takes the new unique id of one that is absent. */
  lemma PlannedApart(s: Snapshot, table: seq<Legacy>, serial: string, l: Legacy, a: Adoption)
    requires s.Consistent() && Distinct(table) && l in table && LegacyKey(l.uniqueId) !in s.index
    requires a in Plan(s, table, serial)
    ensures NewKey(a.newUniqueId) != NewKey(NewUniqueId(serial, l.field))
  {
    PlanHolds(s, table, serial);
    hide Plan, Snapshot.Consistent;
    var k :| k in table && Planned(s, k, serial, a);
    NewUniqueIdsDiffer(serial, k.field, l.field);
  }

  function LegacyKeys(plan: seq<Adoption>): set<Key> {
    set a | a in plan :: a.legacy.key
  }

  function NewKeys(plan: seq<Adoption>): set<Key> {
    set a | a in plan :: NewKey(a.newUniqueId)
  }

  /** The unique ids of the registry afterwards: the planned ones replaced, the others kept. */
  lemma {:induction false} KeysAfter(s: Snapshot, plan: seq<Adoption>, entry: EntryId)
    requires Fit(s, plan)
    ensures After(s, plan, entry).index.Keys == s.index.Keys - LegacyKeys(plan) + NewKeys(plan)
  {
    hide Snapshot.Consistent, Clear, Apart, LegacyKeys, NewKeys;
    NoKeys();
    if plan != [] {
      var n := |plan| - 1;
      FitPrefix(s, plan, n);
      KeysAfter(s, plan[..n], entry);
      KeysOfLast(plan, n);
      assert Ready(s, plan[n]);
      NewKeysAreNotLegacy(plan[..n], plan[n].legacy.key);
    }
  }

  lemma NoKeys()
    ensures LegacyKeys([]) == {} && NewKeys([]) == {}
  {
  }

  lemma KeysOfLast(plan: seq<Adoption>, n: nat)
    requires n == |plan| - 1
    ensures LegacyKeys(plan) == LegacyKeys(plan[..n]) + {plan[n].legacy.key}
    ensures NewKeys(plan) == NewKeys(plan[..n]) + {NewKey(plan[n].newUniqueId)}
  {
    assert plan == plan[..n] + [plan[n]];
  }

  lemma NewKeysAreNotLegacy(plan: seq<Adoption>, key: Key)
    requires key.platform == MODBUS
    ensures key !in NewKeys(plan)
  {
  }

  /** A second pass finds nothing to do. */
  lemma SecondPassDoesNothing(s: Snapshot, table: seq<Legacy>, serial: string, entry: EntryId)
    requires s.Consistent() && Distinct(table) && Unblocked(s, table, serial)
    ensures var t := After(s, Plan(s, table, serial), entry);
            t.Consistent() && Unblocked(t, table, serial) && Plan(t, table, serial) == []
  {
    var t := After(s, Plan(s, table, serial), entry);
    PlanFits(s, table, serial);
    var plan := Plan(s, table, serial);
    RestStaysReady(s, plan, |plan|, entry);
    assert plan[..|plan|] == plan;
    forall l | l in table ensures LegacyKey(l.uniqueId) !in t.index {
      EveryLegacyIdIsAdopted(s, table, serial, entry, l);
    }
    NothingPresent(t, table, serial);
  }

  lemma {:induction false} NothingPresent(s: Snapshot, table: seq<Legacy>, serial: string)
    requires s.Consistent() && forall l :: l in table ==> LegacyKey(l.uniqueId) !in s.index
    ensures Plan(s, table, serial) == []
  {
    if table != [] {
      NothingPresent(s, table[..|table| - 1], serial);
      assert table[|table| - 1] in table;
    }
  }

  /** What the user chose travels, and nothing else: the user's own fields and every
      option of the legacy entry; disabled and hidden if it was the user who had
      done it, and else as the new entry has it of itself. */
  ghost predicate ChoicesTravelled(was: Settings, base: Settings, now: Settings) {
    && now.own == was.own
    && (forall k :: k in was.options ==> k in now.options && now.options[k] == was.options[k])
    && (forall k :: k !in was.options ==> (k in now.options <==> k in base.options))
    && (forall k :: k !in was.options && k in base.options ==> now.options[k] == base.options[k])
    && (was.disabledBy == Some(User) ==> now.disabledBy == Some(User))
    && (was.disabledBy != Some(User) ==> now.disabledBy == base.disabledBy)
    && (was.hiddenBy == Some(User) ==> now.hiddenBy == Some(User))
    && (was.hiddenBy != Some(User) ==> now.hiddenBy == base.hiddenBy)
  }

  lemma SuccessorTakesChoices(s: Snapshot, a: Adoption, entry: EntryId)
    ensures ChoicesTravelled(a.legacy.settings, s.Remembered(NewKey(a.newUniqueId)), Successor(s, a, entry).settings)
    ensures Successor(s, a, entry).configEntry == Some(entry)
    ensures Successor(s, a, entry).key == Key("sensor", "wago_879", a.newUniqueId)
  {
  }

  lemma OnlyTheUsersChoicesTravel(s: Snapshot, plan: seq<Adoption>, entry: EntryId, i: nat)
    requires Fit(s, plan) && i < |plan|
    ensures var t := After(s, plan, entry);
            var id := plan[i].id;
            && id in s.entities && id in t.entities
            && ChoicesTravelled(s.entities[id].settings, s.Remembered(NewKey(plan[i].newUniqueId)), t.entities[id].settings)
            && t.entities[id].configEntry == Some(entry)
            && t.entities[id].key == Key("sensor", "wago_879", plan[i].newUniqueId)
  {
    AdoptedExactly(s, plan, entry);
    assert Ready(s, plan[i]);
    SuccessorTakesChoices(s, plan[i], entry);
    hide After, Snapshot.Consistent, Clear, Successor, ChoicesTravelled, IsPlanned, Apart, Snapshot.Remembered;
  }

  /** The unique ids as the registry has them. */
  lemma UniqueIdsAsWritten(uniqueId: string)
    ensures NewUniqueId("00123456", "voltage_l1") == "00123456_voltage_l1"
    ensures LegacyKey(uniqueId) == Key("sensor", "modbus", uniqueId) && NewKey(uniqueId) == Key("sensor", "wago_879", uniqueId)
  {
  }
}
