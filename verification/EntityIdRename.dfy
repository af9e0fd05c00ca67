/** The pass that replaces entity ids made from a host by ones made from a serial. */
module EntityIdRename {
  import opened Wrappers
  import opened Entries
  import opened EntityRegistry
  import opened Adoption

  /** The entity id made from the names of a device and of an entity; `slugify` may be any function. */
  function Generated(slugify: string -> string, e: EntityId, originalName: string, device: string): EntityId {
    EntityId(e.domain, slugify(device + " " + originalName))
  }

  datatype Pass = Pass(slugify: string -> string, entry: EntryId, host: string, serial: string)
  {
    /** An entry of the meter whose id is the one its address gave it. */
    ghost predicate Candidate(s: Snapshot, e: EntityId) {
      && e in s.entities
      && s.entities[e].configEntry == Some(entry)
      && s.entities[e].originalName.Some?
      && e == Generated(slugify, e, s.entities[e].originalName.value, host)
    }

    ghost function Wanted(s: Snapshot, e: EntityId): EntityId
      requires Candidate(s, e)
    {
      Generated(slugify, e, s.entities[e].originalName.value, DeviceName(serial))
    }

    /** The entries of the meter, in whatever order the registry lists them. */
    ghost predicate Lists(s: Snapshot, listed: seq<EntityId>) {
      && (forall i, j :: 0 <= i < j < |listed| ==> listed[i] != listed[j])
      && (forall e :: e in listed <==> e in s.entities && s.entities[e].configEntry == Some(entry))
    }

    /** Where an entry may be after the pass: where it was, or where the device's name puts it. */
    ghost predicate MayMove(s: Snapshot, t: Snapshot, k: Key)
      requires s.Consistent() && k in s.index && k in t.index
    {
      t.index[k] == s.index[k] || (Candidate(s, s.index[k]) && t.index[k] == Wanted(s, s.index[k]))
    }

    /** Every entry is still there with everything it had, and only candidates moved. */
    ghost predicate Renames(s: Snapshot, t: Snapshot) {
      && s.Consistent() && t.Consistent()
      && t.index.Keys == s.index.Keys
      && t.deleted == s.deleted && t.states == s.states
      && (forall k :: k in s.index ==> t.entities[t.index[k]] == s.entities[s.index[k]])
      && (forall k :: k in s.index ==> MayMove(s, t, k))
    }

    /** A candidate that stayed had its target taken. */
    ghost predicate Settled(s: Snapshot, t: Snapshot, e: EntityId)
      requires Renames(s, t)
    {
      Candidate(s, e) && t.index[s.entities[e].key] != Wanted(s, e) ==>
        var wanted := Wanted(s, e);
        wanted in s.entities || wanted in t.entities || wanted in t.states
    }

    ghost predicate Waiting(s: Snapshot, t: Snapshot, e: EntityId) {
      e in s.entities && e in t.entities && t.entities[e] == s.entities[e]
    }
  }

  /** One rename keeps what the pass promises. */
  lemma MoveKeepsRenames(pass: Pass, s: Snapshot, u: Snapshot, v: Snapshot, e: EntityId)
    requires pass.Renames(s, u) && pass.Candidate(s, e) && pass.Waiting(s, u, e)
    requires v.Consistent() && u.Available(pass.Wanted(s, e))
    requires var key := s.entities[e].key;
             v == Snapshot((u.entities - {e})[pass.Wanted(s, e) := u.entities[e]], u.index[key := pass.Wanted(s, e)], u.deleted, u.states)
    ensures pass.Renames(s, v)
  {
    var key := s.entities[e].key;
    assert s.HoldsItsKey(e) && u.HoldsItsKey(e);
    assert v.index.Keys == s.index.Keys;
    forall k | k in s.index ensures v.entities[v.index[k]] == s.entities[s.index[k]] && pass.MayMove(s, v, k) {
      if k != key {
        assert pass.MayMove(s, u, k);
        assert u.entities[u.index[k]].key == k;
      }
    }
  }

  /** A candidate whose target was taken keeps its reason: an id another rename frees was held at first. */
  lemma MoveKeepsSettled(pass: Pass, s: Snapshot, u: Snapshot, v: Snapshot, e: EntityId, c: EntityId)
    requires pass.Renames(s, u) && pass.Renames(s, v) && pass.Settled(s, u, c)
    requires pass.Candidate(s, e) && c != e && e in u.entities
    requires v.entities == (u.entities - {e})[pass.Wanted(s, e) := u.entities[e]]
    requires v.index == u.index[s.entities[e].key := pass.Wanted(s, e)]
    ensures pass.Settled(s, v, c)
  {
    if pass.Candidate(s, c) {
      assert s.HoldsItsKey(e) && s.HoldsItsKey(c);
    }
  }

  /**
   One pass over the entries of the meter, in any order. The registry stays consistent, every entry
   keeps its unique id and all it carried, only candidates move, each to the id
   its device's name gives it, and one that stayed had that id taken.
   */
  method RenameGeneratedEntityIds(registry: EntityRegistry, pass: Pass, listed: seq<EntityId>)
    requires registry.Valid() && pass.Lists(registry.Now(), listed)
    modifies registry`entities, registry`index
    ensures registry.Valid()
    ensures pass.Renames(old(registry.Now()), registry.Now())
    ensures forall e :: e in old(registry.entities) ==> pass.Settled(old(registry.Now()), registry.Now(), e)
  {
    hide Snapshot.Consistent, Pass.MayMove, Pass.Settled, Pass.Renames;
    ghost var s := registry.Now();
    var seen := registry.entities;
    UnchangedRenames(pass, s);
    for i := 0 to |listed|
      invariant registry.Valid() && pass.Renames(s, registry.Now())
      invariant forall j :: 0 <= j < i ==> pass.Settled(s, registry.Now(), listed[j])
      invariant forall j :: i <= j < |listed| ==> pass.Waiting(s, registry.Now(), listed[j])
    {
      var e := listed[i];
      assert e in listed;
      ghost var u := registry.Now();
      if seen[e].originalName.Some? && e == Generated(pass.slugify, e, seen[e].originalName.value, pass.host) {
        var wanted := Generated(pass.slugify, e, seen[e].originalName.value, DeviceName(pass.serial));
        var moved := registry.Rename(e, wanted);
        if moved && wanted != e {
          MoveKeepsRenames(pass, s, u, registry.Now(), e);
          forall j | 0 <= j < i ensures pass.Settled(s, registry.Now(), listed[j]) {
            MoveKeepsSettled(pass, s, u, registry.Now(), e, listed[j]);
          }
        }
        MovedOrTaken(pass, s, u, registry.Now(), e);
      } else {
        NotConcerned(pass, s, u, e);
      }
    }
    forall e | e in s.entities ensures pass.Settled(s, registry.Now(), e) {
      if e !in listed {
        NotConcerned(pass, s, registry.Now(), e);
      }
    }
  }

  lemma UnchangedRenames(pass: Pass, s: Snapshot)
    requires s.Consistent()
    ensures pass.Renames(s, s)
  {
  }

  lemma NotConcerned(pass: Pass, s: Snapshot, t: Snapshot, e: EntityId)
    requires pass.Renames(s, t) && !pass.Candidate(s, e)
    ensures pass.Settled(s, t, e)
  {
  }

  lemma MovedOrTaken(pass: Pass, s: Snapshot, u: Snapshot, v: Snapshot, e: EntityId)
    requires pass.Renames(s, u) && pass.Renames(s, v) && pass.Candidate(s, e) && pass.Waiting(s, u, e)
    requires if pass.Wanted(s, e) == e || !u.Available(pass.Wanted(s, e)) then v == u
             else v.index == u.index[s.entities[e].key := pass.Wanted(s, e)]
    ensures pass.Settled(s, v, e)
  {
    assert s.HoldsItsKey(e) && u.HoldsItsKey(e);
  }

  // ---------------------------------------------------------------- what it comes to

  /** A candidate whose target is free, and wanted by no other candidate, moves. */
  lemma FreeTargetIsTaken(pass: Pass, s: Snapshot, t: Snapshot, e: EntityId)
    requires pass.Renames(s, t) && pass.Settled(s, t, e) && pass.Candidate(s, e)
    requires s.Available(pass.Wanted(s, e))
    requires forall c :: pass.Candidate(s, c) && c != e ==> pass.Wanted(s, c) != pass.Wanted(s, e)
    ensures t.index[s.entities[e].key] == pass.Wanted(s, e)
  {
    var wanted := pass.Wanted(s, e);
    assert s.HoldsItsKey(e);
    if wanted in t.entities {
      var k := t.entities[wanted].key;
      assert t.HoldsItsKey(wanted);
      assert pass.MayMove(s, t, k);
      assert s.entities[s.index[k]].key == k;
    }
  }

  /** Once every id has moved the pass changes nothing. */
  lemma NothingLeftToMove(pass: Pass, s: Snapshot, t: Snapshot)
    requires pass.Renames(s, t)
    requires forall e :: pass.Candidate(s, e) ==> pass.Wanted(s, e) == e
    ensures t == s
  {
    forall k | k in s.index ensures t.index[k] == s.index[k] {
      assert pass.MayMove(s, t, k);
    }
    forall e ensures e in t.entities <==> e in s.entities {
      if e in t.entities {
        assert t.HoldsItsKey(e);
      }
      if e in s.entities {
        assert s.HoldsItsKey(e);
      }
    }
    forall e | e in s.entities ensures t.entities[e] == s.entities[e] {
      assert s.HoldsItsKey(e);
    }
    assert t.index == s.index && t.entities == s.entities;
  }

  /** The number of entries is the same, since each keeps its unique id. */
  lemma NumberStays(pass: Pass, s: Snapshot, t: Snapshot)
    requires pass.Renames(s, t)
    ensures |t.entities| == |s.entities|
  {
    OnePerKey(s);
    OnePerKey(t);
    assert |s.index| == |s.index.Keys| && |t.index| == |t.index.Keys|;
  }

  lemma OnePerKey(s: Snapshot)
    requires s.Consistent()
    ensures |s.entities| == |s.index|
  {
    PairedSizes(s, s.entities.Keys, s.index.Keys);
    assert |s.entities| == |s.entities.Keys| && |s.index| == |s.index.Keys|;
  }

  lemma {:induction false} PairedSizes(s: Snapshot, ids: set<EntityId>, keys: set<Key>)
    requires s.Consistent() && ids <= s.entities.Keys && keys <= s.index.Keys
    requires forall k :: k in keys <==> k in s.index && s.index[k] in ids
    ensures |ids| == |keys|
  {
    if ids == {} {
      assert keys == {};
    } else {
      var e :| e in ids;
      assert s.HoldsItsKey(e);
      var k := s.entities[e].key;
      PairedSizes(s, ids - {e}, keys - {k});
    }
  }

  /** Every pass takes the registry from `before` to `after`; until the next one
      the world may do anything but move the entry of this unique id. */
  ghost predicate IsHistory(passes: seq<Pass>, before: seq<Snapshot>, after: seq<Snapshot>, key: Key) {
    && |passes| == |before| == |after|
    && (forall i :: 0 <= i < |passes| ==> passes[i].Renames(before[i], after[i]))
    && (forall i :: 0 <= i < |passes| ==> key in before[i].index && key in after[i].index)
    && (forall i, j :: 0 <= i && j == i + 1 && j < |passes| ==> before[j].index[key] == after[i].index[key])
  }

  /** The id is not the one the host gives the entry it belongs to. */
  ghost predicate NotFromHost(pass: Pass, s: Snapshot, id: EntityId) {
    id in s.entities ==> (s.entities[id].originalName.Some? ==>
      id != Generated(pass.slugify, id, s.entities[id].originalName.value, pass.host))
  }

  lemma {:induction false} IdStaysThrough(passes: seq<Pass>, before: seq<Snapshot>, after: seq<Snapshot>, key: Key, id: EntityId, n: nat)
    requires IsHistory(passes, before, after, key) && n < |passes|
    requires before[0].index[key] == id
    requires forall i :: 0 <= i < |passes| ==> NotFromHost(passes[i], before[i], id)
    ensures after[n].index[key] == id
  {
    if n > 0 {
      IdStaysThrough(passes, before, after, key, id, n - 1);
      assert before[n].index[key] == after[n - 1].index[key];
    }
    assert passes[n].Renames(before[n], after[n]);
    assert passes[n].MayMove(before[n], after[n], key);
    assert NotFromHost(passes[n], before[n], id);
  }

  /** An adopted entity id survives every later pass, of any hosts and serials,
      as long as it never reads like the id the host of the pass gives its name. */
  lemma AdoptedIdStays(s: Snapshot, table: seq<Legacy>, serial: string, entry: EntryId, l: Legacy,
                       passes: seq<Pass>, before: seq<Snapshot>, after: seq<Snapshot>, n: nat)
    requires s.Consistent() && Distinct(table) && Unblocked(s, table, serial) && l in table
    requires LegacyKey(l.uniqueId) in s.index
    requires var key := NewKey(NewUniqueId(serial, l.field));
             var adopted := After(s, Plan(s, table, serial), entry);
             && IsHistory(passes, before, after, key) && n < |passes|
             && key in adopted.index && before[0].index[key] == adopted.index[key]
    requires forall i :: 0 <= i < |passes| ==> NotFromHost(passes[i], before[i], s.index[LegacyKey(l.uniqueId)])
    ensures after[n].index[NewKey(NewUniqueId(serial, l.field))] == s.index[LegacyKey(l.uniqueId)]
  {
    hide Unblocked, Distinct, Plan, After, IsHistory, NotFromHost, Snapshot.Consistent;
    EveryLegacyIdIsAdopted(s, table, serial, entry, l);
    InHistory(passes, before, after, NewKey(NewUniqueId(serial, l.field)), n);
    IdStaysThrough(passes, before, after, NewKey(NewUniqueId(serial, l.field)), s.index[LegacyKey(l.uniqueId)], n);
  }

  lemma InHistory(passes: seq<Pass>, before: seq<Snapshot>, after: seq<Snapshot>, key: Key, n: nat)
    requires IsHistory(passes, before, after, key) && n < |passes|
    ensures |before| == |after| == |passes| && key in before[0].index && key in after[n].index
  {
  }

  /** In the setup that adopts, no adopted id can move: the names are not known yet. */
  lemma FreshlyAdoptedStays(pass: Pass, s: Snapshot, table: seq<Legacy>, serial: string, l: Legacy, u: Snapshot)
    requires s.Consistent() && Distinct(table) && Unblocked(s, table, serial) && l in table
    requires LegacyKey(l.uniqueId) in s.index
    requires pass.Renames(After(s, Plan(s, table, serial), pass.entry), u)
    ensures NewKey(NewUniqueId(serial, l.field)) in u.index
    ensures u.index[NewKey(NewUniqueId(serial, l.field))] == s.index[LegacyKey(l.uniqueId)]
  {
    var t := After(s, Plan(s, table, serial), pass.entry);
    EveryLegacyIdIsAdopted(s, table, serial, pass.entry, l);
    assert pass.MayMove(t, u, NewKey(NewUniqueId(serial, l.field)));
    AdoptedHasNoName(s, table, serial, pass.entry, l);
  }

  lemma AdoptedHasNoName(s: Snapshot, table: seq<Legacy>, serial: string, entry: EntryId, l: Legacy)
    requires s.Consistent() && Distinct(table) && Unblocked(s, table, serial) && l in table
    requires LegacyKey(l.uniqueId) in s.index
    ensures var t := After(s, Plan(s, table, serial), entry);
            var id := s.index[LegacyKey(l.uniqueId)];
            id in t.entities && t.entities[id].originalName == None
  {
    var plan := Plan(s, table, serial);
    PlanFits(s, table, serial);
    PlanHolds(s, table, serial);
    AdoptedExactly(s, plan, entry);
    var was := LegacyKey(l.uniqueId);
    var a := Adoption(s.index[was], s.entities[s.index[was]], NewUniqueId(serial, l.field));
    assert Planned(s, l, serial, a);
    assert a in plan;
    var i :| 0 <= i < |plan| && plan[i] == a;
  }

  // ---------------------------------------------------------- the ids themselves

  /** The meter's name: its maker and the last four characters of its serial. */
  function MeterName(serial: string): string {
    "WAGO " + if |serial| <= 4 then serial else serial[|serial| - 4..]
  }

  /** Every entry that moved was named by the host and its own name, in this order,
      and is named by its meter and its own name now. */
  lemma MovedIdsReadLikeThis(pass: Pass, s: Snapshot, t: Snapshot, k: Key)
    requires pass.Renames(s, t) && k in s.index && t.index[k] != s.index[k]
    ensures var e := s.entities[s.index[k]];
            && e.originalName.Some? && e.configEntry == Some(pass.entry)
            && s.index[k].objectId == pass.slugify(pass.host + " " + e.originalName.value)
            && t.index[k] == EntityId(s.index[k].domain, pass.slugify(MeterName(pass.serial) + " " + e.originalName.value))
  {
    assert pass.MayMove(s, t, k);
  }

  /** And every entry of the meter that reads like that is a candidate. */
  lemma CandidatesReadLikeThis(pass: Pass, s: Snapshot, e: EntityId)
    ensures pass.Candidate(s, e) <==>
            && e in s.entities && s.entities[e].configEntry == Some(pass.entry) && s.entities[e].originalName.Some?
            && e.objectId == pass.slugify(pass.host + " " + s.entities[e].originalName.value)
  {
  }
}
