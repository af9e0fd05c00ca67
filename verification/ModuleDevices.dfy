/**
 Which module an entry is known to reach: the device kept for it, and the entry
 a module found by the search is taken for.

 Home Assistant's device registry is a contract: one device per identifier,
 shared by every config entry that registered it, removed as a whole. A removed
 device may come back under its old id or under a new one, but no id ever names
 a second identifier. Removing a device that is gone does nothing.
 */
module ModuleDevices {
  import opened Wrappers
  import opened Entries
  import opened ModuleSerials

  type DeviceId = nat

  datatype Model = Meter | Module

  datatype DeviceEntry = DeviceEntry(serial: string, model: Model, entries: set<EntryId>)

  type Devices = map<DeviceId, DeviceEntry>

  /** `named`: the serial of every id there has been. */
  datatype Registry = Registry(devices: Devices, named: map<DeviceId, string>)

  /** What a setup hears from the module's unit: its serial number, that no
      module of this kind is there, or nothing that settles it. */
  datatype ModuleAnswer = Reported(number: nat) | NoModule | Open

  ghost predicate Valid(r: Registry) {
    && (forall d, e :: d in r.devices && e in r.devices && r.devices[d].serial == r.devices[e].serial ==> d == e)
    && (forall d :: d in r.devices && r.devices[d].model == Meter ==> |r.devices[d].serial| == METER_SERIAL_DIGITS)
    && (forall d :: d in r.devices ==> d in r.named && r.named[d] == r.devices[d].serial)
  }

  /** The module devices an entry has. */
  function ModulesOf(devices: Devices, entryId: EntryId): set<DeviceId> {
    set d | d in devices && devices[d].model == Module && entryId in devices[d].entries
  }

  lemma {:induction false} FirstExists(ids: set<DeviceId>, d: DeviceId)
    requires d in ids
    ensures exists first :: first in ids && forall e :: e in ids ==> first <= e
  {
    if e :| e in ids && e < d {
      FirstExists(ids, e);
    } else {
      assert d in ids && forall e :: e in ids ==> d <= e;
    }
  }

  /** The device the registry lists first; it lists them by their ids. */
  function First(ids: set<DeviceId>): (d: DeviceId)
    requires ids != {}
    ensures d in ids && forall e :: e in ids ==> d <= e
  {
    assert exists first :: first in ids && forall e :: e in ids ==> first <= e by {
      var d :| d in ids;
      FirstExists(ids, d);
    }
    var d :| d in ids && forall e :: e in ids ==> d <= e;
    d
  }

  // ------------------------------------------------------------- one setup

  /** The id a device of that serial has, or may be given. */
  ghost predicate MayGet(r: Registry, serial: string, id: DeviceId) {
    if id in r.devices then r.devices[id].serial == serial
    else (forall d :: d in r.devices ==> r.devices[d].serial != serial) && (id in r.named ==> r.named[id] == serial)
  }

  /** The device is there, and the entry's too. */
  function Registered(r: Registry, entryId: EntryId, serial: string, id: DeviceId): Registry {
    var entries := {entryId} + if id in r.devices then r.devices[id].entries else {};
    Registry(r.devices[id := DeviceEntry(serial, Module, entries)], r.named[id := serial])
  }

  /** What a setup makes of the registry it finds when the answer arrives, having
      listed `known` as its entry's module devices before it asked. */
  function Resumed(r: Registry, entryId: EntryId, known: set<DeviceId>, answer: ModuleAnswer, id: DeviceId): Registry {
    match answer
    case Open => r
    case NoModule => r.(devices := r.devices - known)
    case Reported(number) =>
      var there := Registered(r, entryId, ModuleSerial(number), id);
      there.(devices := there.devices - (known - {id}))
  }

  /** The ids the answer allows for its device. */
  ghost predicate IdFits(r: Registry, answer: ModuleAnswer, id: DeviceId) {
    answer.Reported? ==> MayGet(r, ModuleSerial(answer.number), id)
  }

  /** The device a settled answer leaves the entry with. */
  function SettledOn(answer: ModuleAnswer, id: DeviceId): set<DeviceId> {
    if answer.Reported? then {id} else {}
  }

  /** The known devices that a settled answer has removed. */
  function Dropped(known: set<DeviceId>, answer: ModuleAnswer, id: DeviceId): set<DeviceId> {
    if answer.Open? then {} else known - SettledOn(answer, id)
  }

  /** Every device that is not a module's is still there, as it was. */
  ghost predicate MetersStay(before: Devices, after: Devices) {
    forall d :: d in before && before[d].model == Meter ==> d in after && after[d] == before[d]
  }

  /** What others may do to the registry while a setup waits: they give its entry
      no module device, leave devices of meters alone, and never name a meter by an
      id that was another device's. */
  ghost predicate Meantime(before: Registry, after: Registry, entryId: EntryId) {
    && Valid(after) && MetersStay(before.devices, after.devices)
    && (forall d :: d in after.devices && after.devices[d].model == Meter && d !in before.devices ==> d !in before.named)
    && (forall d :: d in before.devices && d in after.devices ==> after.devices[d].model == before.devices[d].model)
    && ModulesOf(after.devices, entryId) <= ModulesOf(before.devices, entryId)
    && (forall d :: d in before.named ==> d in after.named && after.named[d] == before.named[d])
  }

  class DeviceRegistry {
    var devices: Devices
    var named: map<DeviceId, string>

    constructor ()
      ensures Now() == Registry(map[], map[])
    {
      devices, named := map[], map[];
    }

    function Now(): Registry
      reads this
    {
      Registry(devices, named)
    }

    /** The id that once named this serial, or one no device ever had. */
    method FreeId(serial: string) returns (id: DeviceId)
      ensures id in named ==> named[id] == serial
    {
      var rest := named.Keys;
      id := 0;
      while rest != {}
        invariant rest <= named.Keys
        invariant forall d :: d in named && d !in rest ==> d < id
        decreases rest
      {
        var d: DeviceId :| d in rest;
        if named[d] == serial {
          return d;
        }
        if d >= id {
          id := d + 1;
        }
        rest := rest - {d};
      }
    }

    method GetOrCreate(entryId: EntryId, serial: string) returns (id: DeviceId)
      requires Valid(Now()) && |serial| >= MODULE_SERIAL_DIGITS
      modifies this
      ensures MayGet(old(Now()), serial, id)
      ensures Now() == Registered(old(Now()), entryId, serial, id)
    {
      var rest := devices.Keys;
      var entries := {entryId};
      while rest != {}
        invariant rest <= devices.Keys
        invariant forall d :: d in devices && d !in rest ==> devices[d].serial != serial
        decreases rest
      {
        var d :| d in rest;
        if devices[d].serial == serial {
          devices, named := devices[d := DeviceEntry(serial, Module, entries + devices[d].entries)], named[d := serial];
          return d;
        }
        rest := rest - {d};
      }
      id := FreeId(serial);
      devices, named := devices[id := DeviceEntry(serial, Module, entries + {})], named[id := serial];
    }

    method RemoveDevice(id: DeviceId)
      modifies this`devices
      ensures devices == old(devices) - {id}
    {
      devices := devices - {id};
    }

    /** Removes the devices among `known` other than the current one; `gone` are
        those that were no longer there. */
    method RemoveOthers(known: set<DeviceId>, current: Option<DeviceId>) returns (ghost gone: set<DeviceId>)
      modifies this`devices
      ensures devices == old(devices) - (set d | d in known && current != Some(d))
      ensures gone == set d | d in known && current != Some(d) && d !in old(devices)
    {
      var rest := known;
      gone := {};
      while rest != {}
        invariant rest <= known
        invariant devices == old(devices) - (set d | d in known && d !in rest && current != Some(d))
        invariant gone == set d | d in known && d !in rest && current != Some(d) && d !in old(devices)
        decreases rest
      {
        var device :| device in rest;
        if current != Some(device) {
          if device !in devices {
            gone := gone + {device};
          }
          RemoveDevice(device);
        }
        rest := rest - {device};
      }
    }

    /** What follows the answer. */
    method Resume(entryId: EntryId, known: set<DeviceId>, answer: ModuleAnswer)
      returns (current: Option<DeviceId>, ghost id: DeviceId, ghost gone: set<DeviceId>)
      requires Valid(Now())
      modifies this
      ensures IdFits(old(Now()), answer, id) && Now() == Resumed(old(Now()), entryId, known, answer, id)
      ensures gone == Dropped(known, answer, id) - old(devices).Keys
      ensures current == match answer
                         case Open => if known == {} then None else Some(First(known))
                         case NoModule => None
                         case Reported(_) => Some(id)
    {
      id, gone := 0, {};
      match answer {
        case Open =>
          current := if known == {} then None else Some(First(known));
        case NoModule =>
          current := None;
          gone := RemoveOthers(known, None);
          assert devices == old(devices) - known;
        case Reported(number) =>
          SerialsAreNumbers(number, number);
          var device := GetOrCreate(entryId, ModuleSerial(number));
          current, id := Some(device), device;
          gone := RemoveOthers(known, current);
          assert devices == Resumed(old(Now()), entryId, known, answer, id).devices;
      }
    }

    /** Setups of other entries run while this one waits for its module. */
    method Meanwhile(entryId: EntryId)
      requires Valid(Now())
      modifies this
      ensures Meantime(old(Now()), Now(), entryId)
    {
    }

    /** One setup: the device the entry goes on with, if any; `met` is the registry
        as the answer found it. A settled answer leaves the entry exactly the
        answering module's device or none, whatever happened while it waited. */
    method AsyncModule(entryId: EntryId, answer: ModuleAnswer)
      returns (current: Option<DeviceId>, ghost met: Registry, ghost id: DeviceId, ghost gone: set<DeviceId>)
      requires Valid(Now())
      modifies this
      ensures Meantime(old(Now()), met, entryId) && IdFits(met, answer, id)
      ensures Now() == Resumed(met, entryId, ModulesOf(old(devices), entryId), answer, id) && Valid(Now())
      ensures gone == Dropped(ModulesOf(old(devices), entryId), answer, id) - met.devices.Keys
      ensures answer.Open? ==>
                var known := ModulesOf(old(devices), entryId);
                devices == met.devices && current == if known == {} then None else Some(First(known))
      ensures !answer.Open? ==>
                forall d :: current == Some(d) <==> d in devices && devices[d].model == Module && entryId in devices[d].entries
      ensures answer.Reported? ==> current.Some? && devices[current.value].serial == ModuleSerial(answer.number)
      ensures MetersStay(old(devices), devices)
    {
      var known := ModulesOf(devices, entryId);
      Meanwhile(entryId);
      met := Now();
      current, id, gone := Resume(entryId, known, answer);
      ResumeSettles(met, entryId, known, answer, id);
      ResumeKeepsMeters(met, entryId, known, answer, id);
      assert !answer.Open? ==> forall d :: d in SettledOn(answer, id) <==> d in ModulesOf(devices, entryId);
    }
  }

  /** What a setup makes of the devices: an answer that settles it leaves the
      entry the answering module's device or none, one that does not changes
      nothing; and no other device is touched either way. */
  ghost predicate SetUp(before: Devices, entryId: EntryId, answer: ModuleAnswer, after: Devices) {
    match answer
    case Open => after == before
    case NoModule => ModulesOf(after, entryId) == {} && OthersStay(before, entryId, None, after)
    case Reported(number) =>
      && (exists d :: ModulesOf(after, entryId) == {d} && after[d].serial == ModuleSerial(number))
      && OthersStay(before, entryId, Some(ModuleSerial(number)), after)
  }

  /** A device is only removed if it was the entry's and has another serial than
      the one kept, and only the one kept is changed: it becomes the entry's. */
  ghost predicate OthersStay(before: Devices, entryId: EntryId, kept: Option<string>, after: Devices) {
    && (forall d :: d in before && Some(before[d].serial) != kept ==>
          if d in ModulesOf(before, entryId) then d !in after else d in after && after[d] == before[d])
    && (forall d :: d in after && Some(after[d].serial) != kept ==> d in before && after[d] == before[d])
    && (forall d :: d in after && Some(after[d].serial) == kept ==>
          after[d].entries <= {entryId} + (if d in before then before[d].entries else {})
          && (d in before ==> Some(before[d].serial) == kept && before[d].model == after[d].model))
  }

  /** However the registry changed meanwhile: a settled answer leaves the entry the
      answering module's device or none. */
  lemma ResumeSettles(r: Registry, entryId: EntryId, known: set<DeviceId>, answer: ModuleAnswer, id: DeviceId)
    requires Valid(r) && ModulesOf(r.devices, entryId) <= known && IdFits(r, answer, id)
    ensures Valid(Resumed(r, entryId, known, answer, id))
    ensures !answer.Open? ==> ModulesOf(Resumed(r, entryId, known, answer, id).devices, entryId) == SettledOn(answer, id)
  {
    ResumeKeepsValid(r, entryId, known, answer, id);
    var t := Resumed(r, entryId, known, answer, id);
    forall d | !answer.Open? && d in ModulesOf(t.devices, entryId) ensures d in SettledOn(answer, id) {
      assert d != id || !answer.Reported? ==> d in ModulesOf(r.devices, entryId);
    }
  }

  lemma ResumeKeepsValid(r: Registry, entryId: EntryId, known: set<DeviceId>, answer: ModuleAnswer, id: DeviceId)
    requires Valid(r) && IdFits(r, answer, id)
    ensures Valid(Resumed(r, entryId, known, answer, id))
  {
    if answer.Reported? {
      var there := Registered(r, entryId, ModuleSerial(answer.number), id);
      forall d, e | d in there.devices && e in there.devices && there.devices[d].serial == there.devices[e].serial
        ensures d == e
      {
      }
    }
  }

  /** A setup that lists modules' devices only removes and changes no other's. */
  lemma ResumeKeepsMeters(r: Registry, entryId: EntryId, known: set<DeviceId>, answer: ModuleAnswer, id: DeviceId)
    requires Valid(r) && IdFits(r, answer, id)
    requires forall d :: d in known && d in r.devices ==> r.devices[d].model == Module
    ensures MetersStay(r.devices, Resumed(r, entryId, known, answer, id).devices)
    ensures forall d :: d in r.devices && d in Resumed(r, entryId, known, answer, id).devices ==>
              Resumed(r, entryId, known, answer, id).devices[d].model == r.devices[d].model
  {
    if answer.Reported? {
      SerialsAreNumbers(answer.number, answer.number);
    }
  }

  /** Other entries keep every module device but those the setup removes, with all
      the entries these have. */
  lemma ResumeKeepsOthers(r: Registry, entryId: EntryId, known: set<DeviceId>, answer: ModuleAnswer, id: DeviceId, other: EntryId)
    requires Valid(r) && IdFits(r, answer, id) && other != entryId
    requires forall d :: d in known && d in r.devices ==> r.devices[d].model == Module
    ensures var t := Resumed(r, entryId, known, answer, id);
            && ModulesOf(t.devices, other) == ModulesOf(r.devices, other) - Dropped(known, answer, id)
            && forall d :: d in r.devices && d in t.devices ==> r.devices[d].entries <= t.devices[d].entries
  {
    if answer.Reported? {
      SerialsAreNumbers(answer.number, answer.number);
    }
  }

  /** No other entry gets a device, and none of its devices changes its serial. */
  lemma ResumeGivesOthersNothing(r: Registry, entryId: EntryId, known: set<DeviceId>, answer: ModuleAnswer, id: DeviceId, other: EntryId)
    requires Valid(r) && IdFits(r, answer, id) && other != entryId
    ensures var t := Resumed(r, entryId, known, answer, id);
            && Valid(t)
            && ModulesOf(t.devices, other) <= ModulesOf(r.devices, other)
            && (forall d :: d in r.named ==> d in t.named && t.named[d] == r.named[d])
            && forall d :: d in ModulesOf(t.devices, other) ==> t.devices[d].serial == r.devices[d].serial
  {
    ResumeKeepsValid(r, entryId, known, answer, id);
  }

  /** It is what a setup of another entry has to expect. */
  lemma ResumeIsMeantime(r: Registry, entryId: EntryId, known: set<DeviceId>, answer: ModuleAnswer, id: DeviceId, other: EntryId)
    requires Valid(r) && IdFits(r, answer, id) && other != entryId
    requires forall d :: d in known && d in r.devices ==> r.devices[d].model == Module
    ensures Meantime(r, Resumed(r, entryId, known, answer, id), other)
  {
    ResumeGivesOthersNothing(r, entryId, known, answer, id, other);
    ResumeKeepsMeters(r, entryId, known, answer, id);
  }

  /** Exactly when nothing else is touched: when every known device that is still
      there, other than the answering module's, is still the entry's own. */
  lemma SetUpExactly(r: Registry, entryId: EntryId, known: set<DeviceId>, answer: ModuleAnswer, id: DeviceId)
    requires Valid(r) && ModulesOf(r.devices, entryId) <= known && IdFits(r, answer, id)
    ensures SetUp(r.devices, entryId, answer, Resumed(r, entryId, known, answer, id).devices) <==>
            Dropped(known, answer, id) * r.devices.Keys <= ModulesOf(r.devices, entryId)
  {
    var t := Resumed(r, entryId, known, answer, id);
    ResumeSettles(r, entryId, known, answer, id);
    if answer.Reported? {
      assert ModulesOf(t.devices, entryId) == {id} && t.devices[id].serial == ModuleSerial(answer.number) by {
        assert id in ModulesOf(t.devices, entryId);
      }
    }
    var dropped := Dropped(known, answer, id);
    if answer.Open? {
    } else if dropped * r.devices.Keys <= ModulesOf(r.devices, entryId) {
      OwnDropped(r, entryId, known, answer, id);
    } else {
      var d :| d in dropped && d in r.devices && d !in ModulesOf(r.devices, entryId);
      assert d !in t.devices;
    }
  }

  lemma OwnDropped(r: Registry, entryId: EntryId, known: set<DeviceId>, answer: ModuleAnswer, id: DeviceId)
    requires Valid(r) && ModulesOf(r.devices, entryId) <= known && IdFits(r, answer, id) && !answer.Open?
    requires Dropped(known, answer, id) * r.devices.Keys <= ModulesOf(r.devices, entryId)
    ensures OthersStay(r.devices, entryId, if answer.Reported? then Some(ModuleSerial(answer.number)) else None,
                       Resumed(r, entryId, known, answer, id).devices)
  {
  }

  // --------------------------------------------------- the entry of a module

  datatype FoundModule = FoundModule(serial: string, host: Host)

  /** The serials of the modules an entry reached. */
  function SerialsOf(devices: Devices, entryId: EntryId): set<string> {
    set d | d in ModulesOf(devices, entryId) :: devices[d].serial
  }

  /** The serial of the first module device an entry has. */
  function ModuleSerialOf(devices: Devices, entryId: EntryId): (serial: Option<string>)
    ensures serial == None <==> forall d :: d in devices ==> devices[d].model == Meter || entryId !in devices[d].entries
    ensures serial.Some? ==> exists d :: (d in devices && devices[d].model == Module && entryId in devices[d].entries
                                          && devices[d].serial == serial.value)
    ensures serial.Some? ==> serial.value in SerialsOf(devices, entryId)
  {
    var known := ModulesOf(devices, entryId);
    assert forall d :: d in known <==> d in devices && devices[d].model == Module && entryId in devices[d].entries;
    if known == {} then None else Some(devices[First(known)].serial)
  }

  /** The entry has the module's device, by its serial. */
  predicate NamedBySerial(devices: Devices, found: FoundModule, id: EntryId) {
    ModuleSerialOf(devices, id) == Some(found.serial)
  }

  /** The entry never reached a module, and names the address this one is at. */
  predicate NamedByAddress(devices: Devices, hosts: map<EntryId, Host>, found: FoundModule, id: EntryId)
    requires id in hosts
  {
    ModulesOf(devices, id) == {} && hosts[id] == found.host
  }

  /** The entries before `i` are not named like that. */
  predicate NoneBySerial(devices: Devices, entries: seq<EntryId>, found: FoundModule, i: nat)
    requires i <= |entries|
  {
    forall j :: 0 <= j < i ==> !NamedBySerial(devices, found, entries[j])
  }

  predicate NoneByAddress(devices: Devices, entries: seq<EntryId>, hosts: map<EntryId, Host>, found: FoundModule, i: nat)
    requires i <= |entries| && forall id :: id in entries ==> id in hosts
  {
    forall j :: 0 <= j < i ==> !NamedByAddress(devices, hosts, found, entries[j])
  }

  /** The first entry the module's serial names; only if it names none, the first
      one that never reached a module and names the module's address. */
  ghost predicate IsEntryOf(devices: Devices, entries: seq<EntryId>, hosts: map<EntryId, Host>, found: FoundModule, r: Option<EntryId>)
    requires forall id :: id in entries ==> id in hosts
  {
    match r
    case Some(id) =>
      exists i :: 0 <= i < |entries| && entries[i] == id
                  && if NamedBySerial(devices, found, id) then NoneBySerial(devices, entries, found, i)
                     else
                       && NoneBySerial(devices, entries, found, |entries|)
                       && NamedByAddress(devices, hosts, found, id) && NoneByAddress(devices, entries, hosts, found, i)
    case None =>
      NoneBySerial(devices, entries, found, |entries|) && NoneByAddress(devices, entries, hosts, found, |entries|)
  }

  method EntryOf(devices: Devices, entries: seq<EntryId>, hosts: map<EntryId, Host>, found: FoundModule)
    returns (r: Option<EntryId>)
    requires forall id :: id in entries ==> id in hosts
    ensures IsEntryOf(devices, entries, hosts, found, r)
  {
    var serials := map id | id in entries :: ModuleSerialOf(devices, id);
    for i := 0 to |entries|
      invariant NoneBySerial(devices, entries, found, i)
    {
      if serials[entries[i]] == Some(found.serial) {
        return Some(entries[i]);
      }
    }
    for i := 0 to |entries|
      invariant NoneByAddress(devices, entries, hosts, found, i)
    {
      if serials[entries[i]] == None && hosts[entries[i]] == found.host {
        return Some(entries[i]);
      }
    }
    r := None;
  }

  /** A module resolves to one entry only, or to none. */
  lemma EntryOfIsUnique(devices: Devices, entries: seq<EntryId>, hosts: map<EntryId, Host>, found: FoundModule, r: Option<EntryId>, q: Option<EntryId>)
    requires forall id :: id in entries ==> id in hosts
    requires IsEntryOf(devices, entries, hosts, found, r) && IsEntryOf(devices, entries, hosts, found, q)
    ensures r == q
  {
    if r.Some? && q.Some? {
      var i :| 0 <= i < |entries| && entries[i] == r.value
        && if NamedBySerial(devices, found, r.value) then NoneBySerial(devices, entries, found, i)
           else NoneBySerial(devices, entries, found, |entries|)
                && NamedByAddress(devices, hosts, found, r.value) && NoneByAddress(devices, entries, hosts, found, i);
      var j :| 0 <= j < |entries| && entries[j] == q.value
        && if NamedBySerial(devices, found, q.value) then NoneBySerial(devices, entries, found, j)
           else NoneBySerial(devices, entries, found, |entries|)
                && NamedByAddress(devices, hosts, found, q.value) && NoneByAddress(devices, entries, hosts, found, j);
      assert i == j;
    }
  }

  /** Two found modules are taken for one entry only if it has no module device
      and both of them named its host. */
  lemma TwoModulesOneEntry(devices: Devices, entries: seq<EntryId>, hosts: map<EntryId, Host>, a: FoundModule, b: FoundModule, id: EntryId)
    requires (forall e :: e in entries ==> e in hosts) && a.serial != b.serial
    requires IsEntryOf(devices, entries, hosts, a, Some(id)) && IsEntryOf(devices, entries, hosts, b, Some(id))
    ensures id in hosts && ModulesOf(devices, id) == {} && a.host == b.host == hosts[id]
  {
  }
}
