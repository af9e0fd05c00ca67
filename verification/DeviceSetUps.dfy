/**
 Setups of any entries side by side. Each lists its entry's module devices, then
 waits for its module, and settles the devices when the answer is there; setups
 of other entries run in between. An entry has one setup at a time.
 */
module DeviceSetUps {
  import opened Wrappers
  import opened Entries
  import opened ModuleSerials
  import opened ModuleDevices

  /** The registry, and what each setup that waits has listed. */
  datatype World = World(registry: Registry, waiting: map<EntryId, set<DeviceId>>)

  /** `id` is the registry's choice for the answering module's device. */
  datatype Action = Begin(entryId: EntryId) | Resume(entryId: EntryId, answer: ModuleAnswer, id: DeviceId)

  ghost predicate Enabled(w: World, a: Action) {
    match a
    case Begin(entryId) => entryId !in w.waiting
    case Resume(entryId, answer, id) => entryId in w.waiting && IdFits(w.registry, answer, id)
  }

  ghost function Next(w: World, a: Action): World
    requires Enabled(w, a)
  {
    match a
    case Begin(entryId) => w.(waiting := w.waiting[entryId := ModulesOf(w.registry.devices, entryId)])
    case Resume(entryId, answer, id) =>
      World(Resumed(w.registry, entryId, w.waiting[entryId], answer, id), w.waiting - {entryId})
  }

  ghost function Run(r: Registry, actions: seq<Action>): Option<World> {
    if actions == [] then Some(World(r, map[]))
    else
      match Run(r, actions[..|actions| - 1])
      case None => None
      case Some(w) =>
        var a := actions[|actions| - 1];
        if Enabled(w, a) then Some(Next(w, a)) else None
  }

  lemma {:induction false} RunPrefix(r: Registry, actions: seq<Action>, n: nat)
    requires n <= |actions| && Run(r, actions).Some?
    ensures Run(r, actions[..n]).Some?
  {
    if n == |actions| {
      assert actions[..n] == actions;
    } else {
      var before := actions[..|actions| - 1];
      RunPrefix(r, before, n);
      assert before[..n] == actions[..n];
    }
  }

  /** The world in which action `i` of the run was taken. */
  ghost function At(r: Registry, actions: seq<Action>, i: nat): World
    requires i <= |actions| && Run(r, actions).Some?
  {
    RunPrefix(r, actions, i);
    Run(r, actions[..i]).value
  }

  ghost function DevicesAt(r: Registry, actions: seq<Action>, i: nat): Devices
    requires i <= |actions| && Run(r, actions).Some?
  {
    At(r, actions, i).registry.devices
  }

  lemma StepAt(r: Registry, actions: seq<Action>, i: nat)
    requires Run(r, actions).Some? && i < |actions|
    ensures Enabled(At(r, actions, i), actions[i])
    ensures At(r, actions, i + 1) == Next(At(r, actions, i), actions[i])
  {
    RunPrefix(r, actions, i + 1);
    assert actions[..i + 1][..i] == actions[..i];
  }

  lemma StartsAt(r: Registry, actions: seq<Action>)
    requires Run(r, actions).Some?
    ensures At(r, actions, 0) == World(r, map[])
  {
    assert actions[..0] == [];
  }

  // ------------------------------------------------- what every run keeps

  /** Whoever waits has listed all the module devices its entry has by now. */
  ghost predicate Listed(w: World, entryId: EntryId)
    requires entryId in w.waiting
  {
    && ModulesOf(w.registry.devices, entryId) <= w.waiting[entryId] <= w.registry.named.Keys
    && forall d :: d in w.waiting[entryId] && d in w.registry.devices ==> w.registry.devices[d].model == Module
  }

  ghost predicate Invariant(w: World) {
    Valid(w.registry) && forall entryId :: entryId in w.waiting ==> Listed(w, entryId)
  }

  lemma StepKeeps(w: World, a: Action)
    requires Invariant(w) && Enabled(w, a)
    ensures Invariant(Next(w, a))
  {
    var t := Next(w, a);
    if a.Begin? {
      assert forall entryId :: entryId in w.waiting ==> Listed(w, entryId);
      assert Listed(t, a.entryId);
    } else {
      assert Listed(w, a.entryId);
      ResumeSettles(w.registry, a.entryId, w.waiting[a.entryId], a.answer, a.id);
      ResumeKeepsMeters(w.registry, a.entryId, w.waiting[a.entryId], a.answer, a.id);
      forall entryId | entryId in t.waiting ensures Listed(t, entryId) {
        assert Listed(w, entryId);
        OthersStepGivesNothing(w, a, entryId);
      }
    }
  }

  /** A step of another entry's setup is what a waiting one has to expect. */
  lemma OthersStepGivesNothing(w: World, a: Action, entryId: EntryId)
    requires Invariant(w) && Enabled(w, a) && a.entryId != entryId
    ensures Meantime(w.registry, Next(w, a).registry, entryId)
    ensures forall d :: d in ModulesOf(Next(w, a).registry.devices, entryId) ==>
              Next(w, a).registry.devices[d].serial == w.registry.devices[d].serial
  {
    if a.Resume? {
      assert Listed(w, a.entryId);
      ResumeGivesOthersNothing(w.registry, a.entryId, w.waiting[a.entryId], a.answer, a.id, entryId);
      ResumeIsMeantime(w.registry, a.entryId, w.waiting[a.entryId], a.answer, a.id, entryId);
    }
  }

  lemma {:induction false} RunKeeps(r: Registry, actions: seq<Action>, i: nat)
    requires Valid(r) && Run(r, actions).Some? && i <= |actions|
    ensures Invariant(At(r, actions, i))
    decreases i
  {
    hide Run, Next, Enabled;
    if i == 0 {
      StartsAt(r, actions);
    } else {
      RunKeeps(r, actions, i - 1);
      StepAt(r, actions, i - 1);
      StepKeeps(At(r, actions, i - 1), actions[i - 1]);
    }
  }

  /** While a setup waits, others do to the registry only what it has to expect. */
  lemma {:induction false} WaitingSeesMeantime(r: Registry, actions: seq<Action>, entryId: EntryId, from: nat, upTo: nat)
    requires Valid(r) && Run(r, actions).Some? && from <= upTo <= |actions|
    requires forall i :: from <= i < upTo ==> actions[i].entryId != entryId
    ensures Meantime(At(r, actions, from).registry, At(r, actions, upTo).registry, entryId)
    decreases upTo
  {
    hide Run, Next, Enabled, Meantime, Valid;
    ValidAt(r, actions, from);
    var before := At(r, actions, from).registry;
    if from == upTo {
      NothingIsMeantime(before, entryId);
    } else {
      WaitingSeesMeantime(r, actions, entryId, from, upTo - 1);
      RunKeeps(r, actions, upTo - 1);
      StepAt(r, actions, upTo - 1);
      var w, a := At(r, actions, upTo - 1), actions[upTo - 1];
      OthersStepGivesNothing(w, a, entryId);
      MeantimeTwice(before, w.registry, Next(w, a).registry, entryId);
    }
  }

  lemma NothingIsMeantime(r: Registry, entryId: EntryId)
    requires Valid(r)
    ensures Meantime(r, r, entryId)
  {
  }

  lemma MeantimeTwice(before: Registry, r: Registry, after: Registry, entryId: EntryId)
    requires Valid(before) && Meantime(before, r, entryId) && Meantime(r, after, entryId)
    ensures Meantime(before, after, entryId)
  {
    hide ModulesOf;
    forall d | d in after.devices && after.devices[d].model == Meter && d !in before.devices ensures d !in before.named {
      if d in r.devices {
        assert r.devices[d].model == Meter;
      } else {
        assert d in before.named ==> d in r.named;
      }
    }
    forall d | d in before.devices && d in after.devices ensures after.devices[d].model == before.devices[d].model {
      if d !in r.devices {
        assert d in before.named && d in r.named;
      }
    }
  }

  lemma ValidAt(r: Registry, actions: seq<Action>, i: nat)
    requires Valid(r) && Run(r, actions).Some? && i <= |actions|
    ensures Valid(At(r, actions, i).registry)
  {
    RunKeeps(r, actions, i);
  }

  /** No device of a meter is removed or changed, in any run. */
  lemma {:induction false} MetersStayInRuns(r: Registry, actions: seq<Action>, from: nat, upTo: nat)
    requires Valid(r) && Run(r, actions).Some? && from <= upTo <= |actions|
    ensures MetersStay(DevicesAt(r, actions, from), DevicesAt(r, actions, upTo))
    decreases upTo
  {
    hide Run, Enabled;
    if from < upTo {
      MetersStayInRuns(r, actions, from, upTo - 1);
      RunKeeps(r, actions, upTo - 1);
      StepAt(r, actions, upTo - 1);
      var w, a := At(r, actions, upTo - 1), actions[upTo - 1];
      StepKeepsMeters(w, a);
    }
  }

  lemma StepKeepsMeters(w: World, a: Action)
    requires Invariant(w) && Enabled(w, a)
    ensures MetersStay(w.registry.devices, Next(w, a).registry.devices)
  {
    if a.Resume? {
      assert Listed(w, a.entryId);
      ResumeKeepsMeters(w.registry, a.entryId, w.waiting[a.entryId], a.answer, a.id);
    }
  }

  // --------------------------------------------------- what a setup leaves

  predicate IsSettled(a: Action) {
    a.Resume? && !a.answer.Open?
  }

  /** Whatever other setups did while it waited: a settled one leaves its entry
      exactly the answering module's device, or none. */
  lemma SettledLeavesOne(r: Registry, actions: seq<Action>, i: nat)
    requires Valid(r) && Run(r, actions).Some? && i < |actions| && IsSettled(actions[i])
    ensures var after := DevicesAt(r, actions, i + 1);
            && ModulesOf(after, actions[i].entryId) == SettledOn(actions[i].answer, actions[i].id)
            && SerialsOf(after, actions[i].entryId) == SerialsAfter(actions[i].answer)
  {
    var w, a := At(r, actions, i), actions[i];
    RunKeeps(r, actions, i);
    StepAt(r, actions, i);
    assert Listed(w, a.entryId);
    ResumeSettles(w.registry, a.entryId, w.waiting[a.entryId], a.answer, a.id);
    SettledSerials(w.registry, a.entryId, w.waiting[a.entryId], a.answer, a.id);
  }

  /** The serial a settled answer leaves an entry with. */
  function SerialsAfter(answer: ModuleAnswer): set<string> {
    match answer
    case Reported(number) => {ModuleSerial(number)}
    case _ => {}
  }

  lemma SettledSerials(r: Registry, entryId: EntryId, known: set<DeviceId>, answer: ModuleAnswer, id: DeviceId)
    requires ModulesOf(Resumed(r, entryId, known, answer, id).devices, entryId) == SettledOn(answer, id) && !answer.Open?
    ensures SerialsOf(Resumed(r, entryId, known, answer, id).devices, entryId) == SerialsAfter(answer)
  {
    var t := Resumed(r, entryId, known, answer, id).devices;
    if answer.Reported? {
      assert id in ModulesOf(t, entryId);
      assert t[id].serial in SerialsOf(t, entryId);
    }
  }

  /** The devices a setup removes although they are no longer its entry's. */
  ghost function Strangers(w: World, a: Action): set<DeviceId>
    requires a.Resume? && a.entryId in w.waiting
  {
    Dropped(w.waiting[a.entryId], a.answer, a.id) * w.registry.devices.Keys - ModulesOf(w.registry.devices, a.entryId)
  }

  /** Exactly when a setup touches its own entry's devices only: when no device it
      had listed has come back as another entry's. */
  lemma OwnDevicesOnlyExactly(r: Registry, actions: seq<Action>, i: nat)
    requires Valid(r) && Run(r, actions).Some? && i < |actions| && actions[i].Resume?
    ensures var w := At(r, actions, i);
            && actions[i].entryId in w.waiting
            && (SetUp(w.registry.devices, actions[i].entryId, actions[i].answer, DevicesAt(r, actions, i + 1)) <==>
                  Strangers(w, actions[i]) == {})
  {
    var w, a := At(r, actions, i), actions[i];
    RunKeeps(r, actions, i);
    StepAt(r, actions, i);
    assert Listed(w, a.entryId);
    SetUpExactly(w.registry, a.entryId, w.waiting[a.entryId], a.answer, a.id);
    var left := Dropped(w.waiting[a.entryId], a.answer, a.id) * w.registry.devices.Keys;
    assert Strangers(w, a) == {} <==> left <= ModulesOf(w.registry.devices, a.entryId);
  }

  lemma RunMore(r: Registry, actions: seq<Action>, a: Action)
    requires Run(r, actions).Some? && Enabled(Run(r, actions).value, a)
    ensures Run(r, actions + [a]) == Some(Next(Run(r, actions).value, a))
  {
    assert (actions + [a])[..|actions|] == actions;
  }

  /** One device of entries `a` and `b`. */
  function Shared(a: EntryId, b: EntryId, d: DeviceId, n: nat): Registry {
    Registry(map[d := DeviceEntry(ModuleSerial(n), Module, {a, b})], map[d := ModuleSerial(n)])
  }

  /** `b` loses its module while `a` waits, and `c` finds it, under its old id. */
  function FoundAgain(a: EntryId, b: EntryId, c: EntryId, d: DeviceId, n: nat): seq<Action> {
    [Begin(a), Begin(b)] + [Resume(b, NoModule, d)] + [Begin(c)] + [Resume(c, Reported(n), d)]
  }

  lemma BothBegin(r: Registry, a: EntryId, b: EntryId)
    requires a != b
    ensures Run(r, [Begin(a), Begin(b)])
         == Some(World(r, map[a := ModulesOf(r.devices, a), b := ModulesOf(r.devices, b)]))
  {
    assert Run(r, []) == Some(World(r, map[]));
    RunMore(r, [], Begin(a));
    assert [] + [Begin(a)] == [Begin(a)];
    RunMore(r, [Begin(a)], Begin(b));
    assert [Begin(a)] + [Begin(b)] == [Begin(a), Begin(b)];
  }

  lemma FoundAgainRuns(a: EntryId, b: EntryId, c: EntryId, d: DeviceId, n: nat)
    requires a != b && b != c && c != a
    ensures Run(Shared(a, b, d, n), FoundAgain(a, b, c, d, n))
         == Some(World(Registry(map[d := DeviceEntry(ModuleSerial(n), Module, {c})], map[d := ModuleSerial(n)]), map[a := {d}]))
  {
    var r := Shared(a, b, d, n);
    var gone := Registry(map[], map[d := ModuleSerial(n)]);
    BothBegin(r, a, b);
    assert ModulesOf(r.devices, a) == {d} && ModulesOf(r.devices, b) == {d} && ModulesOf(gone.devices, c) == {};
    hide Run, ModuleSerial;
    var actions := [Begin(a), Begin(b)];
    RunMore(r, actions, Resume(b, NoModule, d));
    actions := actions + [Resume(b, NoModule, d)];
    assert Run(r, actions).value == World(gone, map[a := {d}]);
    RunMore(r, actions, Begin(c));
    actions := actions + [Begin(c)];
    assert Run(r, actions).value == World(gone, map[a := {d}, c := {}]);
    var w, last := Run(r, actions).value, Resume(c, Reported(n), d);
    RunMore(r, actions, last);
    assert actions + [last] == FoundAgain(a, b, c, d, n);
    var none: set<DeviceId> := {};
    assert none - {d} == none && {c} + {} == {c};
    assert Next(w, last).registry.devices == map[d := DeviceEntry(ModuleSerial(n), Module, {c})];
    assert Next(w, last).registry.named == map[d := ModuleSerial(n)];
    assert Next(w, last).waiting == map[a := {d}];
  }

  /** It can come to that where the registry brings devices back under their old
      ids: three entries, one module, and the setup of an entry that lost it takes
      it from the one that has it now. */
  lemma AnothersDeviceCanGo(a: EntryId, b: EntryId, c: EntryId, d: DeviceId, n: nat)
    requires a != b && b != c && c != a
    ensures Valid(Shared(a, b, d, n)) && Run(Shared(a, b, d, n), FoundAgain(a, b, c, d, n)).Some?
    ensures var w := Run(Shared(a, b, d, n), FoundAgain(a, b, c, d, n)).value;
            var last := Resume(a, NoModule, d);
            && Enabled(w, last) && Strangers(w, last) == {d}
            && ModulesOf(w.registry.devices, c) == {d} && ModulesOf(Next(w, last).registry.devices, c) == {}
  {
    FoundAgainRuns(a, b, c, d, n);
    SerialsAreNumbers(n, n);
    hide Run, ModuleSerial;
    var w := Run(Shared(a, b, d, n), FoundAgain(a, b, c, d, n)).value;
    assert ModulesOf(w.registry.devices, c) == {d} && ModulesOf(w.registry.devices, a) == {};
  }

  // ------------------------------------------- registries that give new ids

  /** A device that comes back does so under a new id. */
  ghost predicate NewIds(r: Registry, actions: seq<Action>)
    requires Run(r, actions).Some?
  {
    forall i :: 0 <= i < |actions| && actions[i].Resume? && actions[i].answer.Reported? ==>
      actions[i].id in DevicesAt(r, actions, i) || actions[i].id !in At(r, actions, i).registry.named
  }

  /** What a waiting setup had listed is its entry's, or gone. */
  ghost predicate OwnOrGone(w: World, entryId: EntryId)
    requires entryId in w.waiting
  {
    w.waiting[entryId] * w.registry.devices.Keys <= ModulesOf(w.registry.devices, entryId)
  }

  lemma StepKeepsOwn(w: World, a: Action, entryId: EntryId)
    requires Invariant(w) && Enabled(w, a) && entryId in Next(w, a).waiting
    requires entryId in w.waiting ==> OwnOrGone(w, entryId)
    requires a.Resume? && a.answer.Reported? ==> a.id in w.registry.devices || a.id !in w.registry.named
    ensures OwnOrGone(Next(w, a), entryId)
  {
    var t := Next(w, a);
    if a.Resume? {
      assert Listed(w, entryId);
      forall d | d in t.waiting[entryId] && d in t.registry.devices ensures d in ModulesOf(t.registry.devices, entryId) {
        assert d in w.registry.named;
        assert d in w.registry.devices;
        assert d in ModulesOf(w.registry.devices, entryId);
      }
    }
  }

  lemma {:induction false} NewIdsKeepOwn(r: Registry, actions: seq<Action>, i: nat, entryId: EntryId)
    requires Valid(r) && Run(r, actions).Some? && NewIds(r, actions) && i <= |actions|
    requires entryId in At(r, actions, i).waiting
    ensures OwnOrGone(At(r, actions, i), entryId)
    decreases i
  {
    if i == 0 {
      StartsAt(r, actions);
    } else {
      StepAt(r, actions, i - 1);
      RunKeeps(r, actions, i - 1);
      var w := At(r, actions, i - 1);
      if entryId in w.waiting {
        NewIdsKeepOwn(r, actions, i - 1, entryId);
      }
      hide Run, At;
      StepKeepsOwn(w, actions[i - 1], entryId);
    }
  }

  /** With such a registry every setup touches its own entry's devices only. */
  lemma NewIdsTouchOwnOnly(r: Registry, actions: seq<Action>, i: nat)
    requires Valid(r) && Run(r, actions).Some? && NewIds(r, actions) && i < |actions| && actions[i].Resume?
    ensures SetUp(DevicesAt(r, actions, i), actions[i].entryId, actions[i].answer, DevicesAt(r, actions, i + 1))
  {
    OwnDevicesOnlyExactly(r, actions, i);
    NewIdsKeepOwn(r, actions, i, actions[i].entryId);
  }

  // --------------------------------------------- devices that are gone by then

  /** The action removes this device. */
  ghost predicate Removes(w: World, a: Action, d: DeviceId) {
    a.Resume? && a.entryId in w.waiting && d in w.registry.devices && d in Dropped(w.waiting[a.entryId], a.answer, a.id)
  }

  /** The action brings it back. */
  predicate BringsBack(a: Action, d: DeviceId) {
    a.Resume? && a.answer.Reported? && a.id == d
  }

  /** Some setup between the two removed the device, and none has brought it back. */
  ghost predicate RemovedSince(r: Registry, actions: seq<Action>, from: nat, upTo: nat, d: DeviceId)
    requires Run(r, actions).Some? && upTo <= |actions|
  {
    exists j :: (from <= j < upTo && Removes(At(r, actions, j), actions[j], d)
                 && forall m :: j < m < upTo ==> !BringsBack(actions[m], d))
  }

  lemma StepRemoves(r: Registry, actions: seq<Action>, i: nat, d: DeviceId)
    requires Run(r, actions).Some? && i < |actions|
    ensures d in DevicesAt(r, actions, i + 1) <==>
            BringsBack(actions[i], d) || (d in DevicesAt(r, actions, i) && !Removes(At(r, actions, i), actions[i], d))
    ensures BringsBack(actions[i], d) ==> !Removes(At(r, actions, i), actions[i], d)
  {
    StepAt(r, actions, i);
    hide Run, At;
  }

  /** Exactly which of the listed devices a setup finds gone when its answer comes:
      those that a setup of another entry that had listed them too has removed
      since, and none brought back. The loop passes over them, and an open answer
      may name one. */
  lemma {:induction false} GoneExactly(r: Registry, actions: seq<Action>, entryId: EntryId, from: nat, upTo: nat, d: DeviceId)
    requires Valid(r) && Run(r, actions).Some? && from < upTo <= |actions| && actions[from] == Begin(entryId)
    requires forall i :: from < i < upTo ==> actions[i].entryId != entryId
    requires d in DevicesAt(r, actions, from)
    ensures d !in DevicesAt(r, actions, upTo) <==> RemovedSince(r, actions, from + 1, upTo, d)
    decreases upTo
  {
    hide Run, At, DevicesAt, Removes, RemovedSince, Valid;
    StepRemoves(r, actions, upTo - 1, d);
    if upTo > from + 1 {
      GoneExactly(r, actions, entryId, from, upTo - 1, d);
      GoneStep(r, actions, from + 1, upTo, d);
    } else {
      BeginRemovesNothing(r, actions, from, d);
    }
  }

  lemma BeginRemovesNothing(r: Registry, actions: seq<Action>, from: nat, d: DeviceId)
    requires Run(r, actions).Some? && from < |actions| && actions[from].Begin?
    ensures !Removes(At(r, actions, from), actions[from], d) && !RemovedSince(r, actions, from + 1, from + 1, d)
  {
  }

  lemma GoneStep(r: Registry, actions: seq<Action>, from: nat, upTo: nat, d: DeviceId)
    requires Run(r, actions).Some? && from < upTo <= |actions|
    requires BringsBack(actions[upTo - 1], d) ==> !Removes(At(r, actions, upTo - 1), actions[upTo - 1], d)
    ensures RemovedSince(r, actions, from, upTo, d) <==>
            Removes(At(r, actions, upTo - 1), actions[upTo - 1], d)
            || (RemovedSince(r, actions, from, upTo - 1, d) && !BringsBack(actions[upTo - 1], d))
  {
    hide Run, At, Removes;
    if RemovedSince(r, actions, from, upTo, d) {
      var j :| from <= j < upTo && Removes(At(r, actions, j), actions[j], d)
        && forall m :: j < m < upTo ==> !BringsBack(actions[m], d);
      assert j == upTo - 1 || !BringsBack(actions[upTo - 1], d);
    }
  }

  // ------------------------------------------------ one module, and which one

  ghost predicate AtMostOne(devices: Devices, entryId: EntryId) {
    forall d, e :: d in ModulesOf(devices, entryId) && e in ModulesOf(devices, entryId) ==> d == e
  }

  /** From one world of a run to the next, an entry gets no module device but by a
      settled setup of its own, which leaves it one at most. */
  lemma StepModules(r: Registry, actions: seq<Action>, i: nat, entryId: EntryId)
    requires Valid(r) && Run(r, actions).Some? && i < |actions|
    ensures var before, after := DevicesAt(r, actions, i), DevicesAt(r, actions, i + 1);
            if IsSettled(actions[i]) && actions[i].entryId == entryId then AtMostOne(after, entryId)
            else ModulesOf(after, entryId) <= ModulesOf(before, entryId) && SerialsOf(after, entryId) <= SerialsOf(before, entryId)
  {
    var w, a := At(r, actions, i), actions[i];
    StepAt(r, actions, i);
    if a.entryId != entryId {
      RunKeeps(r, actions, i);
      OthersStepGivesNothing(w, a, entryId);
      FewerSerials(w.registry.devices, Next(w, a).registry.devices, entryId);
    } else if IsSettled(a) {
      SettledLeavesOne(r, actions, i);
    }
  }

  lemma FewerSerials(before: Devices, after: Devices, entryId: EntryId)
    requires ModulesOf(after, entryId) <= ModulesOf(before, entryId)
    requires forall d :: d in ModulesOf(after, entryId) ==> after[d].serial == before[d].serial
    ensures SerialsOf(after, entryId) <= SerialsOf(before, entryId)
  {
    forall s | s in SerialsOf(after, entryId) ensures s in SerialsOf(before, entryId) {
      var d :| d in ModulesOf(after, entryId) && after[d].serial == s;
      assert d in ModulesOf(before, entryId) && before[d].serial == s;
    }
  }

  /** An entry with at most one module device keeps at most one, whatever setups
      run for it and for others, side by side; and one whose module was settled
      once never has more than one from then on. */
  lemma {:induction false} OneModuleAtMost(r: Registry, actions: seq<Action>, entryId: EntryId, from: nat, upTo: nat)
    requires Valid(r) && Run(r, actions).Some? && from <= upTo <= |actions|
    requires AtMostOne(DevicesAt(r, actions, from), entryId)
             || (from < upTo && IsSettled(actions[from]) && actions[from].entryId == entryId)
    ensures AtMostOne(DevicesAt(r, actions, upTo), entryId)
    decreases |actions| - from
  {
    hide Run, At, DevicesAt;
    if from < upTo {
      StepModules(r, actions, from, entryId);
      OneModuleAtMost(r, actions, entryId, from + 1, upTo);
    }
  }

  /** The entry's setup that ends at `from` is its last settled one before `to`. */
  predicate LastSettled(actions: seq<Action>, entryId: EntryId, from: nat, upTo: nat)
    requires from < upTo <= |actions|
  {
    && IsSettled(actions[from]) && actions[from].entryId == entryId
    && forall i :: from < i < upTo ==> !(IsSettled(actions[i]) && actions[i].entryId == entryId)
  }

  lemma {:induction false} SerialsSinceSettled(r: Registry, actions: seq<Action>, entryId: EntryId, from: nat, upTo: nat)
    requires Valid(r) && Run(r, actions).Some? && from < upTo <= |actions| && LastSettled(actions, entryId, from, upTo)
    ensures SerialsOf(DevicesAt(r, actions, upTo), entryId) <= SerialsAfter(actions[from].answer)
    decreases upTo
  {
    hide Run, At, DevicesAt, SerialsOf, SerialsAfter;
    if upTo == from + 1 {
      SettledLeavesOne(r, actions, from);
    } else {
      SerialsSinceSettled(r, actions, entryId, from, upTo - 1);
      StepModules(r, actions, upTo - 1, entryId);
    }
  }

  /**
   Over every run of setups, side by side: since the last one that settled which
   module an entry reaches, no other module's serial claims the entry. A found
   module resolves to it only by the serial that was settled, or, once it has no
   module device, by the address it names: the module it was let go for never
   does by its serial.
   */
  lemma LetGoCannotClaim(r: Registry, actions: seq<Action>, entryId: EntryId, from: nat, upTo: nat,
                         entries: seq<EntryId>, hosts: map<EntryId, Host>, found: FoundModule)
    requires Valid(r) && Run(r, actions).Some? && from < upTo <= |actions| && LastSettled(actions, entryId, from, upTo)
    requires forall id :: id in entries ==> id in hosts
    requires IsEntryOf(DevicesAt(r, actions, upTo), entries, hosts, found, Some(entryId))
    ensures entryId in hosts
    ensures found.serial in SerialsAfter(actions[from].answer)
            || (ModulesOf(DevicesAt(r, actions, upTo), entryId) == {} && found.host == hosts[entryId])
  {
    SerialsSinceSettled(r, actions, entryId, from, upTo);
  }
}
