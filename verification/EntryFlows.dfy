/**
 Flows that decide on an entry, wait for an answer and then move it, among
 users, deletions and addresses that change hands.

 Each step between two waits is atomic. Who answers where can change at any
 time; so can an entry.
 */
module EntryFlows {
  import opened Wrappers
  import opened Ipv4
  import opened Registers
  import opened ModuleSettings
  import opened Entries

  type FlowId = nat

  /** Whom a question goes to: unit 255 is the module itself. */
  datatype Endpoint = Endpoint(host: Host, port: nat, unitId: nat)

  const MODULE_UNIT_ID: nat := 255

  datatype Kind =
    | Follow(serial: string, address: Address)          // the search found this module there
    | Reconfigure(to: Endpoint)                         // the user named this address of the meter
    | ModulePage(newAddress: Address)                   // the page writes this address to the module

  /** A flow under way: the entry's data when it decided, and when that was. */
  datatype Flow = Flow(kind: Kind, entryId: EntryId, seen: Data, started: nat, answered: Option<nat>)

  /** `meters`: the serial each entry belongs to, its unique id. That of an entry
      made by hand may be missing, and none ever changes. */
  datatype State = State(entries: map<EntryId, Data>, meters: map<EntryId, string>, answers: map<Endpoint, string>,
                         flows: map<FlowId, Flow>)

  datatype Action =
    | Start(flow: FlowId, entryId: EntryId, kind: Kind)
    | Answer(flow: FlowId)                              // the awaited answer arrives
    | Commit(flow: FlowId)                              // the compare-and-set, which ends the flow
    | UserSets(entryId: EntryId, data: Data)
    | Delete(entryId: EntryId)
    | Readdress(answers: map<Endpoint, string>)         // DHCP, a swapped module, anything

  function Wanted(kind: Kind): Move {
    match kind
    case Follow(_, address) => ToHost(Ipv4Literal(address))
    case Reconfigure(to) => ToConnection(to.host, to.port, to.unitId)
    case ModulePage(address) => ToHost(Ipv4Literal(address))
  }

  /** What a flow that is not the user's asks of the host it would replace. */
  predicate Moves(kind: Kind, seen: Data) {
    match kind
    case Follow(_, address) => seen.host != Ipv4Literal(address) && IsAddress(seen.host)
    case Reconfigure(_) => true
    case ModulePage(_) => IsAddress(seen.host)
  }

  /** The answer a flow goes on with: the module's own serial at the address
      found, the serial of the entry's own meter at the one named; the page has
      just written the module. */
  predicate AnswersRight(s: State, id: EntryId, kind: Kind, seen: Data) {
    match kind
    case Follow(serial, address) =>
      var asked := Endpoint(Ipv4Literal(address), seen.port, MODULE_UNIT_ID);
      asked in s.answers && s.answers[asked] == serial
    case Reconfigure(to) => to in s.answers && id in s.meters && s.answers[to] == s.meters[id]
    case ModulePage(_) => true
  }

  predicate Enabled(s: State, a: Action) {
    match a
    case Start(f, id, kind) => f !in s.flows && id in s.entries && Moves(kind, s.entries[id])
    case Answer(f) => f in s.flows && s.flows[f].answered == None
    case Commit(f) => f in s.flows && s.flows[f].answered.Some?
    case UserSets(id, _) => id in s.entries
    case Delete(id) => id in s.entries
    case Readdress(_) => true
  }

  /** The entry is still what the flow decided on. */
  predicate Unchanged(s: State, flow: Flow) {
    flow.entryId in s.entries && s.entries[flow.entryId] == flow.seen
  }

  /** `now` counts the actions so far. */
  function Next(s: State, a: Action, now: nat): State
    requires Enabled(s, a)
  {
    match a
    case Start(f, id, kind) => s.(flows := s.flows[f := Flow(kind, id, s.entries[id], now, None)])
    case Answer(f) =>
      var flow := s.flows[f];
      if AnswersRight(s, flow.entryId, flow.kind, flow.seen) then s.(flows := s.flows[f := flow.(answered := Some(now))])
      else s.(flows := s.flows - {f})
    case Commit(f) =>
      var flow := s.flows[f];
      var rest := s.flows - {f};
      if Unchanged(s, flow) then
        s.(entries := s.entries[flow.entryId := MovedData(flow.seen, Wanted(flow.kind))], flows := rest)
      else s.(flows := rest)
    case UserSets(id, data) => s.(entries := s.entries[id := data])
    case Delete(id) => s.(entries := s.entries - {id})
    case Readdress(answers) => s.(answers := answers)
  }

  function Run(first: State, actions: seq<Action>): Option<State> {
    if actions == [] then Some(first)
    else
      match Run(first, actions[..|actions| - 1])
      case None => None
      case Some(s) =>
        var a := actions[|actions| - 1];
        if Enabled(s, a) then Some(Next(s, a, |actions| - 1)) else None
  }

  lemma {:induction false} RunPrefix(first: State, actions: seq<Action>, n: nat)
    requires n <= |actions| && Run(first, actions).Some?
    ensures Run(first, actions[..n]).Some?
  {
    if n < |actions| {
      var before := actions[..|actions| - 1];
      RunPrefix(first, before, n);
      assert before[..n] == actions[..n];
    } else {
      assert actions[..n] == actions;
    }
  }

  /** The state in which action `i` of the run was taken. */
  function At(first: State, actions: seq<Action>, i: nat): State
    requires i <= |actions| && Run(first, actions).Some?
  {
    RunPrefix(first, actions, i);
    Run(first, actions[..i]).value
  }

  /** What is on record about a flow: it began on the entry as it was then, and
      its answer came later, from whoever was there at that moment. */
  ghost predicate OnRecord(first: State, actions: seq<Action>, f: FlowId, flow: Flow)
    requires Run(first, actions).Some?
  {
    && flow.started < |actions|
    && actions[flow.started] == Start(f, flow.entryId, flow.kind)
    && (var begun := At(first, actions, flow.started);
        flow.entryId in begun.entries && begun.entries[flow.entryId] == flow.seen)
    && Moves(flow.kind, flow.seen)
    && (flow.answered.Some? ==>
          && flow.started < flow.answered.value < |actions|
          && actions[flow.answered.value] == Answer(f)
          && AnswersRight(At(first, actions, flow.answered.value), flow.entryId, flow.kind, flow.seen))
  }

  lemma AtPrefix(first: State, actions: seq<Action>, n: nat, i: nat)
    requires i <= n <= |actions| && Run(first, actions).Some?
    ensures Run(first, actions[..n]).Some? && At(first, actions[..n], i) == At(first, actions, i)
  {
    RunPrefix(first, actions, n);
    assert actions[..n][..i] == actions[..i];
  }

  lemma RecordStays(first: State, actions: seq<Action>, n: nat, f: FlowId, flow: Flow)
    requires n <= |actions| && Run(first, actions).Some? && Run(first, actions[..n]).Some?
    requires OnRecord(first, actions[..n], f, flow)
    ensures OnRecord(first, actions, f, flow)
  {
    AtPrefix(first, actions, n, flow.started);
    if flow.answered.Some? {
      AtPrefix(first, actions, n, flow.answered.value);
    }
  }

  /** Every flow under way in a run that began with none is on its record. */
  lemma {:induction false} FlowsAreOnRecord(first: State, actions: seq<Action>)
    requires first.flows == map[] && Run(first, actions).Some?
    ensures forall f :: f in Run(first, actions).value.flows ==>
              OnRecord(first, actions, f, Run(first, actions).value.flows[f])
  {
    if actions != [] {
      var n := |actions| - 1;
      var before := actions[..n];
      FlowsAreOnRecord(first, before);
      var s, t := Run(first, before).value, Run(first, actions).value;
      assert At(first, actions, n) == s;
      assert t == Next(s, actions[n], n);
      hide Run, At;
      forall f | f in t.flows ensures OnRecord(first, actions, f, t.flows[f]) {
        if f in s.flows {
          RecordStays(first, actions, n, f, s.flows[f]);
        }
        StepIsOnRecord(first, actions, n, f, s, t);
      }
    }
  }

  /** A flow's last step is on record too. */
  lemma StepIsOnRecord(first: State, actions: seq<Action>, n: nat, f: FlowId, s: State, t: State)
    requires n == |actions| - 1 && Run(first, actions).Some? && At(first, actions, n) == s
    requires Enabled(s, actions[n]) && t == Next(s, actions[n], n) && f in t.flows
    requires f in s.flows ==> OnRecord(first, actions, f, s.flows[f]) && s.flows[f].started < n
    ensures OnRecord(first, actions, f, t.flows[f])
  {
    hide Run, At, Moves, MovedData, Wanted, AnswersRight, Unchanged;
  }

  /** The commit took effect. */
  predicate Committed(first: State, actions: seq<Action>, i: nat)
    requires Run(first, actions).Some? && i < |actions|
  {
    actions[i].Commit? && var s := At(first, actions, i);
    actions[i].flow in s.flows && Unchanged(s, s.flows[actions[i].flow])
  }

  lemma StepAt(first: State, actions: seq<Action>, i: nat)
    requires Run(first, actions).Some? && i < |actions|
    ensures Enabled(At(first, actions, i), actions[i])
    ensures At(first, actions, i + 1) == Next(At(first, actions, i), actions[i], i)
  {
    RunPrefix(first, actions, i + 1);
    assert actions[..i + 1][..i] == actions[..i];
  }

  /** No update is lost: whenever a flow's commit takes effect, in any run, the
      entry it replaces is there and is, to the last value, what it was when the
      flow decided; the entry then is what the flow wanted and nothing else
      moves. A commit without effect leaves every entry alone. */
  lemma NoLostUpdate(first: State, actions: seq<Action>, i: nat)
    requires first.flows == map[] && Run(first, actions).Some? && i < |actions| && actions[i].Commit?
    ensures var s, after := At(first, actions, i), At(first, actions, i + 1);
            && actions[i].flow in s.flows
            && var flow := s.flows[actions[i].flow];
            && (Committed(first, actions, i) ==>
                  && flow.started < i
                  && flow.entryId in s.entries
                  && flow.entryId in At(first, actions, flow.started).entries
                  && s.entries[flow.entryId] == At(first, actions, flow.started).entries[flow.entryId]
                  && after.entries == s.entries[flow.entryId := MovedData(s.entries[flow.entryId], Wanted(flow.kind))])
            && (!Committed(first, actions, i) ==> after.entries == s.entries)
  {
    StepAt(first, actions, i);
    var s := At(first, actions, i);
    var f := actions[i].flow;
    RunPrefix(first, actions, i);
    FlowsAreOnRecord(first, actions[..i]);
    RecordStays(first, actions, i, f, s.flows[f]);
  }

  /** The search only ever points an entry at an address where a module answered
      with the serial it was found by, after the flow began and before it
      committed; and it never replaces a host name, not even one set while it
      waited. */
  lemma FollowedModuleAnswered(first: State, actions: seq<Action>, i: nat)
    requires first.flows == map[] && Run(first, actions).Some? && i < |actions| && Committed(first, actions, i)
    requires At(first, actions, i).flows[actions[i].flow].kind.Follow?
    ensures var s := At(first, actions, i);
            var flow := s.flows[actions[i].flow];
            var Follow(serial, address) := flow.kind;
            && flow.answered.Some? && flow.started < flow.answered.value < i
            && var asked := Endpoint(Ipv4Literal(address), flow.seen.port, 255);
               var heard := At(first, actions, flow.answered.value).answers;
            && asked in heard && heard[asked] == serial
            && s.entries[flow.entryId].host != Ipv4Literal(address)
            && !s.entries[flow.entryId].host.HostName?
            && flow.entryId in At(first, actions, i + 1).entries
            && At(first, actions, i + 1).entries[flow.entryId] == s.entries[flow.entryId].(host := Ipv4Literal(address))
  {
    StepAt(first, actions, i);
    var s := At(first, actions, i);
    var f := actions[i].flow;
    RunPrefix(first, actions, i);
    FlowsAreOnRecord(first, actions[..i]);
    var flow := s.flows[f];
    AtPrefix(first, actions, i, flow.answered.value);
  }

  /** What anyone sets while a flow waits stays, if it differs from what the flow
      saw: the flow commits nothing then. */
  lemma WhatWasSetStays(first: State, actions: seq<Action>, i: nat)
    requires first.flows == map[] && Run(first, actions).Some? && i < |actions| && actions[i].Commit?
    requires actions[i].flow in At(first, actions, i).flows
    ensures var s := At(first, actions, i);
            var flow := s.flows[actions[i].flow];
            Committed(first, actions, i) <==>
            flow.entryId in s.entries && flow.started < i && flow.entryId in At(first, actions, flow.started).entries
            && s.entries[flow.entryId] == At(first, actions, flow.started).entries[flow.entryId]
  {
    NoLostUpdate(first, actions, i);
    var s := At(first, actions, i);
    RunPrefix(first, actions, i);
    FlowsAreOnRecord(first, actions[..i]);
    RecordStays(first, actions, i, actions[i].flow, s.flows[actions[i].flow]);
  }

  /** No entry's meter changes in a run. */
  lemma {:induction false} MetersStay(first: State, actions: seq<Action>, i: nat)
    requires i <= |actions| && Run(first, actions).Some?
    ensures At(first, actions, i).meters == first.meters
    decreases i
  {
    if i == 0 {
      assert actions[..0] == [];
    } else {
      StepAt(first, actions, i - 1);
      MetersStay(first, actions, i - 1);
    }
  }

  /** A reconfigured entry only ever points to where its own meter answered, after
      the user named that address and before the commit; and all of the connection
      changes, nothing else. */
  lemma ReconfiguredMeterAnswered(first: State, actions: seq<Action>, i: nat)
    requires first.flows == map[] && Run(first, actions).Some? && i < |actions| && Committed(first, actions, i)
    requires At(first, actions, i).flows[actions[i].flow].kind.Reconfigure?
    ensures var s, after := At(first, actions, i), At(first, actions, i + 1);
            var flow := s.flows[actions[i].flow];
            var to := flow.kind.to;
            && flow.answered.Some? && flow.started < flow.answered.value < i
            && var heard := At(first, actions, flow.answered.value).answers;
            && flow.entryId in first.meters && to in heard && heard[to] == first.meters[flow.entryId]
            && flow.entryId in after.entries
            && after.entries[flow.entryId]
               == s.entries[flow.entryId].(host := to.host, port := to.port, unitId := to.unitId)
  {
    StepAt(first, actions, i);
    var s := At(first, actions, i);
    var f := actions[i].flow;
    RunPrefix(first, actions, i);
    FlowsAreOnRecord(first, actions[..i]);
    var flow := s.flows[f];
    AtPrefix(first, actions, i, flow.answered.value);
    MetersStay(first, actions, flow.answered.value);
  }

  /** Only the user replaces a host name: neither the search nor the module's page
      ever commits to an entry that names one, not even one named while they
      waited. */
  lemma HostNamesStay(first: State, actions: seq<Action>, i: nat)
    requires first.flows == map[] && Run(first, actions).Some? && i < |actions| && Committed(first, actions, i)
    requires !At(first, actions, i).flows[actions[i].flow].kind.Reconfigure?
    ensures var s := At(first, actions, i);
            var id := s.flows[actions[i].flow].entryId;
            id in s.entries && IsAddress(s.entries[id].host)
  {
    RunPrefix(first, actions, i);
    FlowsAreOnRecord(first, actions[..i]);
  }

  /** The module's page moves an entry as its flow here does: whenever the entry
      follows the module, the flow moves it, and to the very same place. */
  lemma FollowingIsAFlow(seen: Data, current: Changes, settings: Changes)
    requires IsTyped(current) && IsTyped(settings) && Follows(seen.host, current, settings)
    ensures var page := ModulePage(settings[IpAddress].address);
            && Moves(page, seen)
            && MovedData(seen, Wanted(page)) == seen.(host := AddressOf(settings))
  {
  }

  /** A page's commit changes the host alone, and to the address it wrote. */
  lemma PageChangesTheHostOnly(first: State, actions: seq<Action>, i: nat)
    requires first.flows == map[] && Run(first, actions).Some? && i < |actions| && Committed(first, actions, i)
    requires At(first, actions, i).flows[actions[i].flow].kind.ModulePage?
    ensures var s := At(first, actions, i);
            var flow := s.flows[actions[i].flow];
            && flow.entryId in s.entries && flow.entryId in At(first, actions, i + 1).entries
            && At(first, actions, i + 1).entries[flow.entryId]
               == s.entries[flow.entryId].(host := Ipv4Literal(flow.kind.newAddress))
  {
    StepAt(first, actions, i);
  }
}
