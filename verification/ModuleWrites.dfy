/**
 How one attempt to write the module goes, request by request.

 The module keeps three copies of its words: the working registers, what
 "store" keeps over a restart, and what it uses since the last "apply". A
 request whose answer does not come may or may not have taken effect.
 */
module ModuleWrites {
  import opened Registers

  /** Working registers, stored settings, settings in use. */
  datatype Device = Device(working: Blocks, stored: Blocks, active: Blocks)

  datatype Answer =
    | Acknowledged
    | LostAfterEffect   // the module did it, the answer did not arrive
    | LostBeforeEffect  // the module never did it

  predicate Taken(a: Answer) {
    !a.LostBeforeEffect?
  }

  /** How an attempt ends: quietly, with a Modbus error, or stored but not
      confirmed as in use. */
  datatype Outcome = Finished | Failed | NotApplied

  type SettingsBlock = s: seq<Word> | |s| == SETTINGS_WORDS witness [0, 0, 0, 0, 0]

  /** The request an attempt sends next, with what it knows by then. */
  datatype Stage =
    | ReadSettings
    | ReadNetwork(settings: SettingsBlock)
    | WriteSettings(blocks: Blocks)
    | WriteNetwork(blocks: Blocks)
    | Store(blocks: Blocks)
    | Apply(blocks: Blocks)
    | Over(result: Outcome)

  /** One request and its answer. */
  function Step(d: Device, stage: Stage, changes: Changes, a: Answer): (r: (Device, Stage))
    requires AllWritable(changes) && !stage.Over?
  {
    var failed := Over(Failed);
    match stage
    case ReadSettings =>
      (d, if a.Acknowledged? then ReadNetwork(d.working.settings) else failed)
    case ReadNetwork(settings) =>
      (d, if a.Acknowledged? then WriteSettings(Patch(Blocks(settings, d.working.network), changes)) else failed)
    case WriteSettings(blocks) =>
      (if Taken(a) then d.(working := Blocks(blocks.settings, d.working.network)) else d,
       if a.Acknowledged? then WriteNetwork(blocks) else failed)
    case WriteNetwork(blocks) =>
      (if Taken(a) then d.(working := Blocks(d.working.settings, blocks.network)) else d,
       if a.Acknowledged? then Store(blocks) else failed)
    case Store(blocks) =>
      (if Taken(a) then d.(stored := d.working) else d,
       if a.Acknowledged? then Apply(blocks) else failed)
    case Apply(blocks) =>
      (if Taken(a) then d.(active := d.working) else d,
       Over(if a.Acknowledged? then Finished else NotApplied))
  }

  /** A whole attempt, or as much of it as `answers` cover. */
  function Attempt(d: Device, changes: Changes, answers: seq<Answer>): (Device, Stage)
    requires AllWritable(changes)
  {
    if answers == [] then (d, ReadSettings)
    else
      var (d', stage) := Attempt(d, changes, answers[..|answers| - 1]);
      if stage.Over? then (d', stage) else Step(d', stage, changes, answers[|answers| - 1])
  }

  lemma AttemptMore(d: Device, changes: Changes, answers: seq<Answer>, a: Answer)
    requires AllWritable(changes) && !Attempt(d, changes, answers).1.Over?
    ensures var (d', stage) := Attempt(d, changes, answers);
            Attempt(d, changes, answers + [a]) == Step(d', stage, changes, a)
  {
    assert (answers + [a])[..|answers|] == answers;
  }

  // ---------------------------------------------- what an attempt amounts to

  /** The first `n` requests were sent and acknowledged. */
  predicate Acked(answers: seq<Answer>, n: nat) {
    n <= |answers| && forall i :: 0 <= i < n ==> answers[i].Acknowledged?
  }

  lemma AckedEarlier(answers: seq<Answer>, m: nat, n: nat)
    requires n <= m <= |answers|
    ensures Acked(answers[..m], n) == Acked(answers, n)
  {
    assert forall i :: 0 <= i < n ==> answers[..m][i] == answers[i];
  }

  /** Request `n` was sent, all before it having been acknowledged, and took
      effect. */
  predicate Took(answers: seq<Answer>, n: nat) {
    Acked(answers, n) && n < |answers| && Taken(answers[n])
  }

  lemma TookEarlier(answers: seq<Answer>, n: nat)
    requires answers != []
    ensures var last := |answers| - 1;
            Took(answers, n) <==> if n == last then Acked(answers[..last], n) && Taken(answers[n]) else Took(answers[..last], n)
  {
    if n <= |answers| - 1 {
      AckedEarlier(answers, |answers| - 1, n);
    }
  }

  // The requests of an attempt, in the order they are sent.
  const SETTINGS_WRITE := 2
  const NETWORK_WRITE := 3
  const STORE := 4
  const APPLY := 5

  /** The changes that reached the working registers. */
  function Arrived(changes: Changes, answers: seq<Answer>): Changes {
    Within(changes, Took(answers, SETTINGS_WRITE), Took(answers, NETWORK_WRITE))
  }

  lemma ArrivedWritable(changes: Changes, answers: seq<Answer>)
    requires AllWritable(changes)
    ensures AllWritable(Arrived(changes, answers))
  {
  }

  /** The device after an attempt, without its steps: the working registers are
      patched by the changes of the blocks that took effect, and "store" and
      "apply" only ever copy the registers with all the changes in them. */
  ghost predicate Amounts(d: Device, changes: Changes, answers: seq<Answer>, after: Device)
    requires AllWritable(changes)
  {
    ArrivedWritable(changes, answers);
    var whole := Patch(d.working, changes);
    && after.working == Patch(d.working, Arrived(changes, answers))
    && after.stored == (if Took(answers, STORE) then whole else d.stored)
    && after.active == (if Took(answers, APPLY) then whole else d.active)
  }

  /** How far an attempt is: at request `n` exactly after `n` acknowledgements,
      and what it is about to write is the patch of what it read. */
  ghost predicate Stands(d: Device, changes: Changes, answers: seq<Answer>, stage: Stage)
    requires AllWritable(changes)
  {
    var whole := Patch(d.working, changes);
    match stage
    case ReadSettings => |answers| == 0
    case ReadNetwork(settings) => |answers| == 1 && Acked(answers, 1) && settings == d.working.settings
    case WriteSettings(blocks) => |answers| == 2 && Acked(answers, 2) && blocks == whole
    case WriteNetwork(blocks) => |answers| == 3 && Acked(answers, 3) && blocks == whole
    case Store(blocks) => |answers| == 4 && Acked(answers, 4) && blocks == whole
    case Apply(blocks) => |answers| == 5 && Acked(answers, 5) && blocks == whole
    case Over(Finished) => Acked(answers, 6)
    case Over(NotApplied) => Acked(answers, 5) && |answers| >= 6 && !answers[5].Acknowledged?
    case Over(Failed) => |answers| >= 1 && !Acked(answers, 5) && !Acked(answers, |answers|)
  }

  lemma NothingWithin(changes: Changes)
    ensures Within(changes, false, false) == map[]
  {
  }

  lemma {:induction false} AttemptStands(d: Device, changes: Changes, answers: seq<Answer>)
    requires AllWritable(changes)
    ensures Stands(d, changes, answers, Attempt(d, changes, answers).1)
  {
    hide Patch;
    if answers != [] {
      var before := answers[..|answers| - 1];
      AttemptStands(d, changes, before);
      forall n: nat | n <= |before| ensures Acked(before, n) == Acked(answers, n) {
        AckedEarlier(answers, |before|, n);
      }
    }
  }

  lemma {:induction false} AttemptAmounts(d: Device, changes: Changes, answers: seq<Answer>)
    requires AllWritable(changes)
    ensures Amounts(d, changes, answers, Attempt(d, changes, answers).0)
    ensures Stands(d, changes, answers, Attempt(d, changes, answers).1)
  {
    hide Patch, Within;
    AttemptStands(d, changes, answers);
    if answers == [] {
      NothingWithin(changes);
      assert Arrived(changes, answers) == map[];
      PatchNothing(d.working);
    } else {
      var before := answers[..|answers| - 1];
      AttemptAmounts(d, changes, before);
      forall n: nat ensures Took(answers, n) <==> if n == |before| then Acked(before, n) && Taken(answers[n]) else Took(before, n) {
        TookEarlier(answers, n);
      }
      assert forall n: nat :: n >= |before| ==> !Took(before, n);
      PatchWithin(d.working, changes, Took(answers, SETTINGS_WRITE), Took(answers, NETWORK_WRITE));
      PatchWithin(d.working, changes, Took(before, SETTINGS_WRITE), Took(before, NETWORK_WRITE));
      hide Took;
    }
  }

  /** The three ways to end, each exactly when the answers say so; and then the
      module holds what that ending promises. */
  lemma ResultOfAttempt(d: Device, changes: Changes, answers: seq<Answer>)
    requires AllWritable(changes)
    ensures var (after, stage) := Attempt(d, changes, answers);
            var whole := Patch(d.working, changes);
            && (stage == Over(Finished) <==> Acked(answers, 6))
            && (stage == Over(NotApplied) <==> |answers| >= 6 && Acked(answers, 5) && !answers[5].Acknowledged?)
            && (stage == Over(Failed) <==> !Acked(answers, 5) && !Acked(answers, |answers|))
            && (stage == Over(Finished) ==> after == Device(whole, whole, whole))
            && (stage == Over(NotApplied) ==> after.working == after.stored == whole)
            && (stage.Store? ==> after.working == whole == stage.blocks)
            && (stage.Apply? ==> after.working == after.stored == whole)
            && (after.stored != d.stored ==> after.working == after.stored == whole)
  {
    AttemptAmounts(d, changes, answers);
    PatchWithin(d.working, changes, true, true);
    if Acked(answers, 4) {
      assert Arrived(changes, answers) == Within(changes, true, true);
    }
  }
}
