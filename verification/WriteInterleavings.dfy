/**
 Any number of writes on one module at once.

 Each task waits for the module's lock, then sends its requests one by one;
 between two of them any other task may move. The order in which tasks got the
 lock is kept as a sequence of turns, and everything that happened is proved to
 be what those turns do one after the other.
 */
module WriteInterleavings {
  import opened Wrappers
  import opened Registers
  import opened ModuleWrites

  type TaskId = nat

  datatype Task =
    | Waiting(changes: Changes)
    | Running(changes: Changes, turn: nat, stage: Stage)
    | Ended(changes: Changes, turn: nat, result: Outcome)

  /** One holding of the lock: whose, what for, and the answers so far. */
  datatype Turn = Turn(id: TaskId, changes: Changes, answers: seq<Answer>)

  datatype State = State(device: Device, lock: Option<TaskId>, tasks: map<TaskId, Task>, turns: seq<Turn>)

  datatype Action =
    | Arrive(id: TaskId, changes: Changes)
    | Acquire(id: TaskId)
    | Answered(id: TaskId, answer: Answer)

  function Start(d: Device): State {
    State(d, None, map[], [])
  }

  predicate Enabled(s: State, a: Action) {
    match a
    case Arrive(id, changes) => id !in s.tasks && AllWritable(changes)
    case Acquire(id) => id in s.tasks && s.tasks[id].Waiting? && s.lock == None
    case Answered(id, _) =>
      && id in s.tasks && s.tasks[id].Running?
      && !s.tasks[id].stage.Over? && AllWritable(s.tasks[id].changes) && s.tasks[id].turn < |s.turns|
  }

  function Next(s: State, a: Action): State
    requires Enabled(s, a)
  {
    match a
    case Arrive(id, changes) => s.(tasks := s.tasks[id := Waiting(changes)])
    case Acquire(id) =>
      var changes := s.tasks[id].changes;
      s.(lock := Some(id),
         tasks := s.tasks[id := Running(changes, |s.turns|, ReadSettings)],
         turns := s.turns + [Turn(id, changes, [])])
    case Answered(id, answer) =>
      var task := s.tasks[id];
      var turn := s.turns[task.turn];
      var (device, stage) := Step(s.device, task.stage, task.changes, answer);
      var turns := s.turns[task.turn := turn.(answers := turn.answers + [answer])];
      if stage.Over? then
        State(device, None, s.tasks[id := Ended(task.changes, task.turn, stage.result)], turns)
      else
        State(device, s.lock, s.tasks[id := task.(stage := stage)], turns)
  }

  /** The state after a run of actions, if each was possible when it was taken. */
  function Run(d: Device, actions: seq<Action>): Option<State> {
    if actions == [] then Some(Start(d))
    else
      match Run(d, actions[..|actions| - 1])
      case None => None
      case Some(s) =>
        var a := actions[|actions| - 1];
        if Enabled(s, a) then Some(Next(s, a)) else None
  }

  // ------------------------------------------------ one turn after the other

  predicate TurnsWritable(turns: seq<Turn>) {
    forall i :: 0 <= i < |turns| ==> AllWritable(turns[i].changes)
  }

  /** The device once each turn had the module to itself, in order. */
  function Replay(d: Device, turns: seq<Turn>): Device
    requires TurnsWritable(turns)
  {
    if turns == [] then d
    else
      var last := turns[|turns| - 1];
      Attempt(Replay(d, turns[..|turns| - 1]), last.changes, last.answers).0
  }

  ghost predicate TurnStage(d: Device, turns: seq<Turn>, i: nat, stage: Stage)
    requires TurnsWritable(turns) && i < |turns|
  {
    Attempt(Replay(d, turns[..i]), turns[i].changes, turns[i].answers).1 == stage
  }

  /** The task is the one its turn names, with the turn's changes. */
  predicate Owns(s: State, id: TaskId, i: nat)
    requires id in s.tasks
  {
    i < |s.turns| && s.turns[i].id == id && s.turns[i].changes == s.tasks[id].changes
  }

  /** What one task and its turn agree on. */
  ghost predicate TaskFits(d: Device, s: State, id: TaskId)
    requires id in s.tasks && TurnsWritable(s.turns)
  {
    match s.tasks[id]
    case Waiting(changes) =>
      AllWritable(changes) && forall i :: 0 <= i < |s.turns| ==> s.turns[i].id != id
    case Running(changes, turn, stage) =>
      && s.lock == Some(id) && turn == |s.turns| - 1 && Owns(s, id, turn)
      && !stage.Over? && TurnStage(d, s.turns, turn, stage)
    case Ended(changes, turn, result) =>
      Owns(s, id, turn) && TurnStage(d, s.turns, turn, Over(result))
  }

  predicate TurnFits(s: State, i: nat)
    requires i < |s.turns|
  {
    var id := s.turns[i].id;
    id in s.tasks && !s.tasks[id].Waiting? && s.tasks[id].turn == i
  }

  ghost predicate Invariant(d: Device, s: State) {
    && TurnsWritable(s.turns)
    && s.device == Replay(d, s.turns)
    && (forall id :: id in s.tasks ==> TaskFits(d, s, id))
    && (forall i: nat :: i < |s.turns| ==> TurnFits(s, i))
    && (s.lock.Some? ==> s.lock.value in s.tasks && s.tasks[s.lock.value].Running?)
  }

  lemma EarlierTurns(d: Device, before: seq<Turn>, after: seq<Turn>, i: nat, stage: Stage)
    requires TurnsWritable(before) && TurnsWritable(after)
    requires i < |before| && i < |after| && before[..i + 1] == after[..i + 1]
    ensures TurnStage(d, before, i, stage) == TurnStage(d, after, i, stage)
  {
    assert before[..i] == before[..i + 1][..i] == after[..i + 1][..i] == after[..i];
    assert before[i] == before[..i + 1][i] == after[..i + 1][i] == after[i];
  }

  lemma AcquireKeeps(d: Device, s: State, a: Action)
    requires Invariant(d, s) && Enabled(s, a) && a.Acquire?
    ensures Invariant(d, Next(s, a))
  {
    var t := Next(s, a);
    var n := |s.turns|;
    assert t.turns[..n] == s.turns;
    assert TaskFits(d, s, a.id);
    forall id | id in t.tasks ensures TaskFits(d, t, id) {
      if id != a.id {
        assert TaskFits(d, s, id);
        if s.tasks[id].Ended? {
          var i := s.tasks[id].turn;
          assert t.turns[..i + 1] == s.turns[..i + 1];
          EarlierTurns(d, s.turns, t.turns, i, Over(s.tasks[id].result));
        }
      }
    }
    forall i: nat | i < |t.turns| ensures TurnFits(t, i) {
      if i < n {
        assert TurnFits(s, i);
      }
    }
  }

  /** The answer takes the holder's own turn on, and the device with it. */
  lemma AnsweredTurn(d: Device, s: State, a: Action)
    requires Invariant(d, s) && Enabled(s, a) && a.Answered?
    ensures var t := Next(s, a);
            var n := |s.turns| - 1;
            && n >= 0 && s.tasks[a.id].turn == n && Owns(s, a.id, n)
            && TurnsWritable(t.turns) && t.device == Replay(d, t.turns)
            && TurnStage(d, t.turns, n, Step(s.device, s.tasks[a.id].stage, s.tasks[a.id].changes, a.answer).1)
  {
    assert TaskFits(d, s, a.id);
    var t := Next(s, a);
    var n := |s.turns| - 1;
    assert t.turns[..n] == s.turns[..n];
    hide Step, Attempt;
    AttemptMore(Replay(d, s.turns[..n]), s.turns[n].changes, s.turns[n].answers, a.answer);
  }

  /** No other task is touched by it. */
  lemma AnsweredOther(d: Device, s: State, a: Action, id: TaskId)
    requires Invariant(d, s) && Enabled(s, a) && a.Answered? && id in s.tasks && id != a.id
    requires TurnsWritable(Next(s, a).turns) && s.tasks[a.id].turn == |s.turns| - 1 && Owns(s, a.id, |s.turns| - 1)
    ensures TaskFits(d, Next(s, a), id)
  {
    hide Step, Replay, Attempt;
    var t := Next(s, a);
    assert TaskFits(d, s, id);
    if s.tasks[id].Ended? {
      var i := s.tasks[id].turn;
      assert TurnFits(s, |s.turns| - 1);
      assert t.turns[..i + 1] == s.turns[..i + 1];
      EarlierTurns(d, s.turns, t.turns, i, Over(s.tasks[id].result));
    }
  }

  /** What becomes of the holder's task and turn, and of nothing else. */
  lemma AnsweredTask(s: State, a: Action)
    requires Enabled(s, a) && a.Answered?
    ensures var t := Next(s, a);
            var task := s.tasks[a.id];
            var stage := Step(s.device, task.stage, task.changes, a.answer).1;
            && t.tasks == s.tasks[a.id := if stage.Over? then Ended(task.changes, task.turn, stage.result) else task.(stage := stage)]
            && t.lock == (if stage.Over? then None else s.lock)
            && |t.turns| == |s.turns|
            && t.turns[task.turn].id == s.turns[task.turn].id && t.turns[task.turn].changes == s.turns[task.turn].changes
  {
    hide Step;
  }

  lemma AnsweredOwn(d: Device, s: State, a: Action)
    requires Invariant(d, s) && Enabled(s, a) && a.Answered?
    ensures TurnsWritable(Next(s, a).turns) && a.id in Next(s, a).tasks && TaskFits(d, Next(s, a), a.id)
  {
    AnsweredTurn(d, s, a);
    AnsweredTask(s, a);
    assert TaskFits(d, s, a.id);
    OwnFits(d, s, Next(s, a), a.id, Step(s.device, s.tasks[a.id].stage, s.tasks[a.id].changes, a.answer).1);
  }

  lemma OwnFits(d: Device, s: State, t: State, id: TaskId, stage: Stage)
    requires id in s.tasks && s.tasks[id].Running? && s.lock == Some(id) && Owns(s, id, s.tasks[id].turn)
    requires |t.turns| == |s.turns| && TurnsWritable(t.turns) && s.tasks[id].turn == |s.turns| - 1
    requires t.turns[s.tasks[id].turn].id == id && t.turns[s.tasks[id].turn].changes == s.tasks[id].changes
    requires t.lock == (if stage.Over? then None else s.lock)
    requires var task := s.tasks[id];
             t.tasks == s.tasks[id := if stage.Over? then Ended(task.changes, task.turn, stage.result) else task.(stage := stage)]
    requires TurnStage(d, t.turns, s.tasks[id].turn, stage)
    ensures TaskFits(d, t, id)
  {
    hide TurnStage, TurnsWritable;
    if stage.Over? {
      assert stage == Over(stage.result);
    }
  }

  lemma AnsweredTurnsFit(d: Device, s: State, a: Action)
    requires Invariant(d, s) && Enabled(s, a) && a.Answered?
    ensures var t := Next(s, a);
            && t.tasks.Keys == s.tasks.Keys
            && (forall i: nat :: i < |t.turns| ==> TurnFits(t, i))
            && (t.lock.Some? ==> t.lock.value in t.tasks && t.tasks[t.lock.value].Running?)
  {
    AnsweredTask(s, a);
    SameTurnIds(s, a);
    hide Step, Replay, Attempt, TurnStage, Next;
    var t := Next(s, a);
    assert TaskFits(d, s, a.id);
    forall i: nat | i < |t.turns| ensures TurnFits(t, i) {
      assert TurnFits(s, i);
    }
  }

  lemma SameTurnIds(s: State, a: Action)
    requires Enabled(s, a) && a.Answered?
    ensures |Next(s, a).turns| == |s.turns|
    ensures forall i: nat :: i < |s.turns| ==> Next(s, a).turns[i].id == s.turns[i].id
  {
    hide Step;
  }

  lemma AnsweredKeeps(d: Device, s: State, a: Action)
    requires Invariant(d, s) && Enabled(s, a) && a.Answered?
    ensures Invariant(d, Next(s, a))
  {
    AnsweredTurn(d, s, a);
    AnsweredOwn(d, s, a);
    AnsweredTurnsFit(d, s, a);
    var t := Next(s, a);
    hide Step, Replay, Attempt, Next, TaskFits, TurnFits;
    forall id | id in t.tasks ensures TaskFits(d, t, id) {
      if id != a.id {
        AnsweredOther(d, s, a, id);
      }
    }
  }

  lemma ArriveKeeps(d: Device, s: State, a: Action)
    requires Invariant(d, s) && Enabled(s, a) && a.Arrive?
    ensures Invariant(d, Next(s, a))
  {
    var t := Next(s, a);
    forall i: nat | i < |t.turns| ensures TurnFits(t, i) {
      assert TurnFits(s, i);
    }
    forall id | id in t.tasks ensures TaskFits(d, t, id) {
      if id != a.id {
        assert TaskFits(d, s, id);
      } else {
        forall i | 0 <= i < |s.turns| ensures s.turns[i].id != id {
          assert TurnFits(s, i);
        }
      }
    }
  }

  /** In every reachable state the device is what the turns do one after the
      other, each task stands where its own turn alone would have brought it,
      and only the holder of the lock is under way. */
  lemma {:induction false} RunsAreSerial(d: Device, actions: seq<Action>)
    requires Run(d, actions).Some?
    ensures Invariant(d, Run(d, actions).value)
  {
    if actions != [] {
      var before := actions[..|actions| - 1];
      RunsAreSerial(d, before);
      var s, a := Run(d, before).value, actions[|actions| - 1];
      match a {
        case Arrive(_, _) => ArriveKeeps(d, s, a);
        case Acquire(_) => AcquireKeeps(d, s, a);
        case Answered(_, _) => AnsweredKeeps(d, s, a);
      }
    }
  }

  /** A task that holds the lock can always take its next answer: what `Enabled`
      asks of it beyond being under way holds in every reachable state. */
  lemma RunningIsEnabled(d: Device, actions: seq<Action>, id: TaskId, answer: Answer)
    requires Run(d, actions).Some?
    ensures var s := Run(d, actions).value;
            Enabled(s, Answered(id, answer)) <==> s.lock == Some(id)
  {
    RunsAreSerial(d, actions);
    var s := Run(d, actions).value;
    if s.lock == Some(id) || (id in s.tasks && s.tasks[id].Running?) {
      assert TaskFits(d, s, id);
    }
  }

  // ----------------------------------------------------------- consequences

  /** The changes that reached the registers, a later turn's over an earlier's. */
  function Net(turns: seq<Turn>): Changes {
    if turns == [] then map[]
    else
      var last := turns[|turns| - 1];
      Net(turns[..|turns| - 1]) + Arrived(last.changes, last.answers)
  }

  lemma {:induction false} ReplayPatches(d: Device, turns: seq<Turn>)
    requires TurnsWritable(turns)
    ensures AllWritable(Net(turns))
    ensures Replay(d, turns).working == Patch(d.working, Net(turns))
  {
    if turns == [] {
      PatchNothing(d.working);
    } else {
      var before, last := turns[..|turns| - 1], turns[|turns| - 1];
      ReplayPatches(d, before);
      AttemptAmounts(Replay(d, before), last.changes, last.answers);
      PatchTwice(d.working, Net(before), Arrived(last.changes, last.answers));
    }
  }

  /** At every moment of every run the working registers are the first ones
      patched, in lock order, by what reached them. */
  lemma WorkingIsPatchedInTurn(d: Device, actions: seq<Action>)
    requires Run(d, actions).Some?
    ensures var s := Run(d, actions).value;
            AllWritable(Net(s.turns)) && s.device.working == Patch(d.working, Net(s.turns))
  {
    RunsAreSerial(d, actions);
    ReplayPatches(d, Run(d, actions).value.turns);
  }

  /** "Store" is only sent by the lock's holder, after the module acknowledged
      both of its blocks and while it holds exactly those; "apply" only after it
      acknowledged "store" too. */
  lemma StoreFollowsBothBlocks(d: Device, actions: seq<Action>, id: TaskId)
    requires Run(d, actions).Some?
    requires id in Run(d, actions).value.tasks && Run(d, actions).value.tasks[id].Running?
    ensures var s := Run(d, actions).value;
            var task := s.tasks[id];
            && s.lock == Some(id) && task.turn == |s.turns| - 1
            && var answers := s.turns[task.turn].answers;
            && (task.stage.Store? <==> |answers| == 4 && Acked(answers, 4))
            && (task.stage.Apply? <==> |answers| == 5 && Acked(answers, 5))
            && (task.stage.Store? ==> s.device.working == task.stage.blocks)
            && (task.stage.Apply? ==> s.device.working == s.device.stored == task.stage.blocks)
  {
    RunsAreSerial(d, actions);
    var s := Run(d, actions).value;
    assert TaskFits(d, s, id);
    var n := |s.turns| - 1;
    AttemptAmounts(Replay(d, s.turns[..n]), s.turns[n].changes, s.turns[n].answers);
    ResultOfAttempt(Replay(d, s.turns[..n]), s.turns[n].changes, s.turns[n].answers);
  }

  /** What a task is told is what its own requests were answered: "not applied"
      exactly for a store acknowledged and an apply not, and then, as for a
      finished one, the module had stored its turn's registers with all of its
      changes. */
  lemma EndedTasks(d: Device, actions: seq<Action>, id: TaskId)
    requires Run(d, actions).Some?
    requires id in Run(d, actions).value.tasks && Run(d, actions).value.tasks[id].Ended?
    ensures var s := Run(d, actions).value;
            var Ended(changes, turn, result) := s.tasks[id];
            && turn < |s.turns| && TurnsWritable(s.turns) && s.turns[turn].changes == changes
            && var answers := s.turns[turn].answers;
            && (result == Finished <==> Acked(answers, 6))
            && (result == NotApplied <==> |answers| >= 6 && Acked(answers, 5) && !answers[5].Acknowledged?)
            && var found, left := Replay(d, s.turns[..turn]), Replay(d, s.turns[..turn + 1]);
            (result != Failed ==> left.stored == left.working == Patch(found.working, changes))
  {
    RunsAreSerial(d, actions);
    var s := Run(d, actions).value;
    assert TaskFits(d, s, id);
    var i := s.tasks[id].turn;
    assert s.turns[..i + 1][..i] == s.turns[..i];
    ResultOfAttempt(Replay(d, s.turns[..i]), s.turns[i].changes, s.turns[i].answers);
  }

  /** The last turn whose changes name the key. */
  ghost predicate LastToChange(turns: seq<Turn>, i: nat, k: Key) {
    i < |turns| && k in turns[i].changes && forall j :: i < j < |turns| ==> k !in turns[j].changes
  }

  predicate AllAnswered(turns: seq<Turn>) {
    forall i :: 0 <= i < |turns| ==> Acked(turns[i].answers, 6)
  }

  lemma AnsweredArrives(turn: Turn)
    requires Acked(turn.answers, 6)
    ensures Arrived(turn.changes, turn.answers) == turn.changes
  {
  }

  lemma NetMore(turns: seq<Turn>)
    requires turns != [] && Acked(turns[|turns| - 1].answers, 6)
    ensures Net(turns) == Net(turns[..|turns| - 1]) + turns[|turns| - 1].changes
  {
    AnsweredArrives(turns[|turns| - 1]);
  }

  lemma LastBefore(turns: seq<Turn>, i: nat, k: Key)
    requires LastToChange(turns, i, k) && i < |turns| - 1
    ensures k !in turns[|turns| - 1].changes && LastToChange(turns[..|turns| - 1], i, k)
    ensures turns[..|turns| - 1][i] == turns[i]
  {
  }

  /** With every answer there, a key's net change is that of the last turn to name it. */
  lemma {:induction false} NetOfAnswered(turns: seq<Turn>, k: Key)
    requires AllAnswered(turns)
    ensures forall i: nat :: LastToChange(turns, i, k) ==> k in Net(turns) && Net(turns)[k] == turns[i].changes[k]
    ensures (forall i :: 0 <= i < |turns| ==> k !in turns[i].changes) ==> k !in Net(turns)
  {
    if turns == [] {
    } else {
      var n := |turns| - 1;
      assert AllAnswered(turns[..n]);
      NetOfAnswered(turns[..n], k);
      NetMore(turns);
      hide Net, Acked, AllAnswered;
      forall i: nat | LastToChange(turns, i, k)
        ensures k in Net(turns) && Net(turns)[k] == turns[i].changes[k]
      {
        if i < n {
          LastBefore(turns, i, k);
        }
      }
      assert forall i :: 0 <= i < n ==> turns[..n][i] == turns[i];
    }
  }

  /** When every answer came, no change is lost: the module holds, has stored
      and uses for every field what the last task to change it wrote, and its
      first value where none did. */
  lemma NothingIsLost(d: Device, actions: seq<Action>, k: Key)
    requires Run(d, actions).Some?
    requires AllAnswered(Run(d, actions).value.turns)
    ensures var s := Run(d, actions).value;
            && (s.turns != [] ==> s.device.working == s.device.stored == s.device.active)
            && (forall i: nat :: LastToChange(s.turns, i, k) ==>
                  ReadValue(s.device.working, k) == s.turns[i].changes[k])
            && ((forall i :: 0 <= i < |s.turns| ==> k !in s.turns[i].changes) ==>
                  ReadValue(s.device.working, k) == ReadValue(d.working, k))
  {
    RunsAreSerial(d, actions);
    var s := Run(d, actions).value;
    assert TurnsWritable(s.turns) && s.device == Replay(d, s.turns);
    hide Run, Invariant, Replay, TurnsWritable, ReadValue;
    ReplayPatches(d, s.turns);
    NetOfAnswered(s.turns, k);
    ReadPatched(d.working, Net(s.turns), k);
    if s.turns != [] {
      AllCopiesAgree(d, s.turns);
    }
  }

  lemma AllCopiesAgree(d: Device, turns: seq<Turn>)
    requires TurnsWritable(turns) && AllAnswered(turns) && turns != []
    ensures var after := Replay(d, turns);
            after.working == after.stored == after.active
  {
    var n := |turns| - 1;
    assert Acked(turns[n].answers, 6);
    ResultOfAttempt(Replay(d, turns[..n]), turns[n].changes, turns[n].answers);
  }

  /** What turn `i` stored: the initial blocks patched by what had reached them
      in the turns before, the halves of failed ones included, and by all of its
      own changes. */
  ghost predicate StoredBy(d: Device, turns: seq<Turn>, i: nat, b: Blocks)
    requires TurnsWritable(turns) && i < |turns|
  {
    ReplayPatches(d, turns[..i]);
    PatchTwice(d.working, Net(turns[..i]), turns[i].changes);
    Took(turns[i].answers, STORE) && b == Patch(d.working, Net(turns[..i]) + turns[i].changes)
  }

  lemma TurnStores(d: Device, turns: seq<Turn>, i: nat)
    requires TurnsWritable(turns) && i < |turns| && Took(turns[i].answers, STORE)
    ensures StoredBy(d, turns, i, Patch(Replay(d, turns[..i]).working, turns[i].changes))
  {
    ReplayPatches(d, turns[..i]);
    PatchTwice(d.working, Net(turns[..i]), turns[i].changes);
  }

  lemma {:induction false} ReplayStores(d: Device, turns: seq<Turn>)
    requires TurnsWritable(turns)
    ensures Replay(d, turns).stored == d.stored || exists i: nat :: i < |turns| && StoredBy(d, turns, i, Replay(d, turns).stored)
  {
    if turns != [] {
      var n := |turns| - 1;
      var before := turns[..n];
      ReplayStores(d, before);
      AttemptAmounts(Replay(d, before), turns[n].changes, turns[n].answers);
      var b := Replay(d, turns).stored;
      if Took(turns[n].answers, STORE) {
        TurnStores(d, turns, n);
      } else if b != d.stored {
        var i: nat :| i < n && StoredBy(d, before, i, b);
        assert before[..i] == turns[..i];
        assert StoredBy(d, turns, i, b);
      }
    }
  }

  /** Whatever fails, "store" never keeps a part of the turn that sends it: what
      is stored is what it was, or one turn's changes, all of them, over what the
      turns before it had left in the registers. */
  lemma StoredByOneTurn(d: Device, actions: seq<Action>)
    requires Run(d, actions).Some?
    ensures var s := Run(d, actions).value;
            && TurnsWritable(s.turns)
            && (s.device.stored == d.stored
                || exists i: nat :: i < |s.turns| && StoredBy(d, s.turns, i, s.device.stored))
  {
    RunsAreSerial(d, actions);
    ReplayStores(d, Run(d, actions).value.turns);
  }
}
