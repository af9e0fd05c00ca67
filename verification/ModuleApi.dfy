/**
 The write of one task while it holds the lock, as the program runs it: read
 both blocks, replace the changed fields word by word, write the blocks whole,
 then "store", then "apply".
 */
module ModuleApi {
  import opened Wrappers
  import opened Registers
  import opened ModuleWrites

  const STORE_COMMAND: nat := 0x03F2
  const APPLY_COMMAND: nat := 0x03F1

  /** A unit's requests and the device they reach, by its own register numbers;
      `line` decides the answer to the n-th of them. */
  class ModbusUnit {
    const line: nat -> Answer
    var sent: nat
    var device: Device

    constructor (line: nat -> Answer, device: Device)
      ensures this.line == line && this.device == device && sent == 0
    {
      this.line := line;
      this.device := device;
      sent := 0;
    }

    /** The answers to the `n` requests from the `from`-th on. */
    function Answers(from: nat, n: nat): (answers: seq<Answer>)
      ensures |answers| == n
    {
      seq(n, i requires 0 <= i < n => line(from + i))
    }

    method ReadHoldingRegisters(start: nat) returns (words: Option<seq<Word>>)
      requires start == 0x0000 || start == 0x0064
      modifies this`sent
      ensures sent == old(sent) + 1
      ensures words == if line(old(sent)).Acknowledged? then
                         Some(if start == 0x0064 then device.working.network else device.working.settings)
                       else None
    {
      var answer := line(sent);
      sent := sent + 1;
      if !answer.Acknowledged? {
        return None;
      }
      words := Some(if start == 0x0064 then device.working.network else device.working.settings);
    }

    method WriteRegisters(start: nat, words: seq<Word>) returns (ok: bool)
      requires start == 0x0000 || start == 0x0064
      requires |words| == if start == 0x0064 then 32 else 5
      modifies this`sent, this`device
      ensures sent == old(sent) + 1 && ok == line(old(sent)).Acknowledged?
      ensures device.stored == old(device.stored) && device.active == old(device.active)
      ensures !Taken(line(old(sent))) ==> device == old(device)
      ensures Taken(line(old(sent))) && start == 0x0000 ==>
                device.working == Blocks(words, old(device.working.network))
      ensures Taken(line(old(sent))) && start == 0x0064 ==>
                device.working == Blocks(old(device.working.settings), words)
    {
      var answer := line(sent);
      sent := sent + 1;
      if Taken(answer) {
        var working: Blocks :=
          if start == 0x0064 then Blocks(device.working.settings, words)
          else Blocks(words, device.working.network);
        device := device.(working := working);
      }
      ok := answer.Acknowledged?;
    }

    method WriteRegister(command: nat) returns (ok: bool)
      requires command == 0x03F2 || command == 0x03F1
      modifies this`sent, this`device
      ensures sent == old(sent) + 1 && ok == line(old(sent)).Acknowledged?
      ensures device.working == old(device.working)
      ensures device.stored == if Taken(line(old(sent))) && command == 0x03F2 then old(device.working) else old(device.stored)
      ensures device.active == if Taken(line(old(sent))) && command == 0x03F1 then old(device.working) else old(device.active)
    {
      var answer := line(sent);
      sent := sent + 1;
      if Taken(answer) {
        if command == 0x03F2 {
          device := device.(stored := device.working);
        } else {
          device := device.(active := device.working);
        }
      }
      ok := answer.Acknowledged?;
    }
  }

  /** Puts `words` in place of as many from `offset` on. */
  function Splice(block: seq<Word>, offset: nat, words: seq<Word>): (r: seq<Word>)
    requires offset + |words| <= |block|
    ensures |r| == |block|
    ensures forall i :: 0 <= i < |r| ==> r[i] == if offset <= i < offset + |words| then words[i - offset] else block[i]
  {
    block[..offset] + words + block[offset + |words|..]
  }

  /** Splicing one field into its block is the patch of that field alone. */
  lemma SpliceIsPatch(b: Blocks, k: Key, v: Value)
    requires Writable(k, v)
    ensures var start := BlockStart(FieldAddress(k));
            var offset := FieldAddress(k) - start;
            && offset + FieldCount(k) <= BlockWords(start)
            && Patch(b, map[k := v]) ==
               if start == NETWORK_ADDRESS then Blocks(b.settings, Splice(b.network, offset, Encode(k, v)))
               else Blocks(Splice(b.settings, offset, Encode(k, v)), b.network)
  {
    var start := BlockStart(FieldAddress(k));
    var offset := FieldAddress(k) - start;
    var one := map[k := v];
    var spliced: Blocks :=
      if start == NETWORK_ADDRESS then Blocks(b.settings, Splice(b.network, offset, Encode(k, v)))
      else Blocks(Splice(b.settings, offset, Encode(k, v)), b.network);
    forall a | InBlocks(a) ensures WordAt(Patch(b, one), a) == WordAt(spliced, a) {
      PatchAt(b, one, a);
      if Covers(k, a) {
        OwnerOfField(k, a);
      }
    }
    SameWords(Patch(b, one), spliced);
  }

  class WagoModule {
    const unit: ModbusUnit

    constructor (unit: ModbusUnit)
      ensures this.unit == unit
    {
      this.unit := unit;
    }

    /** Replaces the changed fields in the words just read. */
    method PatchBlocks(settings: SettingsBlock, network: seq<Word>, changes: Changes)
      returns (blocks: map<nat, seq<Word>>)
      requires |network| == NETWORK_WORDS && AllWritable(changes)
      ensures blocks.Keys == {SETTINGS_ADDRESS, NETWORK_ADDRESS}
      ensures |blocks[SETTINGS_ADDRESS]| == SETTINGS_WORDS && |blocks[NETWORK_ADDRESS]| == NETWORK_WORDS
      ensures Blocks(blocks[SETTINGS_ADDRESS], blocks[NETWORK_ADDRESS]) == Patch(Blocks(settings, network), changes)
    {
      blocks := map[SETTINGS_ADDRESS := settings, NETWORK_ADDRESS := network];
      ghost var before := Blocks(settings, network);
      ghost var done: Changes := map[];
      PatchNothing(before);
      var rest := changes.Keys;
      while rest != {}
        invariant rest <= changes.Keys && done == changes - rest
        invariant blocks.Keys == {SETTINGS_ADDRESS, NETWORK_ADDRESS}
        invariant |blocks[SETTINGS_ADDRESS]| == SETTINGS_WORDS && |blocks[NETWORK_ADDRESS]| == NETWORK_WORDS
        invariant AllWritable(done)
        invariant Blocks(blocks[SETTINGS_ADDRESS], blocks[NETWORK_ADDRESS]) == Patch(before, done)
        decreases rest
      {
        var key :| key in rest;
        var start := BlockStart(FieldAddress(key));
        var offset := FieldAddress(key) - start;
        ghost var one := map[key := changes[key]];
        SpliceIsPatch(Patch(before, done), key, changes[key]);
        PatchTwice(before, done, one);
        blocks := blocks[start := Splice(blocks[start], offset, Encode(key, changes[key]))];
        rest := rest - {key};
        assert done + one == changes - rest;
        done := done + one;
      }
      assert done == changes;
    }

    /** After `n` answers the attempt had a request left to send. */
    ghost predicate Underway(d: Device, changes: Changes, first: nat, n: nat)
      requires AllWritable(changes)
    {
      !Attempt(d, changes, unit.Answers(first, n)).1.Over?
    }

    /** Where the attempt that found the device as `d` stands: what it has done
        to the device and what it sends next, having sent nothing beyond its end. */
    ghost predicate Stands(d: Device, changes: Changes, first: nat, stage: Stage)
      requires AllWritable(changes)
      reads unit
    {
      && first <= unit.sent <= first + 6
      && (forall n: nat :: n < unit.sent - first ==> Underway(d, changes, first, n))
      && Attempt(d, changes, unit.Answers(first, unit.sent - first)) == (unit.device, stage)
    }

    lemma Heard(d: Device, changes: Changes, first: nat, n: nat)
      requires AllWritable(changes) && !Attempt(d, changes, unit.Answers(first, n)).1.Over?
      ensures var (device, stage) := Attempt(d, changes, unit.Answers(first, n));
              Attempt(d, changes, unit.Answers(first, n + 1)) == Step(device, stage, changes, unit.line(first + n))
    {
      assert unit.Answers(first, n + 1) == unit.Answers(first, n) + [unit.line(first + n)];
      AttemptMore(d, changes, unit.Answers(first, n), unit.line(first + n));
    }

    method AsyncWrite(changes: Changes) returns (result: Outcome)
      requires AllWritable(changes)
      modifies unit
      ensures Stands(old(unit.device), changes, old(unit.sent), Over(result))
    {
      ghost var d, first := unit.device, unit.sent;
      assert Stands(d, changes, first, ReadSettings);
      hide Attempt, Patch;
      var settings := unit.ReadHoldingRegisters(SETTINGS_ADDRESS);
      Heard(d, changes, first, 0);
      if settings == None {
        return Failed;
      }
      assert Stands(d, changes, first, ReadNetwork(settings.value));
      var network := unit.ReadHoldingRegisters(NETWORK_ADDRESS);
      Heard(d, changes, first, 1);
      if network == None {
        return Failed;
      }
      var words := PatchBlocks(settings.value, network.value, changes);
      result := WriteBlocks(changes, Blocks(words[SETTINGS_ADDRESS], words[NETWORK_ADDRESS]), d, first);
    }

    method WriteBlocks(changes: Changes, blocks: Blocks, ghost d: Device, ghost first: nat) returns (result: Outcome)
      requires AllWritable(changes)
      requires unit.sent == first + 2 && Stands(d, changes, first, WriteSettings(blocks))
      modifies unit
      ensures Stands(d, changes, first, Over(result))
    {
      hide Attempt, Patch;
      var ok := unit.WriteRegisters(SETTINGS_ADDRESS, blocks.settings);
      Heard(d, changes, first, 2);
      if !ok {
        return Failed;
      }
      assert Stands(d, changes, first, WriteNetwork(blocks));
      ok := unit.WriteRegisters(NETWORK_ADDRESS, blocks.network);
      Heard(d, changes, first, 3);
      if !ok {
        return Failed;
      }
      assert Stands(d, changes, first, Store(blocks));
      result := RunCommands(changes, blocks, d, first);
    }

    method RunCommands(changes: Changes, ghost blocks: Blocks, ghost d: Device, ghost first: nat) returns (result: Outcome)
      requires AllWritable(changes)
      requires unit.sent == first + 4 && Stands(d, changes, first, Store(blocks))
      modifies unit
      ensures Stands(d, changes, first, Over(result))
    {
      hide Attempt, Patch;
      var ok := unit.WriteRegister(STORE_COMMAND);
      Heard(d, changes, first, 4);
      if !ok {
        return Failed;
      }
      assert Stands(d, changes, first, Apply(blocks));
      ok := unit.WriteRegister(APPLY_COMMAND);
      Heard(d, changes, first, 5);
      result := if ok then Finished else NotApplied;
    }
  }
}
