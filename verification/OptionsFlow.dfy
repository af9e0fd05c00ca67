/**
 The module's page: what it writes, what a failed save leaves behind, and what
 the first save that goes through makes of it.
 */
module OptionsFlow {
  import opened Wrappers
  import opened Ipv4
  import opened Registers
  import opened ModuleWrites
  import opened ModuleSettings
  import opened Entries
  import opened ModuleApi

  /** What the page was opened with, and whether an earlier save of it failed. */
  datatype Page = Page(shown: Changes, writeFailed: bool)

  /** How one save ends for the page. */
  datatype SaveEnd = Refused(error: FormError) | Unchanged | Written(result: Outcome)

  /** What the user sees next: the form again, with an error, or an end. */
  datatype Reply = FormAgain | PageFinished | AbortedNotApplied | AbortedEntryChanged

  /** The fields that differ from what is shown; all eleven on a retry. */
  function ToWrite(page: Page, settings: Changes): (changes: Changes)
    requires IsReading(page.shown) && IsReading(settings)
    ensures AllWritable(changes)
  {
    if page.writeFailed then settings
    else map k | k in settings && page.shown[k] != settings[k] :: settings[k]
  }

  /** What is sent for settings the checks let pass, and what becomes of it. */
  function Send(page: Page, d: Device, settings: Changes, answers: seq<Answer>): (r: (Page, Device, SaveEnd))
    requires IsReading(page.shown) && IsReading(settings)
    ensures r.0.shown == page.shown
    ensures r.0.writeFailed <==> page.writeFailed || r.2 == Written(Failed)
  {
    var changes := ToWrite(page, settings);
    if changes == map[] then (page, d, Unchanged)
    else
      match Attempt(d, changes, answers)
      case (after, Over(Finished)) => (page, after, Written(Finished))
      case (after, Over(NotApplied)) => (page, after, Written(NotApplied))
      case (after, _) => (page.(writeFailed := true), after, Written(Failed))
  }

  /** A save that sends anything, in terms of its attempt. */
  lemma SendIsAttempt(page: Page, d: Device, settings: Changes, answers: seq<Answer>)
    requires IsReading(page.shown) && IsReading(settings) && ToWrite(page, settings) != map[]
    ensures var (after, stage) := Attempt(d, ToWrite(page, settings), answers);
            var stored := stage == Over(Finished) || stage == Over(NotApplied);
            Send(page, d, settings, answers) ==
            (if stored then page else page.(writeFailed := true), after, Written(if stored then stage.result else Failed))
  {
    hide ToWrite, Attempt;
  }

  lemma SendNothing(page: Page, d: Device, settings: Changes, answers: seq<Answer>)
    requires IsReading(page.shown) && IsReading(settings) && ToWrite(page, settings) == map[]
    ensures Send(page, d, settings, answers) == (page, d, Unchanged)
  {
  }

  lemma SubmittedIsReading(form: Form, shown: Changes)
    requires IsReading(shown) && Submitted(form, shown).Ok?
    ensures IsReading(Submitted(form, shown).value)
    ensures IsTyped(shown) && IsTyped(Submitted(form, shown).value)
    ensures Refusal(Submitted(form, shown).value, shown) == None
  {
    ReadingIsTyped(shown);
    AcceptedIsWritable(Submitted(form, shown).value, shown);
  }

  // --------------------------------------------------- as the program does it

  class WagoOptionsFlow {
    const moduleApi: WagoModule
    const entries: ConfigEntries
    const entryId: EntryId
    const moduleValues: Changes
    var writeFailed: bool

    /** The page as it opens, on what a read of the module reported. */
    constructor (moduleApi: WagoModule, entries: ConfigEntries, entryId: EntryId, values: Changes)
      ensures this.moduleApi == moduleApi && this.entries == entries && this.entryId == entryId
      ensures moduleValues == values && !writeFailed
    {
      this.moduleApi := moduleApi;
      this.entries := entries;
      this.entryId := entryId;
      moduleValues := values;
      writeFailed := false;
    }

    function AsPage(): Page
      reads this
    {
      Page(moduleValues, writeFailed)
    }

    /** Others run while the module is written: users, the search, other pages. */
    method Meanwhile() returns (ghost found: map<EntryId, Entry>, ghost reloads: seq<EntryId>)
      modifies entries
      ensures found == entries.entries && reloads == entries.reloads
    {
      found, reloads := entries.entries, entries.reloads;
    }

    /** What becomes of the page and the module. */
    twostate predicate Sent(settings: Changes, end: SaveEnd)
      requires IsReading(moduleValues) && IsReading(settings)
      reads this, moduleApi.unit
    {
      && old(moduleApi.unit.sent) <= moduleApi.unit.sent <= old(moduleApi.unit.sent) + (if end == Unchanged then 0 else 6)
      && var answers := moduleApi.unit.Answers(old(moduleApi.unit.sent), moduleApi.unit.sent - old(moduleApi.unit.sent));
      Send(old(AsPage()), old(moduleApi.unit.device), settings, answers) == (AsPage(), moduleApi.unit.device, end)
    }

    /** What becomes of the entries the save met when the module had answered:
        it asks for one reload if its entry is still there, and moves the entry
        if it follows the module and is still what the page had seen. */
    ghost predicate EntryFollows(seen: Data, settings: Changes, found: map<EntryId, Entry>, asked: seq<EntryId>)
      requires IsTyped(moduleValues) && IsTyped(settings)
      reads entries
    {
      && entries.reloads == asked + (if entryId in found then [entryId] else [])
      && entries.entries.Keys == found.Keys
      && (forall other :: other in found && other != entryId ==> entries.entries[other] == found[other])
      && (entryId in found ==> EntryFollowed(found[entryId], seen, moduleValues, settings, entries.entries[entryId]))
    }

    /** The page asks again exactly when nothing was stored for certain, and says
        that it finished only if the module has the settings and the entry is
        still there. */
    ghost predicate Replies(end: SaveEnd, reply: Reply, found: map<EntryId, Entry>) {
      && (reply == FormAgain <==> end.Refused? || end == Written(Failed))
      && (reply == AbortedNotApplied <==> end == Written(NotApplied))
      && (reply == AbortedEntryChanged <==> end == Written(Finished) && entryId !in found)
    }

    method ChangesToWrite(settings: Changes) returns (changes: Changes)
      requires IsReading(moduleValues) && IsReading(settings)
      ensures changes == ToWrite(AsPage(), settings)
    {
      changes := map k | k in settings && moduleValues[k] != settings[k] :: settings[k];
      if writeFailed {
        changes := settings;
      }
    }

    /** The changes the page sends, and what comes of sending them. */
    method SendChanges(settings: Changes) returns (end: SaveEnd)
      requires IsReading(moduleValues) && IsReading(settings) && moduleApi.unit as object != this
      modifies this`writeFailed, moduleApi.unit
      ensures Sent(settings, end)
    {
      hide ToWrite, Attempt, Send, IsReading, WagoModule.Underway;
      ghost var page, d, first := AsPage(), moduleApi.unit.device, moduleApi.unit.sent;
      var changes := ChangesToWrite(settings);
      if changes == map[] {
        SendNothing(page, d, settings, moduleApi.unit.Answers(first, 0));
        return Unchanged;
      }
      var result := moduleApi.AsyncWrite(changes);
      SendIsAttempt(page, d, settings, moduleApi.unit.Answers(first, moduleApi.unit.sent - first));
      if result == Failed {
        writeFailed := true;
      }
      end := Written(result);
    }

    method AsyncWrite(settings: Changes)
      returns (end: SaveEnd, reply: Reply, ghost found: map<EntryId, Entry>, ghost asked: seq<EntryId>)
      requires IsReading(moduleValues) && IsTyped(moduleValues) && IsReading(settings) && IsTyped(settings)
      requires entryId in entries.entries && moduleApi.unit as object !in {this, entries as object}
      modifies this`writeFailed, moduleApi.unit, entries
      ensures Sent(settings, end) && Replies(end, reply, found)
      ensures if end == Written(Finished) || end == Written(NotApplied)
              then EntryFollows(old(entries.entries[entryId]).data, settings, found, asked)
              else entries.entries == found && entries.reloads == asked
    {
      var seen := entries.entries[entryId].data;
      end := SendChanges(settings);
      hide Send;
      if end == Unchanged {
        return end, PageFinished, entries.entries, entries.reloads;
      }
      found, asked := Meanwhile();
      if end == Written(Failed) {
        return end, FormAgain, found, asked;
      }
      if end == Written(NotApplied) {
        entries.FollowModule(entryId, seen, moduleValues, settings);
        return end, AbortedNotApplied, found, asked;
      }
      if entryId !in entries.entries {
        return end, AbortedEntryChanged, found, asked;
      }
      entries.FollowModule(entryId, seen, moduleValues, settings);
      reply := PageFinished;
    }

    /** One save of the page; `found` and `asked` are the entries and the reloads
        asked for when the module had answered. */
    method StepModule(form: Form)
      returns (end: SaveEnd, reply: Reply, ghost found: map<EntryId, Entry>, ghost asked: seq<EntryId>)
      requires IsReading(moduleValues)
      requires entryId in entries.entries && moduleApi.unit as object !in {this, entries as object}
      modifies this`writeFailed, moduleApi.unit, entries
      ensures var submitted := Submitted(form, moduleValues);
              match submitted
              case Err(error) =>
                end == Refused(error) && reply == FormAgain && unchanged(this) && unchanged(moduleApi.unit) && unchanged(entries)
              case Ok(settings) =>
                && IsReading(settings) && IsTyped(settings) && IsTyped(moduleValues)
                && Sent(settings, end) && Replies(end, reply, found)
                && if end == Written(Finished) || end == Written(NotApplied)
                   then EntryFollows(old(entries.entries[entryId]).data, settings, found, asked)
                   else entries.entries == found && entries.reloads == asked
    {
      found, asked := entries.entries, entries.reloads;
      var submitted := Settings(form, moduleValues);
      if submitted.Err? {
        return Refused(submitted.error), FormAgain, found, asked;
      }
      SubmittedIsReading(form, moduleValues);
      hide *;
      end, reply, found, asked := AsyncWrite(submitted.value);
    }
  }

  // ----------------------------------------------------------- single saves

  lemma DifferencesAreTheRest(shown: Changes, settings: Changes)
    requires IsReading(shown) && IsReading(settings)
    ensures shown + ToWrite(Page(shown, false), settings) == settings
    ensures shown + ToWrite(Page(shown, true), settings) == settings
    ensures ToWrite(Page(shown, false), settings) == map[] <==> settings == shown
    ensures ToWrite(Page(shown, true), settings) != map[]
  {
    forall k: Key ensures k in shown && k in settings {
      assert k in ALL_KEYS;
    }
    assert Timeout in settings;
    assert settings != shown ==> exists k :: k in settings && shown[k] != settings[k];
  }

  /** A page writes nothing exactly when it is sent back as shown and no earlier
      save of it failed; and then the device is left alone. */
  lemma WritesNothingExactly(page: Page, d: Device, settings: Changes, answers: seq<Answer>)
    requires IsReading(page.shown) && IsReading(settings)
    ensures Send(page, d, settings, answers).2 == Unchanged <==> settings == page.shown && !page.writeFailed
    ensures Send(page, d, settings, answers).2 == Unchanged ==> Send(page, d, settings, answers).1 == d
  {
    DifferencesAreTheRest(page.shown, settings);
    if ToWrite(page, settings) != map[] {
      hide Send, Attempt, ToWrite;
      SendIsAttempt(page, d, settings, answers);
    }
  }

  /** A page with no failed save behind it leaves every field the user left as
      shown exactly as the module held it when the write got the lock, whatever
      the page had shown; so does a write that only got halfway. */
  lemma UntouchedFieldsStay(page: Page, d: Device, settings: Changes, answers: seq<Answer>, k: Key)
    requires IsReading(page.shown) && IsReading(settings) && !page.writeFailed
    requires k in settings && k in page.shown && settings[k] == page.shown[k]
    ensures FieldWords(Send(page, d, settings, answers).1.working, k) == FieldWords(d.working, k)
  {
    var changes := ToWrite(page, settings);
    if changes != map[] {
      AttemptAmounts(d, changes, answers);
      PatchField(d.working, Arrived(changes, answers), k);
    }
  }

  /** The request that carries a field to the registers. */
  function WriteOf(k: Key): nat {
    if k == Timeout then SETTINGS_WRITE else NETWORK_WRITE
  }

  /** After a failed save that is no longer so, whatever becomes of the retry: a
      field left as shown keeps what the module held exactly if that is what the
      page shows or its block's write had no effect. What is stored for it becomes
      what the page shows exactly as "store" takes effect, answered or not. */
  lemma RetryKeepsExactly(page: Page, d: Device, settings: Changes, answers: seq<Answer>, k: Key)
    requires IsReading(page.shown) && IsReading(settings) && page.writeFailed
    requires k in settings && k in page.shown && settings[k] == page.shown[k]
    ensures var after := Send(page, d, settings, answers).1;
            && ReadValue(after.working, k) == (if Took(answers, WriteOf(k)) then page.shown[k] else ReadValue(d.working, k))
            && (ReadValue(after.working, k) == ReadValue(d.working, k) <==>
                  page.shown[k] == ReadValue(d.working, k) || !Took(answers, WriteOf(k)))
            && ReadValue(after.stored, k) == (if Took(answers, STORE) then page.shown[k] else ReadValue(d.stored, k))
  {
    hide *;
    RetryLeaves(page, d, settings, answers);
    FieldArrives(settings, answers, k);
    ReadPatched(d.working, Arrived(settings, answers), k);
    ReadPatched(d.working, settings, k);
  }

  lemma RetryLeaves(page: Page, d: Device, settings: Changes, answers: seq<Answer>)
    requires IsReading(page.shown) && IsReading(settings) && page.writeFailed
    ensures AllWritable(settings) && AllWritable(Arrived(settings, answers))
    ensures var after := Send(page, d, settings, answers).1;
            && after.working == Patch(d.working, Arrived(settings, answers))
            && after.stored == if Took(answers, STORE) then Patch(d.working, settings) else d.stored
  {
    hide Patch, Took, Step;
    assert Timeout in ALL_KEYS && Timeout in settings;
    AttemptAmounts(d, settings, answers);
  }

  lemma FieldArrives(changes: Changes, answers: seq<Answer>, k: Key)
    requires k in changes
    ensures k in Arrived(changes, answers) <==> Took(answers, WriteOf(k))
    ensures k in Arrived(changes, answers) ==> Arrived(changes, answers)[k] == changes[k]
  {
    hide Took;
  }

  const ALL_ACKNOWLEDGED: seq<Answer> := [Acknowledged, Acknowledged, Acknowledged, Acknowledged, Acknowledged, Acknowledged]

  lemma AcknowledgedSave(page: Page, d: Device, settings: Changes)
    requires IsReading(page.shown) && IsReading(settings) && ToWrite(page, settings) != map[]
    ensures var (page', after, end) := Send(page, d, settings, ALL_ACKNOWLEDGED);
            && end == Written(Finished) && page' == page
            && after.working == after.stored == after.active == Patch(d.working, ToWrite(page, settings))
  {
    AllAreAcknowledged();
    hide *;
    SendIsAttempt(page, d, settings, ALL_ACKNOWLEDGED);
    ResultOfAttempt(d, ToWrite(page, settings), ALL_ACKNOWLEDGED);
  }

  lemma AllAreAcknowledged()
    ensures Acked(ALL_ACKNOWLEDGED, 6)
  {
  }

  lemma LostSave(page: Page, d: Device, settings: Changes)
    requires IsReading(page.shown) && IsReading(settings) && ToWrite(page, settings) != map[]
    ensures Send(page, d, settings, [LostBeforeEffect]) == (page.(writeFailed := true), d, Written(Failed))
  {
    AttemptMore(d, ToWrite(page, settings), [], LostBeforeEffect);
    assert [] + [LostBeforeEffect] == [LostBeforeEffect];
  }

  lemma ChangedIsSent(shown: Changes, settings: Changes, k: Key)
    requires IsReading(shown) && IsReading(settings) && k in shown && k in settings && settings[k] != shown[k]
    ensures ToWrite(Page(shown, false), settings) != map[]
  {
    assert k in ToWrite(Page(shown, false), settings);
  }

  /** It does come to that, on every module and for every other field: the page's
      save of one field is lost without a trace, another page sets field `k` and
      is told that it finished, and the retry, asked only to change what it
      changed before, sets `k` back to what its page had shown. */
  lemma RetryUndoesAnother(d: Device, settings: Changes, k: Key, v: Value)
    requires IsReading(settings) && settings != ReadValues(d.working)
    requires k in settings && settings[k] == ReadValue(d.working, k) != v && Writable(k, v)
    ensures var shown := ReadValues(d.working);
            && IsReading(shown) && IsReading(shown[k := v])
            && var (mine, left, lost) := Send(Page(shown, false), d, settings, [LostBeforeEffect]);
               var (_, between, other) := Send(Page(shown, false), left, shown[k := v], ALL_ACKNOWLEDGED);
               var (_, after, end) := Send(mine, between, settings, ALL_ACKNOWLEDGED);
            && lost == Written(Failed) && other == end == Written(Finished)
            && ReadValue(between.stored, k) == v
            && ReadValue(after.stored, k) == shown[k] != v
  {
    var shown := ReadValues(d.working);
    var page := Page(shown, false);
    var sent := ToWrite(page, shown[k := v]);
    DifferencesAreTheRest(shown, settings);
    ChangedIsSent(shown, shown[k := v], k);
    assert k in sent && sent[k] == v;
    hide Send, Patch;
    LostSave(page, d, settings);
    AcknowledgedSave(page, d, shown[k := v]);
    var between := Send(page, d, shown[k := v], ALL_ACKNOWLEDGED).1;
    ReadPatched(d.working, sent, k);
    AcknowledgedSave(Page(shown, true), between, settings);
    ReadPatched(between.working, settings, k);
  }

  // ------------------------------------------------- all the saves of a page

  /** Settings sent, and the line's answers to what the page sends for them. */
  datatype Attempted = Attempted(settings: Changes, answers: seq<Answer>)

  /** The save ended the page with the settings stored. */
  predicate WentThrough(end: SaveEnd) {
    end == Written(Finished) || end == Written(NotApplied)
  }

  /** Failed saves of a page, one after the other: where they leave the page and
      the module. */
  function Failures(page: Page, d: Device, saves: seq<Attempted>): (r: Option<(Page, Device)>)
    requires IsReading(page.shown) && AllReadings(saves)
    ensures r.Some? ==> r.value.0.shown == page.shown
  {
    if saves == [] then Some((page, d))
    else
      match Failures(page, d, saves[..|saves| - 1])
      case None => None
      case Some((page', d')) =>
        var last := saves[|saves| - 1];
        var (page'', d'', end) := Send(page', d', last.settings, last.answers);
        if end == Written(Failed) then Some((page'', d'')) else None
  }

  predicate AllReadings(saves: seq<Attempted>) {
    forall i :: 0 <= i < |saves| ==> IsReading(saves[i].settings)
  }

  /** What failed saves may have done so far to the module the page was opened
      on, with no one else writing to it. */
  ghost predicate Disturbed(first: Device, shown: Changes, page: Page, d: Device) {
    && page.shown == shown
    && SameRest(d.working, first.working)
    && (!page.writeFailed ==> d == first)
  }

  lemma FailureDisturbs(first: Device, page: Page, d: Device, settings: Changes, answers: seq<Answer>)
    requires IsReading(page.shown) && IsReading(settings) && Disturbed(first, page.shown, page, d)
    requires Send(page, d, settings, answers).2 == Written(Failed)
    ensures var (page', d', _) := Send(page, d, settings, answers);
            page'.writeFailed && Disturbed(first, page.shown, page', d')
  {
    var changes := ToWrite(page, settings);
    AttemptAmounts(d, changes, answers);
    PatchKeepsRest(d.working, Arrived(changes, answers));
  }

  lemma {:induction false} FailuresDisturb(page: Page, d: Device, saves: seq<Attempted>)
    requires IsReading(page.shown) && AllReadings(saves) && Failures(page, d, saves).Some?
    ensures var (page', d') := Failures(page, d, saves).value;
            Disturbed(d, page.shown, page', d') && (page'.writeFailed <==> page.writeFailed || saves != [])
  {
    if saves != [] {
      var before, last := saves[..|saves| - 1], saves[|saves| - 1];
      FailuresDisturb(page, d, before);
      var (page', d') := Failures(page, d, before).value;
      FailureDisturbs(d, page', d', last.settings, last.answers);
    }
  }

  /** What the module has stored once settings went through. */
  ghost predicate StoredAsSent(first: Blocks, page: Page, settings: Changes, after: Device)
    requires IsReading(page.shown) && IsReading(settings)
  {
    && after.stored == after.working == Patch(first, ToWrite(page, settings))
    && ReadValues(after.stored) == settings
    && SameRest(after.stored, first)
  }

  lemma WentThroughStores(page: Page, d: Device, settings: Changes, answers: seq<Answer>)
    requires IsReading(page.shown) && IsReading(settings)
    requires WentThrough(Send(page, d, settings, answers).2)
    ensures var after := Send(page, d, settings, answers).1;
            after.stored == after.working == Patch(d.working, ToWrite(page, settings))
  {
    if ToWrite(page, settings) != map[] {
      SendIsAttempt(page, d, settings, answers);
      ResultOfAttempt(d, ToWrite(page, settings), answers);
      hide Send, Attempt, ToWrite, Patch, Acked;
    }
  }

  lemma PatchedAsSent(first: Blocks, page: Page, settings: Changes)
    requires IsReading(settings) && page.shown == ReadValues(first)
    ensures ReadValues(Patch(first, ToWrite(page, settings))) == settings
    ensures SameRest(Patch(first, ToWrite(page, settings)), first)
  {
    DifferencesAreTheRest(page.shown, settings);
    PutGet(first, ToWrite(page, settings));
    PatchKeepsRest(first, ToWrite(page, settings));
  }

  lemma SentIsStored(first: Device, page: Page, d: Device, settings: Changes, answers: seq<Answer>)
    requires IsReading(page.shown) && IsReading(settings) && page.shown == ReadValues(first.working)
    requires Disturbed(first, page.shown, page, d)
    requires WentThrough(Send(page, d, settings, answers).2)
    ensures StoredAsSent(first.working, page, settings, Send(page, d, settings, answers).1)
  {
    WentThroughStores(page, d, settings, answers);
    if page.writeFailed {
      FullPatch(d.working, first.working, settings);
    }
    PatchedAsSent(first.working, page, settings);
  }

  /** After any number of failed saves of a page that alone writes to the
      module, the first save that goes through leaves stored what was submitted:
      exactly the eleven settings read back, the first words patched with what
      was written - all eleven once a save had failed - and every word outside
      the fields as it was. */
  lemma FirstSaveThatGoesThrough(d: Device, saves: seq<Attempted>, settings: Changes, answers: seq<Answer>)
    requires IsReading(settings) && AllReadings(saves)
    requires var page := Page(ReadValues(d.working), false);
             && Failures(page, d, saves).Some?
             && var (last, left) := Failures(page, d, saves).value;
             WentThrough(Send(last, left, settings, answers).2)
    ensures var (last, left) := Failures(Page(ReadValues(d.working), false), d, saves).value;
            && StoredAsSent(d.working, last, settings, Send(last, left, settings, answers).1)
            && (saves != [] ==> ToWrite(last, settings) == settings)
  {
    var page := Page(ReadValues(d.working), false);
    FailuresDisturb(page, d, saves);
    var (last, left) := Failures(page, d, saves).value;
    SentIsStored(d, last, left, settings, answers);
  }

  /** However many saves of a page failed, whatever they left behind, the next
      one goes through once the module answers, and stores what it was sent. */
  lemma FailedSavesCanBeMadeGood(d: Device, saves: seq<Attempted>, settings: Changes)
    requires IsReading(settings) && AllReadings(saves) && saves != []
    requires Failures(Page(ReadValues(d.working), false), d, saves).Some?
    ensures var (last, left) := Failures(Page(ReadValues(d.working), false), d, saves).value;
            var (_, after, end) := Send(last, left, settings, ALL_ACKNOWLEDGED);
            end == Written(Finished) && ReadValues(after.stored) == ReadValues(after.active) == settings
  {
    var page := Page(ReadValues(d.working), false);
    FailuresDisturb(page, d, saves);
    hide *;
    var (last, left) := Failures(page, d, saves).value;
    AnsweredRetryStores(last, left, settings);
  }

  lemma AnsweredRetryStores(page: Page, d: Device, settings: Changes)
    requires IsReading(page.shown) && IsReading(settings) && page.writeFailed
    ensures var (_, after, end) := Send(page, d, settings, ALL_ACKNOWLEDGED);
            end == Written(Finished) && ReadValues(after.stored) == ReadValues(after.active) == settings
  {
    DifferencesAreTheRest(page.shown, settings);
    assert page == Page(page.shown, true) && ToWrite(page, settings) == settings;
    hide *;
    AcknowledgedSave(page, d, settings);
    PutGet(d.working, settings);
    OverlaidWhole(ReadValues(d.working), settings);
  }

  lemma OverlaidWhole(held: Changes, settings: Changes)
    requires IsReading(held) && IsReading(settings)
    ensures held + settings == settings
  {
    assert (held + settings).Keys == settings.Keys;
  }

  /** A save that ran to its end failed exactly when a block or "store" went
      unanswered; one that was cut short counts as failed too. */
  lemma UnansweredSaveFails(page: Page, d: Device, settings: Changes, answers: seq<Answer>)
    requires IsReading(page.shown) && IsReading(settings) && ToWrite(page, settings) != map[]
    ensures var end := Send(page, d, settings, answers).2;
            var ended := Attempt(d, ToWrite(page, settings), answers).1.Over?;
            && (ended ==> (end == Written(Failed) <==> !Acked(answers, 5)))
            && (ended ==> (end == Written(NotApplied) <==> Acked(answers, 5) && !Acked(answers, 6)))
            && (!ended ==> end == Written(Failed) && Acked(answers, |answers|) && |answers| <= 5)
            && (end == Written(Finished) <==> Acked(answers, 6))
  {
    hide Send, Attempt, ToWrite, Patch, Amounts, IsReading;
    SendIsAttempt(page, d, settings, answers);
    AttemptAmounts(d, ToWrite(page, settings), answers);
    ResultOfAttempt(d, ToWrite(page, settings), answers);
  }

  // ------------------------------------------------ the entry and the module

  /** The settings passed the checks against what the page shows. */
  ghost predicate Accepted(shown: Changes, settings: Changes) {
    IsReading(shown) && IsReading(settings) && Refusal(settings, shown) == None
  }

  lemma AcceptedReads(shown: Changes, settings: Changes)
    requires Accepted(shown, settings)
    ensures IsReading(shown) && IsReading(settings)
  {
  }

  /** The entry of a page that alone writes to its module ends at the address
      the module has stored: when it named the module's own address, fixed or
      leased, as the page opened, and DHCP is off as it ends. And wherever it is
      moved to is an address a host can have in a network that works. */
  lemma EntryEndsAtTheStoredAddress(first: Device, page: Page, d: Device, settings: Changes, answers: seq<Answer>, effective: Address)
    requires IsReading(page.shown) && IsReading(settings) && IsTyped(page.shown) && IsTyped(settings)
    requires Accepted(page.shown, settings)
    requires page.shown == ReadValues(first.working) && Disturbed(first, page.shown, page, d)
    requires WentThrough(Send(page, d, settings, answers).2)
    requires !page.shown[Dhcp].on ==> effective == page.shown[IpAddress].address
    requires !settings[Dhcp].on
    ensures var host := Ipv4Literal(effective);
            var stored := ReadValues(Send(page, d, settings, answers).1.stored);
            && stored == settings && IsTyped(stored)
            && (if Follows(host, page.shown, settings) then AddressOf(settings) else host) == AddressOf(stored)
            && (Follows(host, page.shown, settings) ==>
                  GoodNetwork(stored[IpAddress].address, stored[Netmask].address, stored[Gateway].address))
  {
    hide *;
    StoredReadsAsSent(first, page, d, settings, answers);
    EntryAddress(page.shown, settings, effective);
  }

  lemma StoredReadsAsSent(first: Device, page: Page, d: Device, settings: Changes, answers: seq<Answer>)
    requires IsReading(page.shown) && IsReading(settings) && page.shown == ReadValues(first.working)
    requires Disturbed(first, page.shown, page, d) && WentThrough(Send(page, d, settings, answers).2)
    ensures ReadValues(Send(page, d, settings, answers).1.stored) == settings
  {
    hide Send, ToWrite, Patch, ReadValues, SameRest, Disturbed, IsReading;
    SentIsStored(first, page, d, settings, answers);
  }

  lemma EntryAddress(shown: Changes, settings: Changes, effective: Address)
    requires IsTyped(shown) && IsTyped(settings) && Accepted(shown, settings)
    requires (!shown[Dhcp].on ==> effective == shown[IpAddress].address) && !settings[Dhcp].on
    ensures var host := Ipv4Literal(effective);
            && (if Follows(host, shown, settings) then AddressOf(settings) else host) == AddressOf(settings)
            && (Follows(host, shown, settings) ==>
                  GoodNetwork(settings[IpAddress].address, settings[Netmask].address, settings[Gateway].address))
  {
    hide Refusal, GoodNetwork, IsHostAddress;
    EntryStaysWithTheModule(Ipv4Literal(effective), effective, shown, settings);
    if Follows(Ipv4Literal(effective), shown, settings) {
      FollowedAddressWorks(Ipv4Literal(effective), shown, settings);
    }
  }
}
