/**
 What saves from the module's pages make of its network settings: exactly when
 a save keeps a network that works, from a page that shows the module as it is,
 from any other page, and over every run of pages.
 */
module SavedNetworks {
  import opened Wrappers
  import opened Ipv4
  import opened Bits
  import opened Registers
  import opened ModuleWrites
  import opened ModuleSettings
  import opened Entries
  import opened OptionsFlow

  /** The four values the network checks look at together. */
  datatype Network = Network(dhcp: Value, address: Value, netmask: Value, gateway: Value)

  function NetworkOf(values: Changes): Network
    requires IsReading(values)
  {
    Network(values[Dhcp], values[IpAddress], values[Netmask], values[Gateway])
  }

  function NetworkIn(b: Blocks): (n: Network)
    ensures n == NetworkOf(ReadValues(b))
  {
    Network(ReadValue(b, Dhcp), ReadValue(b, IpAddress), ReadValue(b, Netmask), ReadValue(b, Gateway))
  }

  predicate IsNetwork(n: Network) {
    n.dhcp.Switch? && n.address.Ip? && n.netmask.Ip? && n.gateway.Ip?
  }

  /** DHCP off goes with a fixed address, netmask and gateway that work together. */
  ghost predicate FixedWorks(n: Network) {
    IsNetwork(n) && (!n.dhcp.on ==> GoodNetwork(n.address.address, n.netmask.address, n.gateway.address))
  }

  /** The netmask is a usable one, whether DHCP is on or off. */
  ghost predicate MaskWorks(n: Network) {
    IsNetwork(n) && UsableMask(n.netmask.address)
  }

  lemma ReadingsWorkExactly(values: Changes)
    requires IsReading(values)
    ensures IsTyped(values)
    ensures FixedWorks(NetworkOf(values)) <==> values[Dhcp].on || NetworkCheck(values) == None
    ensures MaskWorks(NetworkOf(values)) <==> Interface(values[Netmask].address).Some?
  {
    ReadingIsTyped(values);
    NetworkCheckExact(values);
  }

  lemma AcceptedKeeps(shown: Changes, settings: Changes)
    requires Accepted(shown, settings)
    ensures FixedWorks(NetworkOf(shown)) ==> FixedWorks(NetworkOf(settings))
    ensures MaskWorks(NetworkOf(shown)) ==> MaskWorks(NetworkOf(settings))
  {
    ReadingIsTyped(settings);
    ReadingIsTyped(shown);
    ChecksKeepTheNetwork(settings, shown);
  }

  // ------------------------------------------------------------- one save

  /** What the module would hold if the whole save reached it: its own values,
      and over them what the page sends. */
  function Merged(page: Page, d: Device, settings: Changes): (r: Changes)
    requires IsReading(page.shown) && IsReading(settings)
    ensures IsReading(r)
  {
    var sent := ToWrite(page, settings);
    assert ReadValues(d.working).Keys + sent.Keys == ALL_KEYS;
    ReadValues(d.working) + sent
  }

  lemma NetworkWithin(held: Changes, sent: Changes, settings: bool, network: bool)
    requires IsReading(held) && AllWritable(sent)
    ensures IsReading(held + sent) && IsReading(held + Within(sent, settings, network))
    ensures NetworkOf(held + Within(sent, settings, network)) == NetworkOf(if network then held + sent else held)
  {
    assert (held + sent).Keys == ALL_KEYS && (held + Within(sent, settings, network)).Keys == ALL_KEYS;
  }

  lemma MergedWithNothing(page: Page, d: Device, settings: Changes)
    requires IsReading(page.shown) && IsReading(settings) && ToWrite(page, settings) == map[]
    ensures Merged(page, d, settings) == ReadValues(d.working)
  {
    assert ReadValues(d.working) + map[] == ReadValues(d.working);
  }

  /** Whatever the page shows and whichever requests are lost: the module's
      network ends as it was, or as the merge has it, which is exactly when the
      network block's write took effect; and nothing is stored but what the
      registers hold. */
  lemma NetworkAfterSave(page: Page, d: Device, settings: Changes, answers: seq<Answer>)
    requires IsReading(page.shown) && IsReading(settings)
    ensures var after := Send(page, d, settings, answers).1;
            && NetworkIn(after.working) ==
               (if Took(answers, NETWORK_WRITE) then NetworkOf(Merged(page, d, settings)) else NetworkIn(d.working))
            && (after.stored == d.stored || after.stored == after.working)
  {
    var sent := ToWrite(page, settings);
    if sent == map[] {
      MergedWithNothing(page, d, settings);
    } else {
      SendIsAttempt(page, d, settings, answers);
      AttemptAmounts(d, sent, answers);
      ResultOfAttempt(d, sent, answers);
      hide Send, Attempt, ToWrite, Patch, Stands, Took, Acked, IsReading;
      PutGet(d.working, Arrived(sent, answers));
      NetworkWithin(ReadValues(d.working), sent, Took(answers, SETTINGS_WRITE), Took(answers, NETWORK_WRITE));
    }
  }

  /** Exactly when a save from any page, stale or torn, leaves a network that
      works: when the page's own checks pass on what the module held as the write
      got the lock, overlaid with what the page sends. */
  lemma AnySaveKeepsExactly(page: Page, d: Device, settings: Changes, answers: seq<Answer>)
    requires IsReading(page.shown) && IsReading(settings) && Took(answers, NETWORK_WRITE)
    ensures var n := NetworkIn(Send(page, d, settings, answers).1.working);
            var merged := Merged(page, d, settings);
            && IsTyped(merged)
            && (FixedWorks(n) <==> merged[Dhcp].on || NetworkCheck(merged) == None)
            && (MaskWorks(n) <==> Interface(merged[Netmask].address).Some?)
  {
    hide *;
    NetworkAfterSave(page, d, settings, answers);
    ReadingsWorkExactly(Merged(page, d, settings));
  }

  lemma MergedAsSent(page: Page, d: Device, settings: Changes)
    requires IsReading(page.shown) && IsReading(settings)
    requires page.writeFailed || NetworkOf(page.shown) == NetworkIn(d.working)
    ensures NetworkOf(Merged(page, d, settings)) == NetworkOf(settings)
  {
    hide NetworkIn, ReadValue;
    var held := ReadValues(d.working);
    forall k | k in {Dhcp, IpAddress, Netmask, Gateway} && (page.writeFailed || page.shown[k] == held[k])
      ensures Merged(page, d, settings)[k] == settings[k]
    {
      OverlaidWithChanges(held, page, settings, k);
    }
    if !page.writeFailed {
      assert page.shown[Dhcp] == held[Dhcp] && page.shown[IpAddress] == held[IpAddress];
      assert page.shown[Netmask] == held[Netmask] && page.shown[Gateway] == held[Gateway];
    }
  }

  lemma OverlaidWithChanges(held: Changes, page: Page, settings: Changes, k: Key)
    requires IsReading(held) && IsReading(page.shown) && IsReading(settings)
    requires page.writeFailed || page.shown[k] == held[k]
    ensures k in held + ToWrite(page, settings) && (held + ToWrite(page, settings))[k] == settings[k]
  {
    assert k in ALL_KEYS;
  }

  /** A page that shows the module's network as it is, or has a failed save of
      its own to make good, leaves the network as it was or wholly as sent. */
  lemma NetworkIsWrittenWhole(page: Page, d: Device, settings: Changes, answers: seq<Answer>)
    requires IsReading(page.shown) && IsReading(settings)
    requires page.writeFailed || NetworkOf(page.shown) == NetworkIn(d.working)
    ensures var after := Send(page, d, settings, answers).1;
            && (NetworkIn(after.working) == NetworkIn(d.working) || NetworkIn(after.working) == NetworkOf(settings))
            && (after.stored == d.stored || after.stored == after.working)
  {
    hide *;
    NetworkAfterSave(page, d, settings, answers);
    MergedAsSent(page, d, settings);
  }

  // -------------------------------------------------------- runs of pages

  type PageId = nat

  /** A page opens on any snapshot of the module, or sends settings. */
  datatype Event = Open(id: PageId, shown: Changes) | Save(id: PageId, settings: Changes, answers: seq<Answer>)

  /** The module, and the pages that are open on it. */
  datatype World = World(device: Device, pages: map<PageId, Page>)

  /** The page shows the module's network as it is, or is making good a failed
      save it sent when it did; what else it shows may be stale. */
  predicate AgreesOnNetwork(page: Page, d: Device)
    requires IsReading(page.shown)
  {
    page.writeFailed || NetworkOf(page.shown) == NetworkIn(d.working)
  }

  ghost predicate Possible(w: World, e: Event) {
    match e
    case Open(_, shown) => IsReading(shown)
    case Save(id, settings, _) =>
      id in w.pages && Accepted(w.pages[id].shown, settings) && AgreesOnNetwork(w.pages[id], w.device)
  }

  ghost function Happen(w: World, e: Event): World
    requires Possible(w, e)
  {
    match e
    case Open(id, shown) => w.(pages := w.pages[id := Page(shown, false)])
    case Save(id, settings, answers) =>
      var (page, device, _) := Send(w.pages[id], w.device, settings, answers);
      World(device, w.pages[id := page])
  }

  /** Where a run of pages leads, if each save in it agreed and passed the checks. */
  ghost function Run(d: Device, events: seq<Event>): Option<World> {
    if events == [] then Some(World(d, map[]))
    else
      match Run(d, events[..|events| - 1])
      case None => None
      case Some(w) =>
        var e := events[|events| - 1];
        if Possible(w, e) then Some(Happen(w, e)) else None
  }

  /** Settings that pass the checks have this if what the page shows has it. */
  ghost predicate KeptByChecks(good: Network -> bool) {
    forall shown, settings :: Accepted(shown, settings) && good(NetworkOf(shown)) ==> good(NetworkOf(settings))
  }

  /** Good all over: in the registers, in what is stored, and on every page whose
      failed save is still to be made good. */
  ghost predicate AllGood(w: World, good: Network -> bool) {
    && good(NetworkIn(w.device.working)) && good(NetworkIn(w.device.stored))
    && forall id :: id in w.pages ==>
         IsReading(w.pages[id].shown) && (w.pages[id].writeFailed ==> good(NetworkOf(w.pages[id].shown)))
  }

  lemma SaveKeepsGood(w: World, e: Event, good: Network -> bool)
    requires KeptByChecks(good) && AllGood(w, good) && Possible(w, e) && e.Save?
    ensures AllGood(Happen(w, e), good)
  {
    hide Send, NetworkIn, NetworkOf, Accepted, KeptByChecks;
    var page := w.pages[e.id];
    AcceptedReads(page.shown, e.settings);
    ShownIsGood(page, w.device, good);
    AcceptedIsGood(page.shown, e.settings, good);
    SaveLeavesGood(page, w.device, e.settings, e.answers, good);
  }

  lemma ShownIsGood(page: Page, d: Device, good: Network -> bool)
    requires IsReading(page.shown) && AgreesOnNetwork(page, d)
    requires good(NetworkIn(d.working)) && (page.writeFailed ==> good(NetworkOf(page.shown)))
    ensures good(NetworkOf(page.shown))
  {
    hide NetworkIn, NetworkOf;
  }

  lemma AcceptedIsGood(shown: Changes, settings: Changes, good: Network -> bool)
    requires KeptByChecks(good) && Accepted(shown, settings) && IsReading(shown) && IsReading(settings)
    requires good(NetworkOf(shown))
    ensures good(NetworkOf(settings))
  {
    hide NetworkOf, Accepted;
  }

  lemma SaveLeavesGood(page: Page, d: Device, settings: Changes, answers: seq<Answer>, good: Network -> bool)
    requires IsReading(page.shown) && IsReading(settings) && AgreesOnNetwork(page, d)
    requires good(NetworkIn(d.working)) && good(NetworkIn(d.stored)) && good(NetworkOf(settings))
    ensures var after := Send(page, d, settings, answers).1;
            good(NetworkIn(after.working)) && good(NetworkIn(after.stored))
  {
    hide NetworkIn, NetworkOf, Send, IsReading;
    NetworkIsWrittenWhole(page, d, settings, answers);
  }

  lemma {:induction false} RunKeepsGood(d: Device, events: seq<Event>, good: Network -> bool)
    requires Run(d, events).Some? && KeptByChecks(good)
    requires good(NetworkIn(d.working)) && good(NetworkIn(d.stored))
    ensures AllGood(Run(d, events).value, good)
  {
    if events != [] {
      hide Happen, Possible, AllGood, KeptByChecks;
      var before, e := events[..|events| - 1], events[|events| - 1];
      RunKeepsGood(d, before, good);
      var w := Run(d, before).value;
      if e.Save? {
        SaveKeepsGood(w, e, good);
      } else {
        OpenKeepsGood(w, e, good);
      }
    }
  }

  lemma OpenKeepsGood(w: World, e: Event, good: Network -> bool)
    requires AllGood(w, good) && Possible(w, e) && e.Open?
    ensures AllGood(Happen(w, e), good)
  {
    hide NetworkIn, NetworkOf;
  }

  /**
   Over every run of pages, open one after the other or at the same time, whose
   saves agree with the module on its network fields and pass the checks, and
   whichever requests are lost: "DHCP off goes with a network that works" is
   kept, and so, on its own, is "the netmask is usable", in the registers and in
   what is stored.
   */
  lemma PagesKeepTheNetwork(d: Device, events: seq<Event>)
    requires Run(d, events).Some?
    ensures var after := Run(d, events).value.device;
            && (FixedWorks(NetworkIn(d.working)) && FixedWorks(NetworkIn(d.stored)) ==>
                  FixedWorks(NetworkIn(after.working)) && FixedWorks(NetworkIn(after.stored)))
            && (MaskWorks(NetworkIn(d.working)) && MaskWorks(NetworkIn(d.stored)) ==>
                  MaskWorks(NetworkIn(after.working)) && MaskWorks(NetworkIn(after.stored)))
  {
    var fixedWorks, maskWorks := (n: Network) => FixedWorks(n), (n: Network) => MaskWorks(n);
    forall shown, settings | Accepted(shown, settings)
      ensures fixedWorks(NetworkOf(shown)) ==> fixedWorks(NetworkOf(settings))
      ensures maskWorks(NetworkOf(shown)) ==> maskWorks(NetworkOf(settings))
    {
      AcceptedKeeps(shown, settings);
    }
    assert KeptByChecks(fixedWorks) && KeptByChecks(maskWorks);
    hide *;
    if FixedWorks(NetworkIn(d.working)) && FixedWorks(NetworkIn(d.stored)) {
      RunKeepsWorking(d, events, fixedWorks);
    }
    if MaskWorks(NetworkIn(d.working)) && MaskWorks(NetworkIn(d.stored)) {
      RunKeepsWorking(d, events, maskWorks);
    }
  }

  lemma RunKeepsWorking(d: Device, events: seq<Event>, good: Network -> bool)
    requires Run(d, events).Some? && KeptByChecks(good)
    requires good(NetworkIn(d.working)) && good(NetworkIn(d.stored))
    ensures good(NetworkIn(Run(d, events).value.device.working)) && good(NetworkIn(Run(d, events).value.device.stored))
  {
    hide Run, NetworkIn;
    RunKeepsGood(d, events, good);
  }

  /** Runs do overlap: of two pages opened on the same module, one stays open and
      still agrees while the other sends whatever does not concern the network. */
  lemma PagesMayOverlap(w: World, first: Event, second: Event)
    requires first.Save? && second.Save? && first.id != second.id && first.id in w.pages && second.id in w.pages
    requires w.pages[first.id] == w.pages[second.id] == Page(ReadValues(w.device.working), false)
    requires IsReading(first.settings) && Accepted(ReadValues(w.device.working), first.settings)
    requires IsReading(second.settings) && Accepted(ReadValues(w.device.working), second.settings)
    requires LeavesNetwork(w.pages[first.id], first.settings)
    ensures Possible(w, first) && Possible(Happen(w, first), second)
  {
    var page := w.pages[first.id];
    assert NetworkOf(page.shown) == NetworkIn(w.device.working);
    hide Send, Accepted, NetworkIn, NetworkOf, ReadValues, IsReading, ToWrite;
    assert Possible(w, first);
    SaveHappens(w, first);
    hide Happen;
    NetworkIsWrittenWhole(page, w.device, first.settings, first.answers);
  }

  lemma SaveHappens(w: World, e: Event)
    requires Possible(w, e) && e.Save? && IsReading(w.pages[e.id].shown) && IsReading(e.settings)
    ensures Happen(w, e).device == Send(w.pages[e.id], w.device, e.settings, e.answers).1
    ensures forall id :: id in w.pages && id != e.id ==> id in Happen(w, e).pages && Happen(w, e).pages[id] == w.pages[id]
  {
    hide Send, Accepted, NetworkIn, NetworkOf, IsReading;
  }

  // ----------------------------------------------------- two pages at once

  /** The module after two saves, the first before the second. */
  function AfterBoth(d: Device, first: Page, one: Attempted, second: Page, two: Attempted): Device
    requires IsReading(first.shown) && IsReading(one.settings) && IsReading(second.shown) && IsReading(two.settings)
  {
    Send(second, Send(first, d, one.settings, one.answers).1, two.settings, two.answers).1
  }

  lemma WholeSaveReads(page: Page, d: Device, settings: Changes, answers: seq<Answer>)
    requires IsReading(page.shown) && IsReading(settings) && Took(answers, NETWORK_WRITE)
    ensures ReadValues(Send(page, d, settings, answers).1.working) == Merged(page, d, settings)
  {
    var sent := ToWrite(page, settings);
    if sent == map[] {
      MergedWithNothing(page, d, settings);
    } else {
      hide *;
      SentArrives(page, d, settings, answers);
      PutGet(d.working, sent);
      MergedIs(page, d, settings);
    }
  }

  lemma MergedIs(page: Page, d: Device, settings: Changes)
    requires IsReading(page.shown) && IsReading(settings)
    ensures Merged(page, d, settings) == ReadValues(d.working) + ToWrite(page, settings)
  {
  }

  lemma SentArrives(page: Page, d: Device, settings: Changes, answers: seq<Answer>)
    requires IsReading(page.shown) && IsReading(settings) && Took(answers, NETWORK_WRITE)
    requires ToWrite(page, settings) != map[]
    ensures Send(page, d, settings, answers).1.working == Patch(d.working, ToWrite(page, settings))
  {
    SendIsAttempt(page, d, settings, answers);
    AttemptAmounts(d, ToWrite(page, settings), answers);
    hide Patch, ToWrite, Attempt, Send;
    assert Took(answers, SETTINGS_WRITE);
    WholeArrives(ToWrite(page, settings), answers);
  }

  lemma WholeArrives(changes: Changes, answers: seq<Answer>)
    requires Took(answers, SETTINGS_WRITE) && Took(answers, NETWORK_WRITE)
    ensures Arrived(changes, answers) == changes
  {
  }

  /** Two pages, opened whenever and on whatever, leave a network that works
      exactly when the checks pass on the module's values overlaid with what both
      of them send. */
  lemma TwoPagesKeepExactly(d: Device, first: Page, one: Attempted, second: Page, two: Attempted)
    requires IsReading(first.shown) && IsReading(one.settings) && IsReading(second.shown) && IsReading(two.settings)
    requires Took(one.answers, NETWORK_WRITE) && Took(two.answers, NETWORK_WRITE)
    ensures var n := NetworkIn(AfterBoth(d, first, one, second, two).working);
            var merged := ReadValues(d.working) + ToWrite(first, one.settings) + ToWrite(second, two.settings);
            && IsReading(merged) && IsTyped(merged)
            && (FixedWorks(n) <==> merged[Dhcp].on || NetworkCheck(merged) == None)
            && (MaskWorks(n) <==> Interface(merged[Netmask].address).Some?)
  {
    hide Send, ToWrite, ReadValues, FixedWorks, MaskWorks, NetworkIn, NetworkCheck, Took;
    var between := Send(first, d, one.settings, one.answers).1;
    WholeSaveReads(first, d, one.settings, one.answers);
    AnySaveKeepsExactly(second, between, two.settings, two.answers);
  }

  /** A submission that leaves the network as its page shows it. */
  predicate LeavesNetwork(page: Page, settings: Changes)
    requires IsReading(page.shown) && IsReading(settings)
  {
    NetworkOf(settings) == NetworkOf(page.shown)
  }

  lemma MergedAsHeld(page: Page, d: Device, settings: Changes)
    requires IsReading(page.shown) && IsReading(settings) && !page.writeFailed && LeavesNetwork(page, settings)
    ensures NetworkOf(Merged(page, d, settings)) == NetworkIn(d.working)
  {
  }

  /** Two pages opened on the same network keep it working if at most one of
      them changes a network field, whichever it is and whichever requests are
      lost: after both, the network is what it was or what one of them sent. */
  lemma OnePageMayChangeTheNetwork(d: Device, first: Page, one: Attempted, second: Page, two: Attempted)
    requires Accepted(first.shown, one.settings) && Accepted(second.shown, two.settings)
    requires !first.writeFailed && !second.writeFailed
    requires NetworkOf(first.shown) == NetworkIn(d.working) == NetworkOf(second.shown)
    requires LeavesNetwork(first, one.settings) || LeavesNetwork(second, two.settings)
    ensures var n := NetworkIn(AfterBoth(d, first, one, second, two).working);
            && n in {NetworkIn(d.working), NetworkOf(one.settings), NetworkOf(two.settings)}
            && (FixedWorks(NetworkIn(d.working)) ==> FixedWorks(n))
            && (MaskWorks(NetworkIn(d.working)) ==> MaskWorks(n))
  {
    AcceptedKeeps(first.shown, one.settings);
    AcceptedKeeps(second.shown, two.settings);
    hide *;
    AcceptedReads(first.shown, one.settings);
    AcceptedReads(second.shown, two.settings);
    OneOfThree(d, first, one, second, two);
  }

  lemma OneOfThree(d: Device, first: Page, one: Attempted, second: Page, two: Attempted)
    requires IsReading(first.shown) && IsReading(one.settings) && IsReading(second.shown) && IsReading(two.settings)
    requires !first.writeFailed && !second.writeFailed
    requires NetworkOf(first.shown) == NetworkIn(d.working) == NetworkOf(second.shown)
    requires LeavesNetwork(first, one.settings) || LeavesNetwork(second, two.settings)
    ensures NetworkIn(AfterBoth(d, first, one, second, two).working)
         in {NetworkIn(d.working), NetworkOf(one.settings), NetworkOf(two.settings)}
  {
    hide Send, NetworkIn, NetworkOf, IsReading;
    var between := Send(first, d, one.settings, one.answers).1;
    NetworkIsWrittenWhole(first, d, one.settings, one.answers);
    NetworkAfterSave(second, between, two.settings, two.answers);
    if LeavesNetwork(second, two.settings) {
      MergedAsHeld(second, between, two.settings);
    } else {
      MergedAsSent(second, between, two.settings);
    }
  }

  const ADDRESS: Value := Ip(0xC000_0204)        // 192.0.2.4
  const GATEWAY: Value := Ip(0xC000_0201)        // 192.0.2.1
  const OTHER_ADDRESS: Value := Ip(0xC633_6404)  // 198.51.100.4

  /** 192.0.2.4/24 without a gateway and without DHCP; anything else besides. */
  predicate IsHeld(values: Changes) {
    && IsReading(values)
    && values[IpAddress] == ADDRESS && values[Netmask] == Ip(0xFFFF_FF00) && values[Gateway] == Ip(UNSET)
    && values[Dhcp] == Switch(false)
  }

  lemma OnlyTwentyFour(p: nat)
    ensures IsMask(0xFFFF_FF00, p) <==> p == 24
    ensures Pow2(32 - 24) == 256
  {
    assert Pow2(8) == 256;
    if IsMask(0xFFFF_FF00, p) {
      MaskDecidesPrefix(p, 24);
    }
  }

  lemma HeldWorks()
    ensures GoodNetwork(0xC000_0204, 0xFFFF_FF00, UNSET)
    ensures GoodNetwork(0xC000_0204, 0xFFFF_FF00, 0xC000_0201)
    ensures GoodNetwork(0xC633_6404, 0xFFFF_FF00, UNSET)
    ensures !GoodNetwork(0xC633_6404, 0xFFFF_FF00, 0xC000_0201)
  {
    OnlyTwentyFour(24);
    assert IsMask(0xFFFF_FF00, 24);
    assert GoodIn(0xC000_0204, UNSET, 24);
    assert GoodIn(0xC000_0204, 0xC000_0201, 24);
    assert GoodIn(0xC633_6404, UNSET, 24);
    forall p: nat | IsMask(0xFFFF_FF00, p) ensures !GoodIn(0xC633_6404, 0xC000_0201, p) {
      OnlyTwentyFour(p);
    }
  }

  lemma OneFieldDiffers(shown: Changes, k: Key, v: Value)
    requires IsReading(shown) && Writable(k, v) && k in shown && shown[k] != v
    ensures IsReading(shown[k := v]) && ToWrite(Page(shown, false), shown[k := v]) == map[k := v]
  {
    assert k in ToWrite(Page(shown, false), shown[k := v]);
  }

  lemma OneFieldIsSent(d: Device, shown: Changes, k: Key, v: Value)
    requires IsReading(shown) && Writable(k, v) && k in shown && shown[k] != v
    ensures IsReading(shown[k := v])
    ensures var after := Send(Page(shown, false), d, shown[k := v], ALL_ACKNOWLEDGED).1;
            ReadValues(after.working) == ReadValues(d.working) + map[k := v]
  {
    OneFieldDiffers(shown, k, v);
    hide *;
    assert k in map[k := v];
    AcknowledgedSave(Page(shown, false), d, shown[k := v]);
    PutGet(d.working, map[k := v]);
  }

  lemma GatewayPasses(held: Changes)
    requires IsHeld(held)
    ensures Accepted(held, held[Gateway := GATEWAY])
  {
    HeldWorks();
    hide Refusal, GoodNetwork, UsableMask;
    RefusalExact(held[Gateway := GATEWAY], held);
  }

  lemma AddressPasses(held: Changes)
    requires IsHeld(held)
    ensures Accepted(held, held[IpAddress := OTHER_ADDRESS])
  {
    HeldWorks();
    hide Refusal, GoodNetwork, UsableMask;
    RefusalExact(held[IpAddress := OTHER_ADDRESS], held);
  }

  /** An entry at the held address goes with it: following does happen. */
  lemma HeldIsFollowed(held: Changes)
    requires IsHeld(held)
    ensures var settings := held[IpAddress := OTHER_ADDRESS];
            Accepted(held, settings) && IsTyped(held) && IsTyped(settings) && Follows(Ipv4Literal(ADDRESS.address), held, settings)
  {
    AddressPasses(held);
  }

  lemma OnlyApartDoTheyWork(held: Changes)
    requires IsHeld(held)
    ensures FixedWorks(NetworkOf(held))
    ensures var merged := held + map[Gateway := GATEWAY] + map[IpAddress := OTHER_ADDRESS];
            IsReading(merged) && !FixedWorks(NetworkOf(merged))
  {
    HeldWorks();
    hide GoodNetwork, UsableMask;
  }

  /** Pages that are open at the same time can break what each of them keeps: on
      any module, one sets a gateway, the other moves the address to another
      network, and each passes the checks against the module as both found it. */
  lemma MergedPagesCanDisagree(d: Device)
    requires IsHeld(ReadValues(d.working))
    ensures var held := ReadValues(d.working);
            var page := Page(held, false);
            var first, second := held[Gateway := GATEWAY], held[IpAddress := OTHER_ADDRESS];
            && FixedWorks(NetworkIn(d.working)) && Accepted(held, first) && Accepted(held, second)
            && IsReading(held) && IsReading(first) && IsReading(second)
            && var after := Send(page, Send(page, d, first, ALL_ACKNOWLEDGED).1, second, ALL_ACKNOWLEDGED).1;
            !FixedWorks(NetworkIn(after.working))
  {
    var held := ReadValues(d.working);
    GatewayPasses(held);
    AddressPasses(held);
    OnlyApartDoTheyWork(held);
    assert held[Gateway] == Ip(UNSET) && held[IpAddress] == ADDRESS && IsReading(held);
    hide *;
    OneFieldIsSent(d, held, Gateway, GATEWAY);
    var between := Send(Page(held, false), d, held[Gateway := GATEWAY], ALL_ACKNOWLEDGED).1;
    OneFieldIsSent(between, held, IpAddress, OTHER_ADDRESS);
  }

  /** Every module can be set to hold such a network. */
  lemma HeldCanBeSet(b: Blocks)
    ensures var changes := map[IpAddress := ADDRESS, Netmask := Ip(0xFFFF_FF00), Gateway := Ip(UNSET), Dhcp := Switch(false)];
            AllWritable(changes) && IsHeld(ReadValues(Patch(b, changes)))
  {
    var changes := map[IpAddress := ADDRESS, Netmask := Ip(0xFFFF_FF00), Gateway := Ip(UNSET), Dhcp := Switch(false)];
    assert AllWritable(changes);
    ReadPatched(b, changes, IpAddress);
    ReadPatched(b, changes, Netmask);
    ReadPatched(b, changes, Gateway);
    ReadPatched(b, changes, Dhcp);
    hide Patch, ReadValue, ReadValues;
  }
}
