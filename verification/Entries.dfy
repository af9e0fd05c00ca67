/**
 The integration's config entries, and moving one to another address.

 Home Assistant's side is a contract: updating an entry calls its update
 listener when something changed, the listener reloads the entry, and a reload
 takes the listener off.
 */
module Entries {
  import opened Wrappers
  import opened Ipv4
  import opened DottedQuad
  import opened Registers
  import opened ModuleSettings
  import opened LoggingPolicy

  type EntryId = nat

  /** What the entry was told to connect to: an address or a name. */
  datatype Host = Ipv4Literal(address: Address) | Ipv6Literal(text: string) | HostName(text: string)

  predicate IsAddress(host: Host) {
    !host.HostName?
  }

  function HostText(host: Host): string {
    match host
    case Ipv4Literal(address) => Text(address)
    case Ipv6Literal(text) => text
    case HostName(text) => text
  }

  datatype Data = Data(host: Host, port: nat, unitId: nat, rest: map<string, int>)

  /** `listening`: a successful setup registered the update listener. */
  datatype Entry = Entry(data: Data, title: string, uniqueId: Option<string>, listening: bool)

  /** A new host alone, or a whole new connection. */
  datatype Move = ToHost(host: Host) | ToConnection(host: Host, port: nat, unitId: nat)

  function MovedData(data: Data, move: Move): Data {
    match move
    case ToHost(host) => data.(host := host)
    case ToConnection(host, port, unitId) => data.(host := host, port := port, unitId := unitId)
  }

  function DeviceName(serial: string): string {
    "WAGO " + IdentifierTail(serial)
  }

  /** The device name in place of a title that is the old address. */
  function EntryTitle(current: string, host: Host, serial: string): string {
    if current == HostText(host) then DeviceName(serial) else current
  }

  function MovedTitle(entry: Entry): string {
    if entry.uniqueId.Some? then EntryTitle(entry.title, entry.data.host, entry.uniqueId.value) else entry.title
  }

  /** The module's own address as an entry names it. */
  function AddressOf(values: Changes): Host
    requires IsTyped(values)
  {
    Ipv4Literal(values[IpAddress].address)
  }

  /** The entry's host goes over to the address in `settings`: DHCP is off there,
      the host is another address, and it was the one in `current` or a leased one. */
  predicate Follows(host: Host, current: Changes, settings: Changes)
    requires IsTyped(current) && IsTyped(settings)
  {
    var reachedTheModule := host == AddressOf(current) || current[Dhcp].on;
    !settings[Dhcp].on && IsAddress(host) && host != AddressOf(settings) && reachedTheModule
  }

  /** What an entry is titled after it moved: as before, unless that was the very
      address it had; then after its meter, by the last four characters of the
      serial. */
  ghost predicate TitleKept(was: Entry, title: string) {
    var address := match was.data.host
                   case Ipv4Literal(a) => Text(a)
                   case Ipv6Literal(text) => text
                   case HostName(text) => text;
    if was.uniqueId == None || was.title != address then title == was.title
    else
      var serial := was.uniqueId.value;
      title == "WAGO " + if |serial| <= 4 then serial else serial[|serial| - 4..]
  }

  /** The connection an entry has after it moved: nothing else of its data changes,
      and with a new host alone neither port nor unit do. */
  ghost predicate DataMoved(was: Data, move: Move, data: Data) {
    match move
    case ToHost(host) => data == Data(host, was.port, was.unitId, was.rest)
    case ToConnection(host, port, unitId) => data == Data(host, port, unitId, was.rest)
  }

  lemma MovedExactly(was: Entry, move: Move)
    ensures DataMoved(was.data, move, MovedData(was.data, move)) && TitleKept(was, MovedTitle(was))
  {
  }

  /** An entry follows only if it names an address: one that was the module's fixed
      one, or any while the module was on a lease. A host name never follows. */
  lemma FollowsExactly(host: Host, current: Changes, settings: Changes)
    requires IsTyped(current) && IsTyped(settings)
    ensures Follows(host, current, settings) <==>
            && current[IpAddress].Ip? && settings[IpAddress].Ip? && settings[Dhcp] == Switch(false)
            && !host.HostName? && host != Ipv4Literal(settings[IpAddress].address)
            && (current[Dhcp] == Switch(true) || host == Ipv4Literal(current[IpAddress].address))
  {
  }

  /** What becomes of the entry a page had seen: it keeps everything, or, if it is
      unchanged and names an address that was the module's or could be a lease of
      it, and DHCP is off now, it is moved to the address the module was given. */
  ghost predicate EntryFollowed(was: Entry, seen: Data, current: Changes, settings: Changes, now: Entry)
    requires IsTyped(current) && IsTyped(settings)
  {
    var there := Ipv4Literal(settings[IpAddress].address);
    var reached := current[Dhcp].on || seen.host == Ipv4Literal(current[IpAddress].address);
    if was.data == seen && !settings[Dhcp].on && !seen.host.HostName? && seen.host != there && reached then
      now.data == seen.(host := there) && TitleKept(was, now.title) && now.uniqueId == was.uniqueId
    else
      now == was
  }

  class ConfigEntries {
    var entries: map<EntryId, Entry>
    var reloads: seq<EntryId>  // every reload asked for, in order

    constructor (entries: map<EntryId, Entry>)
      ensures this.entries == entries && reloads == []
    {
      this.entries := entries;
      reloads := [];
    }

    method UpdateEntry(id: EntryId, data: Data, title: string)
      requires id in entries
      modifies this
      ensures var was := old(entries[id]);
              var reloaded := was.listening && (data != was.data || title != was.title);
              && entries == old(entries)[id := Entry(data, title, was.uniqueId, was.listening && !reloaded)]
              && reloads == old(reloads) + (if reloaded then [id] else [])
    {
      var was := entries[id];
      var reloaded := was.listening && (data != was.data || title != was.title);
      entries := entries[id := Entry(data, title, was.uniqueId, was.listening && !reloaded)];
      if reloaded {
        reloads := reloads + [id];
      }
    }

    method ScheduleReload(id: EntryId)
      modifies this`reloads
      ensures reloads == old(reloads) + [id]
    {
      reloads := reloads + [id];
    }

    /** Moves the entry if it is still what the caller saw, and has it loaded
        anew exactly once unless it already is what it is moved to. */
    method MoveEntry(id: EntryId, seen: Data, move: Move) returns (moved: bool)
      modifies this
      ensures moved <==> id in old(entries) && old(entries[id].data) == seen
      ensures !moved ==> entries == old(entries) && reloads == old(reloads)
      ensures moved ==>
                && entries.Keys == old(entries.Keys)
                && (forall other :: other in entries && other != id ==> entries[other] == old(entries[other]))
                && DataMoved(seen, move, entries[id].data)
                && TitleKept(old(entries[id]), entries[id].title)
                && entries[id].uniqueId == old(entries[id].uniqueId)
      ensures moved ==>
                var was := old(entries[id]);
                var same := entries[id].data == was.data && entries[id].title == was.title;
                reloads == old(reloads) + (if same && was.listening then [] else [id])
    {
      if id !in entries || entries[id].data != seen {
        return false;
      }
      var entry := entries[id];
      // UpdateEntry may clear `listening`.
      var reloadsItself := entry.listening;
      UpdateEntry(id, MovedData(entry.data, move), MovedTitle(entry));
      if !reloadsItself {
        ScheduleReload(id);
      }
      moved := true;
    }

    /** Moves the entry if it follows and is still what was seen; else it is only
        loaded anew. */
    method FollowModule(id: EntryId, seen: Data, current: Changes, settings: Changes)
      requires IsTyped(current) && IsTyped(settings)
      modifies this
      ensures reloads == old(reloads) + (if id in old(entries) then [id] else [])
      ensures entries.Keys == old(entries.Keys)
      ensures forall other :: other in entries && other != id ==> entries[other] == old(entries[other])
      ensures id in entries ==> EntryFollowed(old(entries[id]), seen, current, settings, entries[id])
    {
      if Follows(seen.host, current, settings) {
        var moved := MoveEntry(id, seen, ToHost(AddressOf(settings)));
        if moved {
          return;
        }
      }
      if id !in entries {
        return;
      }
      ScheduleReload(id);
    }
  }

  // ------------------------------------------------- where an entry is sent

  /** Every address an entry follows its module to has been checked in that very
      save, unchanged fields and all: it is one a host can have in a working
      network, and not the gateway's. */
  lemma FollowedAddressWorks(host: Host, current: Changes, settings: Changes)
    requires IsReading(current) && IsTyped(settings) && Refusal(settings, current) == None
    requires Follows(host, current, settings)
    ensures var a := settings[IpAddress].address;
            && a != UNSET && IsHostAddress(a) && a != settings[Gateway].address
            && GoodNetwork(a, settings[Netmask].address, settings[Gateway].address)
  {
    ReadingIsTyped(current);
    RefusalExact(settings, current);
    FollowingChangesTheNetwork(host, current, settings);
  }

  lemma FollowingChangesTheNetwork(host: Host, current: Changes, settings: Changes)
    requires IsTyped(current) && IsTyped(settings) && Follows(host, current, settings)
    ensures NetworkDiffers(settings, current)
  {
    var fields := {Dhcp, IpAddress, Netmask, Gateway};
    assert Dhcp in fields && IpAddress in fields;
    assert Differs(settings, current, Dhcp) || Differs(settings, current, IpAddress);
  }

  /** An entry that named the module's own address, fixed or leased, names its
      new one afterwards when DHCP is off then. */
  lemma EntryStaysWithTheModule(host: Host, effective: Address, current: Changes, settings: Changes)
    requires IsTyped(current) && IsTyped(settings)
    requires host == Ipv4Literal(effective)
    requires !current[Dhcp].on ==> effective == current[IpAddress].address
    requires !settings[Dhcp].on
    ensures (if Follows(host, current, settings) then AddressOf(settings) else host) ==
            Ipv4Literal(settings[IpAddress].address)
  {
  }
}
