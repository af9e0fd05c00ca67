# A verified model of the WAGO 879 integration

The integration polls a WAGO 879-3000 energy meter through an 879-9000 Modbus
gateway module, sets the module up from a page of its own, and keeps its config
entry and its entities tied to the meter when addresses, entity ids and modules
change. This project models the parts in which a mistake would lose data or
leave a module unreachable, and proves what they are for, for every input and
every run.

| file | what it models |
|---|---|
| `Registers.dfy` | the two register blocks, the eleven fields of them a user may change, their coding, and what replacing fields does to whole blocks |
| `ModuleWrites.dfy` | one attempt to write the module, request by request, with every request acknowledged, lost after its effect or lost before it; the module holds working, stored and active copies of its words |
| `WriteInterleavings.dfy` | any number of attempts at once on one module and its lock |
| `ModuleApi.dfy` | `WagoModule.async_write` as a class over a Modbus unit, tied to the attempt above |
| `Bits.dfy`, `Ipv4.dfy`, `DottedQuad.dfy` | netmasks, networks, host addresses, and addresses as text |
| `ModuleSettings.dfy` | what the module's page accepts, and the form it shows |
| `OptionsFlow.dfy` | the page object over all of its saves, failed ones included |
| `SavedNetworks.dfy` | what saves from any pages, stale or open at the same time, make of the module's network |
| `Entries.dfy`, `EntryFlows.dfy` | moving a config entry, alone and among other flows, users and deletions |
| `ModuleSerials.dfy`, `ModuleDevices.dfy` | serial numbers as text; the device kept for the module an entry reaches, and whose entry a found module is |
| `DeviceSetUps.dfy` | setups of any entries side by side on one device registry |
| `EntityRegistry.dfy`, `Adoption.dfy`, `EntityIdRename.dfy` | the entity registry, adopting the YAML block's entity ids, renaming generated ones |
| `LoggingPolicy.dfy` | masking an identifier wherever it occurs in a text |
| `Wrappers.dfy`, `Texts.dfy` | results that may be absent or refused; joining texts |

Where the source updates an object, the model is a class whose methods are
proved against a function of the old state; what the source promises is then
proved of that function. Where tasks interleave between two awaits, the model
is a state machine and its theorems speak of every run.

Five promises do not hold as broadly as one might read them. The code is kept
as it is, and the model says where the line runs:

- `redact` can leave an identifier readable. Exactly those are masked out of
  every text of which the mask holds no start at its end, no end at its start
  and not the whole, whatever counts as the same letter
  (`LoggingPolicy.SafeExactly`). A name written with its final dot is never
  among them (`LoggingPolicy.FinalDotIsUnsafe`); for names and addresses whose
  dots stand apart it comes down to the shown tail
  (`LoggingPolicy.DotsApartSafeExactly`).
- Two pages open at once can each pass the checks and together leave an
  inconsistent network (`SavedNetworks.MergedPagesCanDisagree`). A save from any
  page keeps the network exactly when the page's own checks pass on what the
  module held as the write got the lock, overlaid with what the page sends
  (`SavedNetworks.AnySaveKeepsExactly`, `SavedNetworks.TwoPagesKeepExactly`), and
  two pages always do if at most one of them changes a network field
  (`SavedNetworks.OnePageMayChangeTheNetwork`).
- After a failed save a page sends all it shows. A retry, whatever becomes of it,
  leaves another writer's value of a field alone exactly if the page shows that
  value or the write of the field's block has no effect
  (`OptionsFlow.RetryKeepsExactly`, `OptionsFlow.RetryUndoesAnother`).
- A setup lists its entry's module devices before it waits for the module and
  removes the ones that are not the module's afterwards. It touches its own
  entry's devices only exactly if none of them has come back as another entry's
  meanwhile (`DeviceSetUps.OwnDevicesOnlyExactly`). That never happens where the
  registry gives a device that comes back a new id
  (`DeviceSetUps.NewIdsTouchOwnOnly`), and can where it gives it the old one
  (`DeviceSetUps.AnothersDeviceCanGo`).
- The undo in `async_adopt_legacy_entities` restores the entity id exactly when
  no one serves a state under it (`Adoption.AdoptOne`); it is never reached,
  since resolving refuses every such registry first.

## Model

| member | source | states |
|---|---|---|
| Registers.FieldsAreDisjoint | custom_components/wago_879/wago_879_api/registers.py:218-243 | no register belongs to two writable fields |
| Registers.FieldIsInsideItsBlock | custom_components/wago_879/wago_879_api/device.py:288-290 | the block chosen as the last one starting at or before a field holds the whole field, so replacing it never changes the block's length |
| Registers.FieldsFillTheNetworkBlock | custom_components/wago_879/wago_879_api/registers.py:229-243 | the ten network fields fill registers 0x64 to 0x83 in the tool's order without a gap, and the timeout is register 3 |
| Registers.DecodeEncode | custom_components/wago_879/wago_879_api/device.py:197-202 | a writable value of any of the eleven fields, coded into exactly the field's words, reads back as itself |
| Registers.WrittenRegisters | custom_components/wago_879/wago_879_api/device.py:197-202 | after any write, an address's first register holds its high half and the second its low half, the timeout's register the number, a switch's 1 or 0 |
| Registers.ReadRegisters | custom_components/wago_879/wago_879_api/device.py:250-263 | for any registers, an address is read high half first, the timeout as its register, a switch as on for every word but 0 |
| Registers.WrittenName | custom_components/wago_879/wago_879_api/device.py:200-201 | after any write, register i of the host name holds character 2i in its high byte and 2i + 1 in its low one, and zero past the end |
| Registers.ReadName | custom_components/wago_879/wago_879_api/device.py:259 | for any registers, the host name is their bytes, high byte first, up to the first zero |
| Registers.PatchField | custom_components/wago_879/wago_879_api/device.py:286-290 | a write replaces exactly the words of the fields it names and leaves the words of every other field |
| Registers.PatchKeepsRest | custom_components/wago_879/wago_879_api/device.py:271-272 | every word that holds no writable field stays as it was |
| Registers.PutGet | custom_components/wago_879/wago_879_api/device.py:223-290 | reading after a write reports the new value of each changed key and the previous value of every other one |
| Registers.PatchTwice | custom_components/wago_879/wago_879_api/device.py:275-290 | two writes in turn amount to one with the later values winning |
| Registers.PatchesCommute | custom_components/wago_879/wago_879_api/device.py:275-290 | writes of different fields may take the lock in either order |
| Registers.FullPatch | custom_components/wago_879/config_flow.py:615-619 | sending all eleven fields makes the result independent of what an earlier failed write left in them |
| Registers.PatchWithin | custom_components/wago_879/wago_879_api/device.py:291-292 | one patched block beside the other unpatched one is the patch by that block's changes alone |
| ModuleWrites.AttemptAmounts | custom_components/wago_879/wago_879_api/device.py:277-297 | for any answers, taken or lost: working is patched by the changes of the blocks whose write took effect; stored and active only ever become the registers with all changes in them; the attempt is at its n-th request exactly after n acknowledgements |
| ModuleWrites.ResultOfAttempt | custom_components/wago_879/wago_879_api/device.py:266-297 | the three endings, each if and only if the answers say so; not applied exactly for "store" acknowledged and "apply" not, and then working and stored are the patched blocks |
| ModuleApi.SpliceIsPatch | custom_components/wago_879/wago_879_api/device.py:286-290 | replacing the slice at a field's offset in its block is the patch of that one field |
| ModuleApi.WagoModule.PatchBlocks | custom_components/wago_879/wago_879_api/device.py:278-290 | the loop over the changes, in any order, turns the words read into their patch by all changes |
| ModuleApi.WagoModule.AsyncWrite | custom_components/wago_879/wago_879_api/device.py:266-297 | the requests sent, six at most and none beyond the attempt's end, the device they leave and the ending are those of one attempt |
| ModuleApi.ModbusUnit.WriteRegisters | custom_components/wago_879/wago_879_api/device.py:269-274 | a block write that took effect changes that working block and nothing else, answered or not |
| ModuleApi.ModbusUnit.WriteRegister | custom_components/wago_879/wago_879_api/registers.py:207-215 | a command that took effect stores the registers at 0x03F2 and makes them active at 0x03F1, answered or not |
| WriteInterleavings.RunsAreSerial | custom_components/wago_879/wago_879_api/device.py:275-297 | in every reachable state of any interleaving the device is what the lock's holders, one after the other, made of it, and every task stands where its own turn alone would have brought it |
| WriteInterleavings.RunningIsEnabled | custom_components/wago_879/wago_879_api/device.py:277-292 | exactly the lock's holder can take the next answer |
| WriteInterleavings.WorkingIsPatchedInTurn | custom_components/wago_879/wago_879_api/device.py:275-292 | at any moment working is the initial blocks patched in lock order by what each attempt's blocks carried |
| WriteInterleavings.StoreFollowsBothBlocks | custom_components/wago_879/wago_879_api/device.py:291-295 | "store" is sent exactly after both blocks of the same attempt were acknowledged, "apply" exactly after "store" was, with the module holding that attempt's blocks |
| WriteInterleavings.EndedTasks | custom_components/wago_879/wago_879_api/device.py:269-297 | what each task is told, if and only if its own answers say so; told anything but failure, stored was its found registers with all of its changes |
| WriteInterleavings.NetOfAnswered | custom_components/wago_879/wago_879_api/device.py:275-276 | with all requests answered, each field's net change is that of the last task to name it |
| WriteInterleavings.NothingIsLost | custom_components/wago_879/wago_879_api/device.py:275-276 | with all requests answered, no task's change is lost and all three copies agree |
| WriteInterleavings.StoredByOneTurn | custom_components/wago_879/wago_879_api/device.py:269-293 | whatever fails, stored is what it was, or all of one turn's changes over what the turns before it had left in the registers, halves of failed ones included |
| Ipv4.PrefixOfExact | custom_components/wago_879/module_settings.py:79-82 | reading a netmask by its trailing zeros accepts exactly the netmasks of the 33 prefixes |
| Ipv4.InterfaceExact | custom_components/wago_879/module_settings.py:73-86 | with host masks read too and only the canonical form kept, exactly 2^32 - 2^(32-p) for p in 1..30 passes, as prefix p |
| Ipv4.EdgeIsEnd | custom_components/wago_879/module_settings.py:92-93 | the network and broadcast address computed bit by bit are the first and last address of the block that shares the prefix |
| Ipv4.InNetworkIsShared | custom_components/wago_879/module_settings.py:101 | lying in the network is sharing its first p bits |
| Ipv4.CheckNetworkExact | custom_components/wago_879/module_settings.py:89-102 | accepted exactly when the address is a usable non-edge one of a usable netmask's network and the gateway is unset or a different usable non-edge one of the same network; each refusal exactly for its reason |
| Ipv4.HostAddressExact | custom_components/wago_879/wago_879_api/addresses.py:11-25 | the arithmetic test of a host address is lying in none of 0.0.0.0/8, 127.0.0.0/8, 224.0.0.0/4, 169.254.0.0/16 and 240.0.0.0/4, by their masks |
| DottedQuad.TextParses | custom_components/wago_879/module_settings.py:44-49 | the text of an address reads back as that address |
| DottedQuad.ParseExact | custom_components/wago_879/module_settings.py:44-49 | a text is read as an address exactly when it is that address's canonical text, so comparing texts is comparing addresses |
| DottedQuad.TextOfOctets | custom_components/wago_879/module_settings.py:44-49 | the text names the four octets from the highest to the lowest |
| DottedQuad.AddressesAsWritten | custom_components/wago_879/module_settings.py:44-49 | two addresses, with every digit in one of them, letter by letter |
| ModuleSettings.FillSettings | custom_components/wago_879/module_settings.py:105-110 | every field of the form read in the code's order, or the first error in reading them |
| ModuleSettings.TypedAddressExact | custom_components/wago_879/module_settings.py:44-49 | a typed text is read as an address exactly if it is that address's text with nothing but blanks around it, or nothing but blanks for 0.0.0.0 |
| ModuleSettings.ReadExact | custom_components/wago_879/module_settings.py:44-60 | the form is read as exactly what was typed; refused as no address exactly if some address text is no address's, and else as no whole number exactly if no whole number equals what was typed |
| ModuleSettings.AcceptedAsTyped | custom_components/wago_879/module_settings.py:105-129 | what is accepted, and then written, is what was typed, field by field |
| ModuleSettings.CheckSettings | custom_components/wago_879/module_settings.py:114-129 | the checks in the code's order give the first refusal among the changed fields |
| ModuleSettings.Settings | custom_components/wago_879/module_settings.py:132-143 | the settings to write, or the one error that stops them |
| ModuleSettings.RefusalExact | custom_components/wago_879/module_settings.py:111-129 | a submission passes exactly when every changed field is usable and, if a network field changed with DHCP off, the whole network works |
| ModuleSettings.RefusalBlames | custom_components/wago_879/module_settings.py:63-128 | each error is raised only for what it names: which changed field is unusable, or what is wrong with the fixed network |
| ModuleSettings.HostnameExact | custom_components/wago_879/module_settings.py:24-28 | the pattern and length accept exactly the labels of at most 31 letters, digits and inner hyphens |
| ModuleSettings.HostnameLeavesAZero | custom_components/wago_879/module_settings.py:24-28 | an accepted name leaves the last byte of its registers zero |
| ModuleSettings.AcceptedIsWritable | custom_components/wago_879/module_settings.py:132-139 | accepted settings can always be coded into the registers, unchanged odd values included |
| ModuleSettings.ChecksKeepTheNetwork | custom_components/wago_879/module_settings.py:111-128 | checking only what changed keeps a working network working and a usable netmask usable |
| ModuleSettings.PageRoundTrip | custom_components/wago_879/config_flow.py:521-527 | for every content of the 37 words, the form as shown is accepted and gives back exactly the values read |
| ModuleSettings.ShownAddress | custom_components/wago_879/config_flow.py:521-527 | the form shows every address by its own text, empty exactly for an unset one other than the netmask |
| ModuleSettings.ShownOthers | custom_components/wago_879/config_flow.py:521-527 | the form shows the name, the switches and the timeout as they are |
| OptionsFlow.WritesNothingExactly | custom_components/wago_879/config_flow.py:612-622 | a save sends nothing exactly when the form came back as shown and no earlier save failed |
| OptionsFlow.WagoOptionsFlow.SendChanges | custom_components/wago_879/config_flow.py:612-630 | the changes sent, the ending and the failed flag are those of one save |
| OptionsFlow.WagoOptionsFlow.AsyncWrite | custom_components/wago_879/config_flow.py:605-650 | the whole save, with entries changed by others while it waits: the module's new state, the entry's, and which of the four replies the user gets, "entry changed" exactly for a finished write whose entry is gone |
| OptionsFlow.WagoOptionsFlow.StepModule | custom_components/wago_879/config_flow.py:588-596 | a refused form changes nothing at all; an accepted one is saved as above |
| OptionsFlow.UntouchedFieldsStay | custom_components/wago_879/config_flow.py:612-627 | from any snapshot, torn or stale, a page without a failed save leaves every field the user left as shown at the words the module held when the lock was taken, even if requests are lost |
| OptionsFlow.RetryKeepsExactly | custom_components/wago_879/config_flow.py:615-619 | for any answers to a retry: a field left as shown keeps the module's value if and only if the page shows that value or its block's write had no effect; what is stored for it becomes what the page shows exactly as "store" took effect, answered or not |
| OptionsFlow.RetryUndoesAnother | custom_components/wago_879/config_flow.py:615-619 | on every module, for every field the page left alone: a lost save, another writer's finished one of that field and the retry end with the other writer's value gone |
| OptionsFlow.FirstSaveThatGoesThrough | custom_components/wago_879/config_flow.py:605-650 | after any failed saves of a page, fields set back or not, the first save that ends finished or stored leaves stored with exactly the eleven submitted settings, the first words patched by them, every other word as before the first attempt |
| OptionsFlow.FailedSavesCanBeMadeGood | custom_components/wago_879/config_flow.py:615-619 | whatever failed saves left behind, the next save whose requests are all answered finishes, with stored and active reading exactly as submitted |
| OptionsFlow.UnansweredSaveFails | custom_components/wago_879/config_flow.py:626-650 | a save that ran to its end failed exactly when a block or "store" went unanswered, is not applied exactly when only "apply" did, and finished exactly when every request was answered |
| OptionsFlow.SentIsStored | custom_components/wago_879/config_flow.py:612-640 | the same for any state failed saves can leave |
| OptionsFlow.FailuresDisturb | custom_components/wago_879/config_flow.py:626-637 | failed saves leave the rest of the words alone and the page remembers that they happened |
| OptionsFlow.EntryEndsAtTheStoredAddress | custom_components/wago_879/config_flow.py:656-678 | if the entry named the module's effective address and DHCP ends off, the entry names the stored address, and any address it was moved to works in the stored network |
| SavedNetworks.NetworkAfterSave | custom_components/wago_879/wago_879_api/device.py:275-293 | from any page and with any requests lost, the module's network ends as it was or as the merge of its values with the changes sent, exactly as the network block's write took effect, and only what is in the registers is stored |
| SavedNetworks.AnySaveKeepsExactly | custom_components/wago_879/module_settings.py:111-129 | from any page, stale or torn: the network is consistent afterwards, and its netmask usable, if and only if the page's checks pass on that merge |
| SavedNetworks.NetworkIsWrittenWhole | custom_components/wago_879/wago_879_api/device.py:275-293 | a page that agrees on the network, or retries, leaves it as it was or wholly as sent |
| SavedNetworks.PagesKeepTheNetwork | custom_components/wago_879/module_settings.py:111-129 | over every run of pages, overlapping ones included, whose saves pass the checks and agree on the network fields: "DHCP off goes with a consistent network" is kept and, on its own, "the netmask is usable", working and stored |
| SavedNetworks.PagesMayOverlap | custom_components/wago_879/config_flow.py:579-587 | such runs do overlap: a page stays open and in agreement while another sends whatever does not concern the network |
| SavedNetworks.TwoPagesKeepExactly | custom_components/wago_879/module_settings.py:111-129 | two pages opened whenever leave a consistent network if and only if the checks pass on the module's values overlaid with both pages' changes |
| SavedNetworks.OnePageMayChangeTheNetwork | custom_components/wago_879/module_settings.py:127-128 | two pages opened on the same network keep it consistent if at most one of them changes a network field, whatever is lost |
| SavedNetworks.MergedPagesCanDisagree | custom_components/wago_879/module_settings.py:127-128 | two pages that each pass can together break the network, on every module holding a certain one |
| SavedNetworks.HeldCanBeSet | custom_components/wago_879/module_settings.py:89-98 | every module can be brought to hold that network |
| Entries.ConfigEntries.MoveEntry | custom_components/wago_879/config_flow.py:279-316 | moves exactly if the entry still is what was seen, changing the named parts of the connection only; the title stays unless it was the old address, and then names the meter; one reload, none only for an unchanged entry that is listening |
| Entries.ConfigEntries.FollowModule | custom_components/wago_879/config_flow.py:656-678 | exactly one reload while the entry exists; the entry is moved to the module's new address exactly if it is unchanged, names another address, by a literal and not a host name, that was the module's or may be its lease, and DHCP is off; else it keeps everything |
| Entries.FollowsExactly | custom_components/wago_879/config_flow.py:664-670 | which entries follow, in terms of the values: a host name never does |
| Entries.FollowedAddressWorks | custom_components/wago_879/config_flow.py:664-670 | an address the entry is moved to passed the network check in the same save: not unset, not an edge, not the gateway |
| Entries.EntryStaysWithTheModule | custom_components/wago_879/config_flow.py:664-673 | an entry at the module's fixed or leased address is at its new one when DHCP is off afterwards |
| SavedNetworks.HeldIsFollowed | custom_components/wago_879/config_flow.py:664-670 | following happens: an accepted change of that network's address takes along an entry that names it |
| EntryFlows.FlowsAreOnRecord | custom_components/wago_879/config_flow.py:387-402 | in every run, a flow under way began on the entry as it then was and got its answer later from whoever was at that address |
| EntryFlows.NoLostUpdate | custom_components/wago_879/config_flow.py:279-316 | whenever a commit takes effect the entry it replaces equals what its flow decided on; without effect, or on a deleted entry, nothing changes |
| EntryFlows.WhatWasSetStays | custom_components/wago_879/config_flow.py:288-295 | a commit takes effect if and only if the entry is there and as the flow saw it |
| EntryFlows.FollowedModuleAnswered | custom_components/wago_879/config_flow.py:451-463 | the search only points an entry at an address where a module answered with the found serial during that very flow, never replaces a host name, and changes nothing but the host |
| EntryFlows.ReconfiguredMeterAnswered | custom_components/wago_879/config_flow.py:387-402 | a reconfigured entry only points to where the meter of its own unique id answered during that flow, and nothing but the connection changes |
| EntryFlows.HostNamesStay | custom_components/wago_879/config_flow.py:456-462 | neither the search nor the module's page ever commits to an entry that names a host, not even one named while they waited |
| EntryFlows.FollowingIsAFlow | custom_components/wago_879/config_flow.py:664-673 | whenever an entry follows the module, the page's flow moves it, and to the same data |
| EntryFlows.PageChangesTheHostOnly | custom_components/wago_879/config_flow.py:671-673 | a page's commit changes the host to the address it wrote and nothing else |
| ModuleSerials.SerialsAreNumbers | custom_components/wago_879/wago_879_api/device.py:239-241 | zero-padded serial texts are equal exactly when the register numbers are |
| ModuleSerials.SerialsAsWritten | custom_components/wago_879/wago_879_api/device.py:239-241 | two serials, with every hexadecimal digit in one of them, letter by letter |
| ModuleDevices.DeviceRegistry.Resume | custom_components/wago_879/__init__.py:236-252 | what follows the answer: the device registered, the listed others removed, those already gone passed over, and the device the setup goes on with |
| ModuleDevices.DeviceRegistry.AsyncModule | custom_components/wago_879/__init__.py:218-252 | the whole setup, with other setups while it waits: an answer that settles it leaves the entry exactly one device of a module, the answering one's with its serial, or none; any other leaves the devices as they are by then and goes on with the first one listed; no meter's device is removed or changed |
| ModuleDevices.ResumeSettles | custom_components/wago_879/__init__.py:244-252 | however the registry changed meanwhile, a settled answer leaves the entry its module's device or none, and the registry sound |
| ModuleDevices.ResumeGivesOthersNothing | custom_components/wago_879/__init__.py:244-252 | no other entry gets a module device from it |
| ModuleDevices.ResumeKeepsMeters | custom_components/wago_879/__init__.py:229-233 | a setup neither removes nor changes a device that is not a module's, for any answer |
| ModuleDevices.ResumeKeepsOthers | custom_components/wago_879/__init__.py:244-252 | other entries keep every module device but the removed ones, and no device loses an entry |
| ModuleDevices.SetUpExactly | custom_components/wago_879/__init__.py:244-252 | nothing but the entry's own devices is touched if and only if every listed device still there is still the entry's, the module's own aside |
| DeviceSetUps.WaitingSeesMeantime | custom_components/wago_879/__init__.py:229-235 | over every run of setups side by side, what others do while one waits gives its entry no module device |
| DeviceSetUps.SettledLeavesOne | custom_components/wago_879/__init__.py:244-252 | in every run, a settled setup leaves its entry exactly the answering module's device, or none |
| DeviceSetUps.MetersStayInRuns | custom_components/wago_879/__init__.py:229-233 | over every run of setups side by side, every meter's device stays as it was |
| DeviceSetUps.OwnDevicesOnlyExactly | custom_components/wago_879/__init__.py:249-251 | in every run, a setup touches its own entry's devices only if and only if none of those it listed has come back as another entry's |
| DeviceSetUps.NewIdsTouchOwnOnly | custom_components/wago_879/__init__.py:249-251 | where devices come back under new ids, every setup of every run touches its own entry's devices only |
| DeviceSetUps.AnothersDeviceCanGo | custom_components/wago_879/__init__.py:249-251 | where they come back under old ids: three entries, one module, and a setup that removes the device of the entry that has it now |
| DeviceSetUps.GoneExactly | custom_components/wago_879/__init__.py:249-251 | a listed device is gone when the answer comes if and only if a setup of another entry that had listed it too has removed it since and none brought it back |
| DeviceSetUps.StepModules | custom_components/wago_879/__init__.py:240-252 | from one moment of a run to the next an entry gets no module device and no serial but by its own settled setup |
| DeviceSetUps.OneModuleAtMost | custom_components/wago_879/__init__.py:218-252 | over every run of setups side by side, once settled or once at most one, at most one module device from then on |
| ModuleDevices.ModuleSerialOf | custom_components/wago_879/config_flow.py:224-235 | the serial of a device of the entry that is a module's, never a meter's; none exactly without one |
| ModuleDevices.EntryOf | custom_components/wago_879/config_flow.py:249-256 | the first entry the serial names; only if it names none, the first without a module device that names the address; none exactly when there is neither |
| ModuleDevices.EntryOfIsUnique | custom_components/wago_879/config_flow.py:243-256 | a found module resolves to one entry or to none |
| ModuleDevices.TwoModulesOneEntry | custom_components/wago_879/config_flow.py:243-256 | two modules of different serials resolve to one entry only if the registry has no module device of it and both named its host |
| DeviceSetUps.SerialsSinceSettled | custom_components/wago_879/__init__.py:225-252 | over every run, since the last setup that settled an entry's module, its serials are the settled one or none |
| DeviceSetUps.LetGoCannotClaim | custom_components/wago_879/__init__.py:225-228 | over every run of setups side by side after that one, a found module resolves to the entry only by the settled serial or, with no module device left, by the address it names |
| EntityRegistry.EntityRegistry.Remove | custom_components/wago_879/migration.py:171-175 | removing keeps the index exact, remembers the entry and takes a placeholder state along |
| EntityRegistry.EntityRegistry.GetOrCreate | custom_components/wago_879/migration.py:129-133 | a removed entry's own entity id, if free, wins over the suggested one |
| EntityRegistry.EntityRegistry.Rename | custom_components/wago_879/entity_id_rename.py:63-66 | moves the entry with all it has exactly when the target is free, and otherwise changes nothing |
| Adoption.Resolve | custom_components/wago_879/migration.py:84-146 | gives the complete list exactly when nothing stands in the way of any legacy entry; otherwise names the first entry obstructed and the first thing in its way |
| Adoption.AdoptOne | custom_components/wago_879/migration.py:162-208 | succeeds exactly when the registry is clear for it; otherwise undone, at its own entity id exactly when no one serves a state there, with the removed new entry in the way of the next attempt |
| Adoption.CopyOptions | custom_components/wago_879/migration.py:200-203 | the legacy options lie over what was there, all other entries as before |
| Adoption.Adopt | custom_components/wago_879/migration.py:149-208 | all or nothing: refused with the registry as it was, or every planned adoption made; a taken entity id is never met |
| Adoption.PlanFits | custom_components/wago_879/migration.py:84-90 | what resolving returns can be applied without a further decision |
| Adoption.RestStaysReady | custom_components/wago_879/migration.py:162-208 | each adoption leaves the registry consistent and the ones after it possible |
| Adoption.AdoptedExactly | custom_components/wago_879/migration.py:65-81 | the set of entity ids is conserved; each adopted entry has the user's fields and options, disabled and hidden if the user had set them; every other entry is unchanged |
| Adoption.OnlyTheUsersChoicesTravel | custom_components/wago_879/migration.py:65-81 | for every adopted entry: the user's own fields and all options come along over what was remembered, disabled and hidden exactly if the user had set them, and nothing else; it is the new unique id's and this config entry's |
| Adoption.UniqueIdsAsWritten | custom_components/wago_879/migration.py:117 | the unique ids as the registry has them |
| Adoption.EveryLegacyIdIsAdopted | custom_components/wago_879/migration.py:1-14 | no legacy unique id is left, each entity id it held is now its new unique id's, and no other new unique id appears |
| Adoption.KeysAfter | custom_components/wago_879/migration.py:162-176 | the unique ids afterwards are the old ones with the planned legacy ones replaced |
| Adoption.SecondPassDoesNothing | custom_components/wago_879/migration.py:152-155 | a second pass over the adopted registry is not refused and has nothing to do |
| Adoption.LegacyIsDistinct | custom_components/wago_879/entity_descriptions.py:64-78 | the shipped table names no unique id and no field twice |
| EntityIdRename.RenameGeneratedEntityIds | custom_components/wago_879/entity_id_rename.py:49-73 | in any order of entries: the registry stays consistent, every unique id keeps its entry with all it carries, only ids generated from the host move, each to the device's one, and one that stayed had that id taken |
| EntityIdRename.FreeTargetIsTaken | custom_components/wago_879/entity_id_rename.py:58-66 | an entry whose target is free and wanted by no other candidate does move |
| EntityIdRename.MovedIdsReadLikeThis | custom_components/wago_879/entity_id_rename.py:39-66 | every id that moved was made from the host and the entity's name, in this order, and is now made from the maker, the serial's last four characters and the entity's name |
| EntityIdRename.CandidatesReadLikeThis | custom_components/wago_879/entity_id_rename.py:56-62 | exactly the entries of this meter with a name and an id made from the host and that name are considered |
| EntityIdRename.NothingLeftToMove | custom_components/wago_879/entity_id_rename.py:52 | once every id has moved the pass leaves the registry as it is |
| EntityIdRename.NumberStays | custom_components/wago_879/entity_id_rename.py:49-73 | the number of entries is conserved |
| EntityIdRename.AdoptedIdStays | custom_components/wago_879/entity_id_rename.py:18-19 | an adopted entity id survives every sequence of later passes, of any hosts and serials, unless it reads exactly like the one a host generates |
| EntityIdRename.FreshlyAdoptedStays | custom_components/wago_879/__init__.py:155-173 | in the setup that adopts, the pass right after moves no adopted id |
| LoggingPolicy.RedactKeepsTheGaps | custom_components/wago_879/logging_policy.py:49-62 | for every way of cutting the text at its leftmost occurrences, the result is the same gaps with a mask for each occurrence |
| LoggingPolicy.CutExists | custom_components/wago_879/logging_policy.py:61-62 | every text has such a cut |
| LoggingPolicy.MaskShows | custom_components/wago_879/logging_policy.py:33-46 | a mask shows nothing of an identifier of at most four characters, and the last four of a longer one behind three dots |
| LoggingPolicy.WrittenAnyWayIsMasked | custom_components/wago_879/logging_policy.py:56-62 | an identifier is masked however its letters are written, and a text of its length that differs in a letter is left alone |
| LoggingPolicy.FoundWhateverTheCase | custom_components/wago_879/logging_policy.py:56-62 | texts that differ in letter case only have their occurrences at the same places |
| LoggingPolicy.RedactLeavesNothing | custom_components/wago_879/logging_policy.py:49-57 | where no two occurrences overlap within the shown tail, no occurrence is left, not even across a mask's edge |
| LoggingPolicy.RedactTwice | custom_components/wago_879/logging_policy.py:49-62 | under the same conditions a second redaction changes nothing |
| LoggingPolicy.SafeLeavesNothing | custom_components/wago_879/logging_policy.py:49-62 | an identifier of which the mask holds no start, no end and not the whole is left in no text, with no condition on its dots or on letter case |
| LoggingPolicy.SafeExactly | custom_components/wago_879/logging_policy.py:42-62 | for every non-empty identifier: masked out of every text if and only if the mask holds no start of it at its end, no end of it at its start and not the whole |
| LoggingPolicy.DotsApartSafeExactly | custom_components/wago_879/logging_policy.py:42-62 | if its dots stand apart, that is: it does not start like the tail shown of it ends |
| LoggingPolicy.FinalDotIsUnsafe | custom_components/wago_879/logging_policy.py:42-62 | every identifier that ends in a dot, like a fully qualified name, reappears in some redacted text |
| LoggingPolicy.ShortLeadingDotIsUnsafe | custom_components/wago_879/logging_policy.py:42-62 | so does every one of at most five characters that starts with a dot |

## Left out

- RedactLeavesNothing: looks at one text, and asks that the identifier's dots stand apart (none at an end, no two in a row) and that only a dot counts as a dot when case is ignored; SafeExactly asks neither. Which characters count as the same is left open as a function.
- PagesKeepTheNetwork: each save's page agrees with the module on the network fields, or retries; AnySaveKeepsExactly says when other saves keep it.
- FirstSaveThatGoesThrough: no one else writes to the module between the page's opening and that save, as the page itself assumes.
- EntryEndsAtTheStoredAddress: the entry is not changed by others during the save; what happens if it is, AsyncWrite states.
- AsyncWrite: one attempt between taking and releasing the lock; waiting for the lock and other tasks are in WriteInterleavings. A cancelled task is not modelled, and a page's save that got no further counts as failed.
- AsyncModule: whether removing a device that is gone raises is the registry's to say; it does nothing here, and GoneExactly says when it is asked to. The registry lists devices by their ids here.
- OneModuleAtMost: an entry has one setup at a time, and devices are changed by setups only, not by users or by removing an entry.
- FlowsAreOnRecord: a flow's probe is one step that sees who answers at that moment.
- DecodeEncode: a host name is one byte per character, two per word, zeros to the end, as `tests/test_module.py:23-26` lays one out; the codec itself belongs to modbus_connection, which is not part of this model.
- Modbus transport, timeouts, reconnects and asyncio: a request is acknowledged, lost after its effect, or lost before it. A request that takes effect only after later ones is not modelled.
- Reading the module in three requests without the lock: a torn snapshot is an arbitrary page content, and the properties that hold for any snapshot say so.
- Codes, versions and the serial side that a read reports besides the eleven fields.
- More than one `WagoModule` object at once, as across a reload: each has its own lock.
- Settings hold addresses as 32-bit numbers; `DottedQuad.ParseExact` is why comparing them is comparing the texts the code compares.
- Hosts come classified as IPv4 literal, IPv6 literal or name; parsing and normalising what a user typed as a host is not modelled, nor are other spellings of one address.
- Form numbers are mathematical reals; float parsing is not modelled. The host name pattern is stated in closed form.
- Home Assistant's entity, device and entry registries are contracts of what the integration relies on; events, storage, timing of state removal and the recorder are outside.
- `slugify` is an arbitrary function.
- Search replies, their sockets and the probe cache: a found module is an input.
- Moving the poll intervals from data to options: a short copy between two maps.
- Sensors, coordinators, entity descriptions other than the legacy table, forms, translations, diagnostics, repairs and the log filter.
