# shSRControl in Dafny

shSRControl is an ESP8266/ESP32 library for WiFi relay control. A **relay
module** drives relays wired to its pins and answers UDP datagrams. A
**switch module** holds *bindings*, each tying a button to a relay of a remote
module by name. It finds the relays by broadcasting a discovery request and
sends each found relay commands at the address its reply came from. Both
sides use a small JSON vocabulary:

- requests carry `name` and `command` (`switch`, `set_on`, `set_off`, `respond`, and the name `any_relay` for all relays);
- replies carry `name`, `descr`, `for` and `resp`.

Local buttons are classified by `srButton`, a debouncer and click classifier
polled once per loop.

The model covers:

- the current library (`src/shSRControl.cpp`, `src/shSRControl.h`):
  - the relay responder (`RelayResponder`);
  - the switch initiator (`SwitchInitiator`);
  - the configuration document both roles save and load, the restore of saved relay states and the page-path normalisation (`Config`);
  - the broadcast-address computation (`Network`) and the JSON envelope (`Wire`).
- the button classifier `srButton` (`Buttons`), on top of the wrapping millisecond clock (`Clock`).
- the earlier protocol revision in the repository root (`shSRControl.cpp`, `shSRControl.h`): `RelayControl` and `SwitchControl`, which name the relay under `relay` and reply `for: "command"`.
- `Protocol`: lemmas that hand one role's datagrams to the other role (discovery and command round trips, in both revisions).

**Modelling approach.**

- **Steps as pure functions.** Every device step is a pure function from state and input to a `Reaction`: the next state plus the effects it emits, in order. An effect is a datagram to an address, some error beeps, or a rewrite of the configuration file.
- **Datagrams.** A datagram is the decoded map of JSON members, or `None` when the bytes are not JSON. `GetArgument` reproduces `get_argument`: `""` for undecodable text, for an absent member, and for the text `"null"`.
- **Clock.** `millis()` values are integers in `[0, 2^32)`. Every subtraction is written `(now - since) % 2^32`, the firmware's uint32 arithmetic.
- **Addresses.** IPv4 addresses are `bv32`, so `ip | ~mask` is computed bit for bit.
- **Relay on or off.** A relay is on when its pin carries its control level, as `get_relay_state` reads it back.

## Model

| member | source | states |
|---|---|---|
| Wire.AsString | src/shSRControl.cpp:829-851 | a member rendered as a String is its text, or "null" when it is absent |
| Wire.StringValue | src/shSRControl.cpp:1166-1169 | getStringValue maps "null" to "" and keeps every other text; the result is never "null" |
| Wire.GetArgument | src/shSRControl.cpp:882-887 | the member's text; "" for undecodable datagrams, absent members and "null"; a non-empty result is exactly the member's text |
| Wire.CommandMsg | src/shSRControl.cpp:907-918 | a command datagram has exactly the members name and command, and each reads back as given |
| Wire.ResponseMsg | src/shSRControl.cpp:889-905 | a reply has exactly name, descr, for and resp, and each reads back as given |
| Wire.FirstIndex | src/shSRControl.cpp:392-399 | the name-lookup loop returns the first index holding the name (none before it holds it), or -1 exactly when no entry holds it |
| Wire.IndexByName | src/shSRControl.cpp:386-403 | getRelayIndexByName: -1 exactly when the datagram's name is empty or unknown; otherwise the first entry with that non-empty name |
| Network.DirectedBroadcast | src/shSRControl.cpp:814 | `ip or not mask` keeps the network bits of ip and sets every host bit |
| Network.BroadcastAddress | src/shSRControl.cpp:809-827 | station broadcast when connected; otherwise the ESP32 soft-AP broadcast, or the ESP8266 soft-AP address with mask 255.255.255.0 |
| Network.DirectedBroadcastIsUnique | src/shSRControl.cpp:814 | the directed broadcast is the only address that keeps the network bits and sets all host bits |
| Network.ApBroadcastReplacesLastOctet | src/shSRControl.cpp:821-822 | the ESP8266 access-point broadcast keeps the first three octets and sets the last to 255 |
| Clock.Elapsed | src/shSRControl.cpp:631 | `millis() - checkTimer` in uint32 arithmetic is the true distance, modulo one wrap of the counter |
| Clock.ElapsedAfterAdvance | src/shSRControl.cpp:631-635 | the elapsed time measured across a wrap-around of millis() is the true duration |
| Buttons.GetFlag | srButton.cpp:7-11 | positions beyond the byte read as false |
| Buttons.SetFlag | srButton.cpp:13-19 | setFlag makes the bit read as written and leaves every other position as it was; positions beyond the byte change nothing |
| Buttons.WriteBitReads | srButton.cpp:17 | the bit operation of setFlag sets or clears exactly one bit |
| Buttons.FlagsViewIsFaithful | srButton.cpp:7-11 | the flag byte and its per-bit record view convert into each other without loss |
| Buttons.SetFlagUpdatesOneField | srButton.cpp:13-19 | setFlag on a named bit updates exactly the matching field of the record view |
| Buttons.ContactsClosed | srButton.cpp:21-34 | the raw level is inverted once for a pull-up input and once for a normally closed button; the two inversions cancel |
| Buttons.SetBtnUpDown | srButton.cpp:36-59 | a press with no pending click is DOWN and opens the double-click window; a press inside the window is DBLCLICK; a later press keeps the state; a release is UP; the debounce flag is cleared |
| Buttons.StablePoll | srButton.cpp:90-148 | a poll with an unchanged contact never changes timeouts, mode or wiring |
| Buttons.ChangePoll | srButton.cpp:150-175 | a poll with a changed contact never changes timeouts, mode or wiring |
| Buttons.Poll | srButton.cpp:76-178 | inside a running debounce window a poll changes nothing; no poll changes the configuration |
| Buttons.ResetButtonState | srButton.cpp:196-202 | pending clicks are forgotten and the state falls back to the contact flag |
| Buttons.SetLongClickMode | srButton.cpp:204-211 | the mode is stored; CLICKSERIES with no interval gets 100 ms; nothing else changes |
| Buttons.SecondButtonPressed | srButton.cpp:184-194 | true exactly when this button last reported the state and the other is closed; then both reset, otherwise neither changes |
| Buttons.ContactsTruthTable | srButton.cpp:21-34 | for each of the four wirings (pull-up or not, normally open or closed), the pin levels that count as closed contacts |
| Buttons.ResetThenStablePollReportsContact | srButton.cpp:196-202 | after a reset, the next poll of an unchanged contact reports PRESSED when closed (before the long-click timeout) and RELEASED when open |
| Buttons.ModeDecidesHeldReport | srButton.cpp:204-211 | after setting the long-click mode, a held button past its first long click reports PRESSED in ONLYONCE, LONGCLICK in CONTINUED, and in CLICKSERIES LONGCLICK once the 100 ms default interval has elapsed |
| Buttons.After | srButton.cpp:76-178 | no sequence of polls changes the button's configuration |
| Buttons.Reports | srButton.cpp:76-178 | one report per poll; the first is the first poll's state and the last is the state the sequence leaves the button in |
| Buttons.ReportsAppend | srButton.cpp:76-178 | polling two runs in a row reports the first run's states, then the second's from where the first left the button |
| Buttons.SameWiringSameReading | srButton.cpp:21-34 | buttons with the same configuration read a pin level alike |
| Buttons.DebounceWindowHolds | srButton.cpp:81-86 | a poll inside a running debounce window returns the button unchanged |
| Buttons.DebounceRevertedNoEdge | srButton.cpp:88-92 | a reading that reverted before the window closed produces no edge |
| Buttons.ChangeArmsDebounce | srButton.cpp:152-163 | a raw change arms the window, restarts the timer and reports the recorded contact, except during a continued long click |
| Buttons.ChangeWithoutDebounce | srButton.cpp:170-174 | without debouncing a change is classified at once: a first press is DOWN, a release UP |
| Buttons.StableOpenPoll | srButton.cpp:94-106 | released and stable: ONECLICK exactly when the double-click window expired with a virtual click pending, RELEASED otherwise |
| Buttons.HeldBeforeTimeoutIsPressed | srButton.cpp:107-110 | held before the long-click timeout: PRESSED, nothing else changes |
| Buttons.HeldPastTimeoutIsLongClick | srButton.cpp:111-121 | the first poll past the timeout reports LONGCLICK and sets the long-click bit |
| Buttons.HeldAfterLongClick | srButton.cpp:122-146 | after the first long click: PRESSED in ONLYONCE, LONGCLICK in CONTINUED, LONGCLICK every interval in CLICKSERIES |
| Buttons.DoubleClick | srButton.cpp:76-178 | without debouncing, press-release-press inside the window reports DOWN, UP, DBLCLICK |
| Buttons.DebouncedPress | srButton.cpp:150-168 | with debouncing, a press is reported as DOWN only on the first poll after the window |
| Buttons.OnlyOnceHoldStaysPressed | srButton.cpp:122-128 | in ONLYONCE mode every further poll of a held button reports PRESSED |
| Buttons.OnlyOnceLongClickFiresOnce | srButton.cpp:111-128 | in ONLYONCE mode a hold reports LONGCLICK exactly once, then only PRESSED |
| Buttons.SettledOpenStaysReleased | srButton.cpp:94-106 | an idle released button reports RELEASED on every poll |
| Buttons.VirtualClickFiresOnce | srButton.cpp:97-105 | a pending virtual click is reported as ONECLICK once, then RELEASED for ever |
| RelayResponder.DefaultSlot | src/shSRControl.h:27-32 | a default slot is free (empty name), pin 255, active high, off, no button |
| RelayResponder.NewSlot | src/shSRControl.h:33-42 | the named constructor stores its arguments and starts with last state off |
| RelayResponder.Init | src/shSRControl.cpp:163-175 | init(n) gives n default slots |
| RelayResponder.GetRelayState | src/shSRControl.cpp:949-963 | "on" exactly when the index names a slot whose pin carries its control level; "off" otherwise, out-of-range indices included |
| RelayResponder.WriteState | src/shSRControl.cpp:932-937 | the written pin level switches the relay to the requested state whatever its control level, and the last state records it |
| RelayResponder.SaveEffects | src/shSRControl.cpp:938-941 | a state change rewrites the configuration exactly when states persist |
| RelayResponder.SetLocalRelayState | src/shSRControl.cpp:928-947 | an existing relay then reports the requested state and may be saved; other relays are untouched; an index out of range changes nothing |
| RelayResponder.SwitchLocalRelay | src/shSRControl.cpp:920-926 | an existing relay reports "on" afterwards exactly when it reported "off" before; others are untouched |
| RelayResponder.SwitchTwiceRestores | src/shSRControl.cpp:920-947 | switching twice restores the pin and the reported state, and the whole module when the last state was in step |
| RelayResponder.SetLocalRelayStateIdempotent | src/shSRControl.cpp:928-947 | setting the same state twice is setting it once |
| RelayResponder.AddRelay | src/shSRControl.cpp:177-203 | true exactly when a free slot exists; the first free slot takes the relay with its pin at the off level; a full module is unchanged |
| RelayResponder.AddedRelayStartsOff | src/shSRControl.cpp:190-196 | an added relay reports "off" and has last state off |
| RelayResponder.AddedRelayFoundByName | src/shSRControl.cpp:386-403 | a relay added under a new name is the slot a datagram with that name is looked up to |
| RelayResponder.CheckReply | src/shSRControl.cpp:303-306 | the discovery reply goes to the sender, for "respond", with resp "ok" |
| RelayResponder.RespondToRelayCheck | src/shSRControl.cpp:299-312 | one reply for an existing slot, none for an index out of range |
| RelayResponder.DiscoveryReplies | src/shSRControl.cpp:347-353 | one reply per slot, in slot order |
| RelayResponder.Commanded | src/shSRControl.cpp:318-325 | "switch" inverts the relay, "set_on" and "set_off" set it; the slot data changes only in its last state |
| RelayResponder.StateReply | src/shSRControl.cpp:327-331 | the reply after a command goes to the sender and reports the relay's current state |
| RelayResponder.SetState | src/shSRControl.cpp:314-333 | an existing slot is commanded, may be saved, and reports its new state; others untouched; out of range does nothing |
| RelayResponder.SetStateFrom | src/shSRControl.cpp:363-369 | the any_relay loop commands every slot from the start index and emits each slot's effects in order |
| RelayResponder.IndexOf | src/shSRControl.cpp:386-403 | the slot a datagram names: the first one with that non-empty name, or -1 |
| RelayResponder.ReparseName | src/shSRControl.cpp:356 | re-parsing a bare name yields no name member |
| RelayResponder.Receive | src/shSRControl.cpp:335-384 | no datagram changes the slot count, the module description or the save flag |
| RelayResponder.NamedRespondGoesUnanswered | src/shSRControl.cpp:354-357 | as written, a respond naming one relay changes nothing and is not answered, whether or not a slot has that name |
| RelayResponder.ReceiveIntended | src/shSRControl.cpp:335-384 | with the intended named respond: every other datagram is handled exactly as written; slot count, description and save flag never change |
| RelayResponder.DiscoveryAnswersEverySlot | src/shSRControl.cpp:345-353 | respond to any_relay: exactly one "ok" reply per slot, in order, to the sender; no relay changes |
| RelayResponder.NamedRespondAnswersThatRelay | src/shSRControl.cpp:354-357 | intended: a respond to a name gets one "ok" from the first slot of that name, none for an unknown name, and no relay changes |
| RelayResponder.FanOutCommandsEverySlot | src/shSRControl.cpp:359-369 | a state command to any_relay is carried out by every slot, and exactly one datagram per slot is sent |
| RelayResponder.FanOutReplyCount | src/shSRControl.cpp:365-368 | the any_relay loop sends one datagram per slot |
| RelayResponder.NamedCommandActsOnOneSlot | src/shSRControl.cpp:370-373 | a named state command acts on the first slot of that name only and replies with its new state; an unknown name does nothing |
| RelayResponder.UnknownCommandGetsOneReply | src/shSRControl.cpp:375-383 | any other command gets one "unknown command" reply in the module's name and changes nothing |
| RelayResponder.UndecodableGetsUnknownCommandReply | src/shSRControl.cpp:833-843 | an undecodable datagram is answered as the unknown empty command |
| RelayResponder.SwitchRelayByName | src/shSRControl.cpp:410-413 | as written, switchRelay(String) changes nothing |
| RelayResponder.SetRelayStateByName | src/shSRControl.cpp:420-423 | as written, setRelayState(String) changes nothing |
| RelayResponder.GetRelayStateByName | src/shSRControl.cpp:430-433 | as written, getRelayState(String) is always "off" |
| RelayResponder.NamedRespondAsWritten | src/shSRControl.cpp:356 | as written, a respond naming one relay gets no answer |
| RelayResponder.ByNameIgnoresExistingRelay | src/shSRControl.cpp:430-433 | a relay that is on reads "off" by name and is not switched by name, and a named respond goes unanswered, though the intended lookup answers it |
| RelayResponder.LookupName | src/shSRControl.h:191-197 | the intended lookup: the first slot with the non-empty name, -1 exactly when none |
| RelayResponder.SwitchRelayByNameIntended | src/shSRControl.h:183-197 | switching a known name inverts what that relay reports; an unknown name changes nothing |
| RelayResponder.SetRelayStateByNameIntended | src/shSRControl.cpp:420-423 | setting a known name makes that relay report the requested state; an unknown name changes nothing |
| RelayResponder.GetRelayStateByNameIntended | src/shSRControl.h:191-197 | "on" exactly when a relay of that name exists and is on |
| RelayResponder.NamedRespondIntended | src/shSRControl.cpp:354-357 | one "ok" from the named relay, none for an unknown name |
| SwitchInitiator.DefaultBinding | src/shSRControl.h:53-57 | a default binding is free, unresolved, at 0.0.0.0, with no description |
| SwitchInitiator.NewBinding | src/shSRControl.h:58-63 | a new binding stores name and button and is unresolved |
| SwitchInitiator.Init | src/shSRControl.cpp:516-528 | init(n) gives n default bindings |
| SwitchInitiator.AddBinding | src/shSRControl.cpp:530-548 | true exactly when a free binding exists; the first free one takes the name; otherwise unchanged |
| SwitchInitiator.DiscoveryEffect | src/shSRControl.cpp:1043-1049 | the discovery goes to the broadcast address as respond to any_relay |
| SwitchInitiator.Discover | src/shSRControl.cpp:1036-1050 | as written: only bindings below the relay module's count are marked not found, then one discovery |
| SwitchInitiator.DiscoverKeepsFoundWithoutRelays | src/shSRControl.cpp:1038-1041 | on a switch-only module a found binding stays found across a discovery |
| SwitchInitiator.DiscoverAll | src/shSRControl.cpp:1036-1050 | intended: every binding is marked not found, everything else kept, then one discovery |
| SwitchInitiator.DiscoverAgreesWhenRelaysCoverBindings | src/shSRControl.cpp:1036-1050 | the written and intended discoveries agree when the relay module's count covers every binding; past that count a found binding stays found as written and is cleared as intended |
| SwitchInitiator.CommandEffect | src/shSRControl.cpp:1007-1008 | a command goes to the binding's stored address with its name and the command |
| SwitchInitiator.SendCommand | src/shSRControl.cpp:997-1034 | no connection: three beeps, nothing changes; a bound found relay: one command to its address and only that binding becomes unresolved; a bound unresolved relay: two beeps and find_remote_relays as written; a free or out-of-range binding: nothing |
| SwitchInitiator.SwitchRemoteRelay | src/shSRControl.cpp:965-968 | the four outcomes of send_command_for_relay for "switch": three beeps without a connection; one "switch" datagram to a found relay, which becomes unresolved; two beeps and the written discovery for an unresolved one; nothing for a free or out-of-range binding |
| SwitchInitiator.StateCommand | src/shSRControl.cpp:972 | "set_on" exactly for on, "set_off" otherwise |
| SwitchInitiator.SetRemoteRelayState | src/shSRControl.cpp:970-974 | the same four outcomes for set_on or set_off: three beeps without a connection; one datagram to a found relay, which becomes unresolved; two beeps and the written discovery for an unresolved one; nothing for a free or out-of-range binding |
| SwitchInitiator.AtMostOneCommandPerResolution | src/shSRControl.cpp:1005-1026 | a second command with no reply in between finds the relay unresolved and beeps and discovers instead |
| SwitchInitiator.SetAllRemote | src/shSRControl.cpp:976-995 | connected: one broadcast to any_relay; otherwise three beeps; no binding changes |
| SwitchInitiator.SetStateFrom | src/shSRControl.cpp:741-747 | the per-binding loop keeps names and addresses and only addresses bound relays or the broadcast; when every bound binding from the start is found, each gets its command in binding order and becomes unresolved, and nothing else changes |
| SwitchInitiator.SetStateWithoutConnectionBeeps | src/shSRControl.cpp:741-747 | without a connection the loop changes nothing and beeps three times per binding |
| SwitchInitiator.SetStateForAll | src/shSRControl.h:432-438 | with _self, commands reach only relays bound to this switch; when all bound relays are found each gets its command in order and becomes unresolved; without a connection one triple beep per binding; without _self one network-wide broadcast |
| SwitchInitiator.CommandKeepsOtherFoundWithoutRelays | src/shSRControl.cpp:1025-1041 | on a switch-only module a command to an unresolved binding leaves another found binding found, so a following setStateForAll still commands it |
| SwitchInitiator.SwitchRelayByName | src/shSRControl.cpp:724-727 | as written, switchRelay(String) sends nothing (three beeps without a connection) |
| SwitchInitiator.SetRelayStateByName | src/shSRControl.cpp:734-737 | as written, setRelayState(String) sends nothing (three beeps without a connection) |
| SwitchInitiator.LookupName | src/shSRControl.cpp:700-717 | the intended lookup: the first binding with the non-empty name, -1 exactly when none |
| SwitchInitiator.SwitchRelayByNameIntended | src/shSRControl.cpp:724-727 | intended: a found relay of that name gets "switch"; an unknown name does nothing |
| SwitchInitiator.ByNameMissesFoundRelay | src/shSRControl.cpp:724-727 | a found relay is not reached by name as written but is with the intended lookup |
| SwitchInitiator.Receive | src/shSRControl.cpp:647-698 | a reply never changes names, the binding count or the timers |
| SwitchInitiator.Esp8266SkipsBroadcast | src/shSRControl.cpp:654-657 | on ESP8266 a datagram sent to the broadcast address changes nothing |
| SwitchInitiator.ReplyMarksBindingFound | src/shSRControl.cpp:658-670 | a reply naming a binding marks the first such binding found; a respond reply also stores description and sender address; others untouched |
| SwitchInitiator.UnknownReplyIgnored | src/shSRControl.cpp:680-689 | a reply with an empty or unknown name changes nothing |
| SwitchInitiator.TickTimer | src/shSRControl.cpp:631-635 | a discovery runs exactly when the interval has elapsed in uint32 arithmetic; it restarts the timer and, as written, clears the bindings below the relay module's count and keeps the others |
| SwitchInitiator.TickAcrossWrapAround | src/shSRControl.cpp:631 | the re-check fires after the interval even across a millis() wrap-around |
| SwitchInitiator.StartDevice | src/shSRControl.cpp:574-580 | start-up sends one discovery; bindings below the relay module's count become unresolved and the others keep their state, so all are unresolved when that count covers them |
| Config.Text | src/shSRControl.cpp:1262 | an absent member reads as "null" |
| Config.Flag | src/shSRControl.cpp:1267 | a boolean member is true only when present and true |
| Config.RelayConfigDoc | src/shSRControl.cpp:1108-1129 | the relay document holds description, save flag, pages, "relay", and per slot name, description and last state |
| Config.SwitchConfigDoc | src/shSRControl.cpp:1130-1141 | the switch document holds description, pages, "switch", and per binding name, description and address |
| Config.LoadSlot | src/shSRControl.cpp:1270-1274 | loading a slot sets name, description and last state and leaves the pin |
| Config.LoadRelaySetting | src/shSRControl.cpp:1260-1276 | loads the first min(array, slots) slots and leaves the rest; description and save flag are read |
| Config.LoadBinding | src/shSRControl.cpp:1280-1288 | loading a binding sets its name, and its description unless the name is empty |
| Config.LoadSwitchSetting | src/shSRControl.cpp:1277-1290 | loads the first min(array, bindings) bindings and leaves the rest |
| Config.LoadModuleDescription | src/shSRControl.cpp:1262 | the module description loads as saved, "" when absent |
| Config.RelayConfigRoundTrip | src/shSRControl.cpp:1260-1276 | saving then loading restores the relay module when no text is "null" |
| Config.RelayConfigRoundTripNeedsNoNull | src/shSRControl.cpp:1166-1169 | the converse: when some saved text is "null", the load does not give the module back |
| Config.NullNameLoadsAsFreeSlot | src/shSRControl.cpp:1270-1271 | a relay saved under the name "null" loads as a free slot |
| Config.SwitchConfigRoundTrip | src/shSRControl.cpp:1277-1290 | saving then loading restores the bindings and the module description |
| Config.FreeBindingLosesDescription | src/shSRControl.cpp:1282-1285 | a free binding loads with an empty description |
| Config.RestoreStates | src/shSRControl.cpp:237-247 | only when relay states persist are relays saved as on switched on; others untouched, and without the save flag nothing changes |
| Config.RestoredRelaysReportSavedState | src/shSRControl.cpp:237-247 | when states persist, after restoring each relay reports the state saved for it |
| Config.NormalizeConfigPage | src/shSRControl.cpp:252-255 | the config page path always starts with "/", prepended only when missing |
| Config.NormalizeWifiPage | src/shSRControl.cpp:256-259 | the WiFi page path gets a leading "/" unless it is empty |
| Config.NormalizeIdempotent | src/shSRControl.cpp:593-600 | normalising twice is normalising once |
| Config.NormalizeKeepsPath | src/shSRControl.cpp:593-600 | normalising adds at most one leading character and keeps the path |
| RelayControl.GuardAdmitsPastTheEnd | shSRControl.cpp:140 | the written guard admits the index one past the last relay |
| RelayControl.GuardAsWrittenIsOneTooWide | shSRControl.cpp:158 | the written guard admits exactly the valid indices plus relayCount |
| RelayControl.Begin | shSRControl.cpp:42-53 | every relay is written to its off level |
| RelayControl.AllOffAfterBegin | shSRControl.cpp:48-51 | after begin every relay reads "off" |
| RelayControl.GetRelayState | shSRControl.cpp:154-168 | "on" exactly when a valid index names a relay whose pin carries its control level |
| RelayControl.SwitchRelay | shSRControl.cpp:138-147 | a valid index inverts the pin, so the reported state flips; others and invalid indices unchanged |
| RelayControl.SwitchTwiceIsIdentity | shSRControl.cpp:142 | switching twice restores the module |
| RelayControl.Reply | shSRControl.cpp:71-83 | a reply has exactly relay, for and resp, each reading back |
| RelayControl.DiscoveryReplies | shSRControl.cpp:96-103 | one "ok" per relay, in order |
| RelayControl.Receive | shSRControl.cpp:85-117 | no datagram changes the number of relays |
| RelayControl.DiscoveryAnswersEveryRelay | shSRControl.cpp:93-104 | respond to any_relay: one "ok" per relay, nothing switched |
| RelayControl.NamedSwitchTogglesOneRelay | shSRControl.cpp:105-115 | "switch" to a known name toggles its first relay and replies with the new state, for "command" |
| RelayControl.OtherRequestsIgnored | shSRControl.cpp:105-116 | any other request changes nothing and is not answered |
| RelayControl.SwitchRelayByName | shSRControl.cpp:149-152 | as written, switchRelay(String) changes nothing |
| RelayControl.GetRelayStateByName | shSRControl.cpp:170-173 | as written, getRelayState(String) is always "off" |
| SwitchControl.Begin | shSRControl.cpp:183-190 | the broadcast address keeps the network bits and sets all host bits; timer period 30000 |
| SwitchControl.SetCheckTimer | shSRControl.cpp:179 | only the period changes |
| SwitchControl.Request | shSRControl.cpp:216-227 | a request reads back its relay and command members |
| SwitchControl.DiscoveryEffect | shSRControl.cpp:325-329 | discovery is respond to any_relay at the broadcast address |
| SwitchControl.FindRelays | shSRControl.cpp:318-330 | every binding becomes unresolved, then one discovery |
| SwitchControl.GuardAdmitsPastTheEnd | shSRControl.cpp:289 | the written guard admits the binding one past the last |
| SwitchControl.SwitchRelay | shSRControl.cpp:287-311 | a found relay gets one "switch" and becomes unresolved; an unresolved one triggers discovery; invalid indices do nothing |
| SwitchControl.SwitchRelayByName | shSRControl.cpp:313-316 | as written, switchRelay(String) sends nothing |
| SwitchControl.Receive | shSRControl.cpp:229-266 | a reply never changes the binding count, broadcast address or timers |
| SwitchControl.ReplyUpdatesBinding | shSRControl.cpp:239-258 | a respond reply stores the sender and marks found; a command reply marks found; other replies change nothing |
| SwitchControl.BroadcastOrUnknownIgnored | shSRControl.cpp:237-240 | a broadcast or unknown-name datagram changes nothing |
| SwitchControl.TickTimer | shSRControl.cpp:203-209 | discovery runs exactly when the period has elapsed in uint32 arithmetic |
| SwitchControl.FirstDiscoveryAfterDefaultPeriod | shSRControl.h:58 | with the default period the first discovery is due at 30 s |
| Protocol.DiscoveryResolvesBinding | src/shSRControl.cpp:647-670 | the start-up broadcast reaches the relay, whose reply resolves the same-named binding at the relay's address with its description |
| Protocol.SetAllReachesEverySlot | src/shSRControl.cpp:976-995 | the set_all broadcast, handed to a relay module, is carried out by every slot, which then reports the requested state, with one reply per slot |
| Protocol.RelayExecutesCommand | src/shSRControl.cpp:359-374 | a command datagram from a switch is carried out by the named slot, which reports its new state last |
| Protocol.SwitchAcceptsStateReply | src/shSRControl.cpp:658-679 | a state reply marks the named binding found and changes nothing else about it |
| Protocol.CommandRoundTrip | src/shSRControl.cpp:997-1018 | a command sent to a found relay is executed there, and the relay's reply makes the binding found again, as before the command |
| Protocol.RootSwitchRoundTrip | shSRControl.cpp:287-311 | earlier revision: "switch" toggles the named relay and the reply marks the binding found again |
| Protocol.RootDiscoveryResolvesBinding | shSRControl.cpp:318-330 | earlier revision: every relay answers the broadcast and resolves its binding at its address |

## Left out

- **Not modelled: JSON text, UDP, WiFi and GPIO.**
  - JSON serialisation and parsing are not modelled. Datagrams are member maps, and undecodable text is `None`.
  - The ArduinoJson capacity limits (`RELAY_DATA_SIZE`, 256 bytes) are not modelled.
  - UDP sockets are not modelled. Neither is `send_udp_packet`'s failure path: a send is an effect that always happens.
  - The root revision's missing NUL terminator in `receiveUdpPacket` is not modelled.
  - The WiFi state is a parameter (`NetState`).
  - `pinMode` and GPIO electrical behaviour are not modelled. Each relay is assumed to have its own pin; two relays sharing a pin are not modelled. A pin not yet written is taken as LOW.
- **Not modelled: HTTP, files and logging.**
  - The HTTP server, its handlers and the HTML pages (`extras/`) are not modelled.
  - File-system I/O is not modelled. Saving is the `SaveConfig` effect, and loading starts from a `ConfigDoc`.
  - `load_setting`'s return value is not modelled; for the two module types it is always true.
  - Whether `load_config_file` succeeds is not modelled: `Config.RestoreStates` runs on the device as loaded.
  - `load_setting` also writes `""` back into the document for a free binding. That write is not modelled, only its effect on the loaded description.
  - The buzzer and Ticker become the `ErrorBeep(n)` effect. The single beep on each button press is not modelled.
  - Serial logging (`SR_PRINT`) and `delay` are not modelled.
- **Not modelled: the tick loops.**
  - The button-polling loops inside the tick functions are left out; `Buttons.Poll` models one poll.
  - The root `tick` reads `millis()` twice; one value is taken.
- **Buttons.** The flag-bit numbers, the `PULL_UP`/`BTN_NC` values and the `BTN_PRESSED`/`BTN_RELEASED` values come from `srButtons.h`, which is not part of this model. Placeholders are used for the bit numbers; the proofs rely only on them being distinct and below 8. `ContactEvent` takes closed contacts to PRESSED and open ones to RELEASED, which is what the names say but is not checked against that header.
- **Integer widths.** Counts and indices are modelled as unbounded. The firmware keeps `relayCount` and `switchCount` in `int8_t`, and `load_setting` keeps the array size in `int8_t`. More than 127 entries would break the firmware's loops; this is not modelled.
- **Shared `relayCount`.** `relayCount` is shared between the two roles; `SwitchDevice.relayCount` carries it.
  - When it exceeds `switchCount`, the as-written `find_remote_relays` writes past `switchArray`. This is not modelled (the as-written `Discover` only touches existing bindings).
- **Names that are JSON object text.** A name that is itself JSON object text would make the bare-name re-parse succeed. The model takes the re-parse of a bare name as yielding no name member (`RelayResponder.ReparseName`).
- **Trivial accessors.** The following only store or return one field, and are not modelled as separate members:
  - setters and getters such as `setModuleDescription`, `setSaveStateOfRelay`, `setLogOnState`, `setErrorBuzzerState` and `getCheckTimer`;
  - the index-based `switchRelay`, `setRelayState` and `getRelayState` wrappers, which call the modelled functions directly.
- **Weaker contracts.**
  - RelayResponder.Receive: its own contract only states what no datagram changes. The behaviour per command is stated by the lemmas listed after it.
  - Buttons.StablePoll: its own contract only states that the configuration is kept. Its behaviour is stated by the single-poll lemmas.
  - Buttons.ChangePoll: likewise.
  - SwitchInitiator.Receive: likewise; see ReplyMarksBindingFound.

## Findings

| source | as written | input that shows it | evidently intended | confidence | as-written member | corrected member |
|---|---|---|---|---|---|---|
| src/shSRControl.cpp:1038-1041 | `find_remote_relays` clears `relayFound` for indices below `relayCount`, the relay role's slot count | a module that is only a switch (`relayCount` 0) with a found binding: after a discovery the binding is still marked found | every binding of the switch array (`switchCount`) becomes unresolved | high, not executed | SwitchInitiator.CommandKeepsOtherFoundWithoutRelays | SwitchInitiator.DiscoverAll |
| src/shSRControl.cpp:356 | a named `respond`, like `switchRelay(String)`, `setRelayState(String)` and `getRelayState(String)` (412, 422, 432), passes the bare name to `getRelayIndexByName`, which parses it as JSON again | relay "lamp" is on: `getRelayState("lamp")` is "off", `switchRelay("lamp")` does nothing, and a respond naming "lamp" gets no answer | look the name up directly among the slots | high, not executed | RelayResponder.ByNameIgnoresExistingRelay | RelayResponder.ReceiveIntended |
| src/shSRControl.cpp:726 | the switch's `switchRelay(String)` and `setRelayState(String)` (736) re-parse the bare name the same way | binding "lamp" found: `switchRelay("lamp")` sends nothing | look the name up directly among the bindings | high, not executed | SwitchInitiator.ByNameMissesFoundRelay | SwitchInitiator.SwitchRelayByNameIntended |
| shSRControl.cpp:140 | `switchRelay` and `getRelayState` of the earlier revision guard with `index <= relayCount` (also 158) | index = relayCount reads and writes one past the relay array | `index < relayCount` | high, not executed | RelayControl.GuardAdmitsPastTheEnd | RelayControl.SwitchRelay |
| shSRControl.cpp:289 | `SwitchControl::switchRelay` guards with `index <= relayCount` | index = relayCount reads the binding one past the array | `index < relayCount` | high, not executed | SwitchControl.GuardAdmitsPastTheEnd | SwitchControl.SwitchRelay |

The step functions of the current library model the code as written: `SendCommand`, `TickTimer` and `StartDevice` run `Discover`, and `RelayResponder.Receive` leaves a named `respond` unanswered. The corrected members stand beside them, with the intended property proved:

- `DiscoverAll`, related to `Discover` by `DiscoverAgreesWhenRelaysCoverBindings`;
- `ReceiveIntended`, built on `NamedRespondIntended`, and the `*Intended` by-name members;
- in the earlier revision, `RelayControl.SwitchRelay`, `RelayControl.GetRelayState` and `SwitchControl.SwitchRelay`, which check the index with `InRange`. The written guard is kept in the `GuardAdmitsPastTheEnd` members; what the firmware does with the index one past the array is an out-of-bounds access that C++ leaves undefined, so no step function can reproduce it.
