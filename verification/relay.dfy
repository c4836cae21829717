/**
 * shRelayControl: the relay module. It owns a fixed number of relay slots,
 * switches them on request, and answers the switch modules' datagrams.
 * The slot array and the pin levels it drives are the state; a received
 * datagram is a step that returns the new state and the datagrams sent back.
 */
module RelayResponder {
  import opened Wrappers
  import opened Wire

  /** A uint8 pin number. */
  type Pin = x: int | 0 <= x < 256

  /**
   * shRelayData. A control level is the uint8 LOW or HIGH; the firmware only
   * tests it for zero, so it is held as `controlHigh`.
   */
  datatype Slot = Slot(
    name: string,
    pin: Pin,
    controlHigh: bool,
    lastState: bool,
    button: Option<ButtonId>,
    description: string)

  /** The default shRelayData: a free slot, no pin (255), active high, off. */
  function DefaultSlot(): (s: Slot)
    ensures s.name == "" && s.description == "" && s.pin == 255
    ensures s.controlHigh && !s.lastState && s.button == None
  {
    Slot("", 255, true, false, None, "")
  }

  /** The named shRelayData constructor: the given fields, and last state off. */
  function NewSlot(name: string, pin: Pin, controlHigh: bool, button: Option<ButtonId>, description: string): (s: Slot)
    ensures s.name == name && s.pin == pin && s.controlHigh == controlHigh
    ensures s.button == button && s.description == description
    ensures !s.lastState
  {
    Slot(name, pin, controlHigh, false, button, description)
  }

  /**
   * A slot with the level its output pin carries: what digitalRead returns
   * after the firmware's last digitalWrite. Every relay is assumed to have a
   * pin of its own.
   */
  datatype Relay = Relay(data: Slot, pinLevel: bool)

  /** The relay module: relayCount slots, the module description, save_state_of_relay. */
  datatype RelayDevice = RelayDevice(relays: seq<Relay>, moduleDescription: string, saveState: bool)

  /**
   * A module after init(n): n default slots. The level of an unwritten pin
   * is taken as LOW.
   */
  function Init(n: nat, moduleDescription: string, saveState: bool): (dev: RelayDevice)
    ensures |dev.relays| == n
    ensures forall i :: 0 <= i < n ==> dev.relays[i].data == DefaultSlot()
    ensures dev.moduleDescription == moduleDescription && dev.saveState == saveState
  {
    RelayDevice(seq(n, _ => Relay(DefaultSlot(), false)), moduleDescription, saveState)
  }

  /** The relay is switched on: its pin carries its control level. */
  predicate IsOn(r: Relay)
  {
    r.pinLevel == r.data.controlHigh
  }

  /** An int8 index that names an existing slot. */
  predicate InRange(dev: RelayDevice, i: int)
  {
    0 <= i < |dev.relays|
  }

  /** The slot names, in slot order. */
  function Names(dev: RelayDevice): (names: seq<string>)
    ensures |names| == |dev.relays|
    ensures forall i :: 0 <= i < |names| ==> names[i] == dev.relays[i].data.name
  {
    seq(|dev.relays|, i requires 0 <= i < |dev.relays| => dev.relays[i].data.name)
  }

  /** "on" or "off". */
  function StateText(on: bool): (t: string)
    ensures t == OnText || t == OffText
  {
    if on then OnText else OffText
  }

  /** get_relay_state: "on" exactly when an existing relay is switched on, else "off". */
  function GetRelayState(dev: RelayDevice, i: int): (t: string)
    ensures t == OnText || t == OffText
    ensures t == OnText <==> InRange(dev, i) && IsOn(dev.relays[i])
  {
    if InRange(dev, i) then StateText(IsOn(dev.relays[i])) else OffText
  }

  /**
   * The write inside set_local_relay_state: the pin gets the level that
   * switches the relay to `on`, and the last state records it.
   */
  function WriteState(r: Relay, on: bool): (w: Relay)
    ensures IsOn(w) == on
    ensures w.data == r.data.(lastState := on)
  {
    Relay(r.data.(lastState := on), if r.data.controlHigh then on else !on)
  }

  /** What a change of relay state asks for: the configuration is saved when states persist. */
  function SaveEffects(dev: RelayDevice): (out: seq<Effect>)
    ensures dev.saveState ==> out == [SaveConfig]
    ensures !dev.saveState ==> out == []
  {
    if dev.saveState then [SaveConfig] else []
  }

  /**
   * set_local_relay_state: relay `i` is switched to `on`, whatever its
   * control level; every other relay is left alone. An index out of range
   * changes nothing.
   */
  function SetLocalRelayState(dev: RelayDevice, i: int, on: bool): (r: Reaction<RelayDevice>)
    ensures |r.next.relays| == |dev.relays|
    ensures r.next.moduleDescription == dev.moduleDescription && r.next.saveState == dev.saveState
    ensures InRange(dev, i) ==>
      && GetRelayState(r.next, i) == StateText(on)
      && r.next.relays[i].data == dev.relays[i].data.(lastState := on)
      && r.out == SaveEffects(dev)
    ensures forall j :: 0 <= j < |dev.relays| && j != i ==> r.next.relays[j] == dev.relays[j]
    ensures !InRange(dev, i) ==> r.next == dev && r.out == []
  {
    if InRange(dev, i) then
      Reaction(dev.(relays := dev.relays[i := WriteState(dev.relays[i], on)]), SaveEffects(dev))
    else
      Reaction(dev, [])
  }

  /** switch_local_relay: relay `i` is switched to the opposite of what it reports. */
  function SwitchLocalRelay(dev: RelayDevice, i: int): (r: Reaction<RelayDevice>)
    ensures |r.next.relays| == |dev.relays|
    ensures InRange(dev, i) ==>
      && (GetRelayState(r.next, i) == OnText <==> GetRelayState(dev, i) == OffText)
      && r.next.relays[i].data == dev.relays[i].data.(lastState := !IsOn(dev.relays[i]))
      && r.out == SaveEffects(dev)
    ensures forall j :: 0 <= j < |dev.relays| && j != i ==> r.next.relays[j] == dev.relays[j]
    ensures !InRange(dev, i) ==> r.next == dev && r.out == []
  {
    if InRange(dev, i) then SetLocalRelayState(dev, i, !(GetRelayState(dev, i) == OnText))
    else Reaction(dev, [])
  }

  /**
   * Switching twice puts the pin back: the relay reports its old state, and
   * a relay whose last state was in step with its pin is restored exactly.
   */
  lemma SwitchTwiceRestores(dev: RelayDevice, i: int)
    requires InRange(dev, i)
    ensures var d := SwitchLocalRelay(SwitchLocalRelay(dev, i).next, i).next;
      && d.relays[i].pinLevel == dev.relays[i].pinLevel
      && GetRelayState(d, i) == GetRelayState(dev, i)
      && (dev.relays[i].data.lastState == IsOn(dev.relays[i]) ==> d == dev)
  {
    var d1 := SwitchLocalRelay(dev, i).next;
    var d := SwitchLocalRelay(d1, i).next;
    assert IsOn(d1.relays[i]) == !IsOn(dev.relays[i]);
    assert IsOn(d.relays[i]) == IsOn(dev.relays[i]);
    if dev.relays[i].data.lastState == IsOn(dev.relays[i]) {
      assert d.relays[i] == dev.relays[i];
      assert d.relays == dev.relays;
    }
  }

  /** Setting a relay to the state it was just set to changes nothing more. */
  lemma SetLocalRelayStateIdempotent(dev: RelayDevice, i: int, on: bool)
    ensures var d := SetLocalRelayState(dev, i, on).next;
      SetLocalRelayState(d, i, on).next == d
  {
    var d := SetLocalRelayState(dev, i, on).next;
    if InRange(dev, i) {
      assert d.relays[i := WriteState(d.relays[i], on)] == d.relays;
    }
  }

  /**
   * addRelay: the relay is stored in the first free slot (empty name), its
   * pin driven to the level that keeps it off. The result is true exactly
   * when a slot was free; a full module is left as it was.
   */
  function AddRelay(dev: RelayDevice, name: string, pin: Pin, controlHigh: bool,
                    button: Option<ButtonId>, description: string): (r: (RelayDevice, bool))
    ensures r.1 <==> "" in Names(dev)
    ensures !r.1 ==> r.0 == dev
    ensures r.1 ==> exists k :: (0 <= k < |dev.relays| && FirstFree(dev, k)
      && r.0 == dev.(relays := dev.relays[k := Relay(NewSlot(name, pin, controlHigh, button, description), !controlHigh)]))
  {
    var k := FirstIndex(Names(dev), "");
    if k < 0 then (dev, false)
    else
      assert FirstFree(dev, k) by {
        forall j | 0 <= j < k ensures dev.relays[j].data.name != "" {
          assert Names(dev)[..k][j] == Names(dev)[j];
        }
      }
      (dev.(relays := dev.relays[k := Relay(NewSlot(name, pin, controlHigh, button, description), !controlHigh)]), true)
  }

  /** Slot `k` is free and no slot before it is. */
  predicate FirstFree(dev: RelayDevice, k: int)
    requires 0 <= k < |dev.relays|
  {
    dev.relays[k].data.name == "" && forall j :: 0 <= j < k ==> dev.relays[j].data.name != ""
  }

  /** A relay just added starts off and in step with its last state. */
  lemma AddedRelayStartsOff(dev: RelayDevice, name: string, pin: Pin, controlHigh: bool,
                            button: Option<ButtonId>, description: string, k: int)
    requires var r := AddRelay(dev, name, pin, controlHigh, button, description);
      r.1 && 0 <= k < |dev.relays| && FirstFree(dev, k)
    ensures var d := AddRelay(dev, name, pin, controlHigh, button, description).0;
      && GetRelayState(d, k) == OffText && !d.relays[k].data.lastState
      && d.relays[k].data.name == name
  {
    var d := AddRelay(dev, name, pin, controlHigh, button, description).0;
    var k' :| 0 <= k' < |dev.relays| && FirstFree(dev, k')
      && d == dev.(relays := dev.relays[k' := Relay(NewSlot(name, pin, controlHigh, button, description), !controlHigh)]);
    FirstFreeIsUnique(dev, k, k');
  }

  /** There is only one first free slot. */
  lemma FirstFreeIsUnique(dev: RelayDevice, k: int, k': int)
    requires 0 <= k < |dev.relays| && FirstFree(dev, k)
    requires 0 <= k' < |dev.relays| && FirstFree(dev, k')
    ensures k == k'
  {
  }

  /**
   * A relay added under a new, non-empty name is the one a datagram with
   * that name is looked up to.
   */
  lemma AddedRelayFoundByName(dev: RelayDevice, name: string, pin: Pin, controlHigh: bool,
                              button: Option<ButtonId>, description: string, k: int)
    requires name != "" && name != NullText && name !in Names(dev)
    requires var r := AddRelay(dev, name, pin, controlHigh, button, description);
      r.1 && 0 <= k < |dev.relays| && FirstFree(dev, k)
    ensures var d := AddRelay(dev, name, pin, controlHigh, button, description).0;
      IndexByName(Names(d), Some(CommandMsg(name, SwitchCmd)), NameKey) == k
  {
    var d := AddRelay(dev, name, pin, controlHigh, button, description).0;
    AddedRelayStartsOff(dev, name, pin, controlHigh, button, description, k);
    var p := Some(CommandMsg(name, SwitchCmd));
    assert GetArgument(p, NameKey) == name;
    var r := IndexByName(Names(d), p, NameKey);
    assert Names(d)[k] == name;
    assert forall j :: 0 <= j < |dev.relays| && j != k ==> Names(d)[j] == Names(dev)[j];
  }

  // ---- Datagram handling ----

  /** The reply to a discovery request for slot `i`: its name and description, "ok". */
  function CheckReply(dev: RelayDevice, i: int, from: Address): (e: Effect)
    requires InRange(dev, i)
    ensures e.Send? && e.to == from
    ensures GetArgument(Some(e.body), ForKey) == RespondCmd
    ensures GetArgument(Some(e.body), ResponseKey) == OkText
  {
    Send(from, ResponseMsg(dev.relays[i].data.name, dev.relays[i].data.description, OkText, RespondCmd))
  }

  /** respondToRelayCheck: one reply to the sender for an existing slot, nothing otherwise. */
  function RespondToRelayCheck(dev: RelayDevice, i: int, from: Address): (out: seq<Effect>)
    ensures InRange(dev, i) ==> out == [CheckReply(dev, i, from)]
    ensures !InRange(dev, i) ==> out == []
  {
    if InRange(dev, i) then [CheckReply(dev, i, from)] else []
  }

  /** The loop over all slots answering `any_relay`: one reply per slot, in slot order. */
  function DiscoveryReplies(dev: RelayDevice, from: Address, i: nat): (out: seq<Effect>)
    requires i <= |dev.relays|
    ensures |out| == |dev.relays| - i
    ensures forall j :: 0 <= j < |out| ==> out[j] == CheckReply(dev, i + j, from)
    decreases |dev.relays| - i
  {
    if i == |dev.relays| then []
    else RespondToRelayCheck(dev, i, from) + DiscoveryReplies(dev, from, i + 1)
  }

  /** A relay after a command it understands: switched, set on, set off; others leave it. */
  function Commanded(r: Relay, comm: string): (c: Relay)
    ensures comm == SwitchCmd ==> IsOn(c) == !IsOn(r)
    ensures comm == SetOnCmd ==> IsOn(c)
    ensures comm == SetOffCmd ==> !IsOn(c)
    ensures comm in {SwitchCmd, SetOnCmd, SetOffCmd} ==> c.data == r.data.(lastState := IsOn(c))
    ensures comm !in {SwitchCmd, SetOnCmd, SetOffCmd} ==> c == r
  {
    if comm == SwitchCmd then WriteState(r, !IsOn(r))
    else if comm == SetOnCmd || comm == SetOffCmd then WriteState(r, comm == SetOnCmd)
    else r
  }

  /** The command acts on the relay (and may save the configuration). */
  predicate ChangesState(comm: string)
  {
    comm == SwitchCmd || comm == SetOnCmd || comm == SetOffCmd
  }

  /** The reply set_state sends after acting on slot `i`: the state it now reports. */
  function StateReply(dev: RelayDevice, i: int, comm: string, from: Address): (e: Effect)
    requires InRange(dev, i)
    ensures e.Send? && e.to == from
    ensures GetArgument(Some(e.body), ResponseKey) == GetRelayState(dev, i)
  {
    Send(from, ResponseMsg(dev.relays[i].data.name, dev.relays[i].data.description, GetRelayState(dev, i), comm))
  }

  /**
   * set_state: an existing slot carries out the command and reports its new
   * state to the sender; an index out of range does nothing.
   */
  function SetState(dev: RelayDevice, i: int, comm: string, from: Address): (r: Reaction<RelayDevice>)
    ensures |r.next.relays| == |dev.relays|
    ensures r.next.moduleDescription == dev.moduleDescription && r.next.saveState == dev.saveState
    ensures InRange(dev, i) ==>
      && r.next.relays[i] == Commanded(dev.relays[i], comm)
      && r.out == (if ChangesState(comm) then SaveEffects(dev) else []) + [StateReply(r.next, i, comm, from)]
    ensures forall j :: 0 <= j < |dev.relays| && j != i ==> r.next.relays[j] == dev.relays[j]
    ensures !InRange(dev, i) ==> r.next == dev && r.out == []
  {
    if !InRange(dev, i) then Reaction(dev, [])
    else
      var acted :=
        if comm == SwitchCmd then SwitchLocalRelay(dev, i)
        else if comm == SetOnCmd || comm == SetOffCmd then SetLocalRelayState(dev, i, comm == SetOnCmd)
        else Reaction(dev, []);
      Reaction(acted.next, acted.out + [StateReply(acted.next, i, comm, from)])
  }

  /**
   * The effects set_state emits for a relay commanded by `comm`: a save
   * when the command changes state and states persist, then one reply.
   */
  function SlotEffects(r: Relay, save: bool, comm: string, from: Address): (out: seq<Effect>)
    ensures Replies(out) == 1
  {
    var c := Commanded(r, comm);
    var saves: seq<Effect> := if ChangesState(comm) && save then [SaveConfig] else [];
    var reply := Send(from, ResponseMsg(c.data.name, c.data.description, StateText(IsOn(c)), comm));
    RepliesAppend(saves, [reply]);
    saves + [reply]
  }

  /** The effects of the loop over the slots `rs`, in order. */
  function FanOutEffects(rs: seq<Relay>, save: bool, comm: string, from: Address): seq<Effect>
    decreases |rs|
  {
    if rs == [] then [] else SlotEffects(rs[0], save, comm, from) + FanOutEffects(rs[1..], save, comm, from)
  }

  /**
   * The loop of set_state over slots `i..` for `any_relay`: every one of
   * them carries out the command, slots before `i` are untouched, and each
   * slot adds its own effects in slot order.
   */
  function SetStateFrom(dev: RelayDevice, comm: string, from: Address, i: nat): (r: Reaction<RelayDevice>)
    requires i <= |dev.relays|
    ensures |r.next.relays| == |dev.relays|
    ensures r.next.moduleDescription == dev.moduleDescription && r.next.saveState == dev.saveState
    ensures forall j :: 0 <= j < i ==> r.next.relays[j] == dev.relays[j]
    ensures forall j :: i <= j < |dev.relays| ==> r.next.relays[j] == Commanded(dev.relays[j], comm)
    ensures r.out == FanOutEffects(dev.relays[i..], dev.saveState, comm, from)
    decreases |dev.relays| - i
  {
    if i == |dev.relays| then Reaction(dev, [])
    else
      var first := SetState(dev, i, comm, from);
      var rest := SetStateFrom(first.next, comm, from, i + 1);
      SetStateEffects(dev, i, comm, from);
      RestAfterSlot(dev.relays, first.next.relays, i);
      Reaction(rest.next, first.out + rest.out)
  }

  /** One set_state on an existing slot emits that slot's effects. */
  lemma SetStateEffects(dev: RelayDevice, i: int, comm: string, from: Address)
    requires InRange(dev, i)
    ensures SetState(dev, i, comm, from).out == SlotEffects(dev.relays[i], dev.saveState, comm, from)
  {
    var r := SetState(dev, i, comm, from);
    var c := Commanded(dev.relays[i], comm);
    assert r.next.relays[i] == c;
    assert GetRelayState(r.next, i) == StateText(IsOn(c));
  }

  /** The slots after `i` of two arrays that differ at most in slot `i`. */
  lemma RestAfterSlot(a: seq<Relay>, b: seq<Relay>, i: nat)
    requires i < |a| == |b|
    requires forall j :: 0 <= j < |a| && j != i ==> b[j] == a[j]
    ensures a[i..] != [] && a[i..][0] == a[i] && a[i..][1..] == b[i + 1..]
  {
    assert a[i..][1..] == a[i + 1..];
  }

  /**
   * getRelayIndexByName over the packet: the first slot named by the
   * datagram's "name" member, or -1.
   */
  function IndexOf(dev: RelayDevice, p: Packet): (i: int)
    ensures -1 <= i < |dev.relays|
    ensures i == -1 <==> GetArgument(p, NameKey) == "" || GetArgument(p, NameKey) !in Names(dev)
    ensures 0 <= i ==> dev.relays[i].data.name == GetArgument(p, NameKey) != ""
    ensures 0 <= i ==> forall j :: 0 <= j < i ==> dev.relays[j].data.name != dev.relays[i].data.name
  {
    IndexByName(Names(dev), p, NameKey)
  }

  /**
   * The datagram the firmware builds when it hands an already extracted
   * name back to getRelayIndexByName: the bare name is parsed as JSON text
   * again. A name is not JSON object text, so the parse yields no members.
   */
  function ReparseName(name: string): (p: Packet)
    ensures GetArgument(p, NameKey) == ""
  {
    None
  }

  /**
   * receiveUdpPacket: dispatches on the "command" member.
   * - "respond" to `any_relay`: one "ok" reply per slot; to a named relay:
   *   the name is looked up through a re-parse of the bare name, which
   *   finds no slot, so nothing is sent (ReceiveIntended answers it).
   * - "switch", "set_on", "set_off" to `any_relay`: every slot; to a name:
   *   the first slot with that name.
   * - anything else, an undecodable datagram included: one
   *   "unknown command" reply in the module's own name.
   */
  function Receive(dev: RelayDevice, p: Packet, from: Address, localIp: string): (r: Reaction<RelayDevice>)
    ensures |r.next.relays| == |dev.relays|
    ensures r.next.moduleDescription == dev.moduleDescription && r.next.saveState == dev.saveState
  {
    var comm := GetArgument(p, CommandKey);
    var name := GetArgument(p, NameKey);
    if comm == RespondCmd then
      if name == AnyRelay then Reaction(dev, DiscoveryReplies(dev, from, 0))
      else Reaction(dev, NamedRespondAsWritten(dev, name, from))
    else if ChangesState(comm) then
      if name == AnyRelay then SetStateFrom(dev, comm, from, 0)
      else SetState(dev, IndexOf(dev, p), comm, from)
    else
      Reaction(dev, [Send(from, ResponseMsg(localIp, dev.moduleDescription, UnknownCommandText, comm))])
  }

  // ---- Properties of a received datagram ----

  /**
   * Discovery: a `respond` to `any_relay` gets exactly one "ok" reply per
   * slot, to the sender, naming the slots in order, and changes no relay.
   */
  lemma DiscoveryAnswersEverySlot(dev: RelayDevice, p: Packet, from: Address, localIp: string)
    requires GetArgument(p, CommandKey) == RespondCmd && GetArgument(p, NameKey) == AnyRelay
    ensures var r := Receive(dev, p, from, localIp);
      && r.next == dev
      && |r.out| == |dev.relays|
      && forall i :: 0 <= i < |r.out| ==>
           r.out[i] == Send(from, ResponseMsg(dev.relays[i].data.name, dev.relays[i].data.description, OkText, RespondCmd))
  {
    var r := Receive(dev, p, from, localIp);
    assert r.out == DiscoveryReplies(dev, from, 0);
    forall i | 0 <= i < |r.out|
      ensures r.out[i] == CheckReply(dev, i, from)
    {
      assert r.out[i] == CheckReply(dev, 0 + i, from);
    }
  }

  /** As written, a `respond` naming one relay is never answered, whether or not a slot has the name. */
  lemma NamedRespondGoesUnanswered(dev: RelayDevice, p: Packet, from: Address, localIp: string)
    requires GetArgument(p, CommandKey) == RespondCmd && GetArgument(p, NameKey) != AnyRelay
    ensures Receive(dev, p, from, localIp) == Reaction(dev, [])
  {
  }

  /**
   * receiveUdpPacket with the intended lookup for a named `respond`; every
   * other datagram is handled as written.
   */
  function ReceiveIntended(dev: RelayDevice, p: Packet, from: Address, localIp: string): (r: Reaction<RelayDevice>)
    ensures |r.next.relays| == |dev.relays|
    ensures r.next.moduleDescription == dev.moduleDescription && r.next.saveState == dev.saveState
    ensures !(GetArgument(p, CommandKey) == RespondCmd && GetArgument(p, NameKey) != AnyRelay) ==>
      r == Receive(dev, p, from, localIp)
  {
    var name := GetArgument(p, NameKey);
    if GetArgument(p, CommandKey) == RespondCmd && name != AnyRelay then
      Reaction(dev, NamedRespondIntended(dev, name, from))
    else Receive(dev, p, from, localIp)
  }

  /**
   * With the intended lookup, a `respond` naming one relay is answered by
   * the first slot of that name, with its "ok"; a name no slot has gets no
   * answer.
   */
  lemma NamedRespondAnswersThatRelay(dev: RelayDevice, p: Packet, from: Address, localIp: string)
    requires GetArgument(p, CommandKey) == RespondCmd && GetArgument(p, NameKey) != AnyRelay
    ensures var r := ReceiveIntended(dev, p, from, localIp);
      var name := GetArgument(p, NameKey);
      && r.next == dev
      && (name != "" && name in Names(dev) ==>
            var k := LookupName(dev, name);
            && dev.relays[k].data.name == name && name !in Names(dev)[..k]
            && r.out == [Send(from, ResponseMsg(name, dev.relays[k].data.description, OkText, RespondCmd))])
      && (name == "" || name !in Names(dev) ==> r.out == [])
  {
  }

  /**
   * A state command to `any_relay` is carried out by every slot, and each
   * slot reports its new state to the sender.
   */
  lemma FanOutCommandsEverySlot(dev: RelayDevice, p: Packet, from: Address, localIp: string)
    requires ChangesState(GetArgument(p, CommandKey)) && GetArgument(p, NameKey) == AnyRelay
    ensures var comm := GetArgument(p, CommandKey);
      var r := Receive(dev, p, from, localIp);
      && (forall j :: 0 <= j < |dev.relays| ==> r.next.relays[j] == Commanded(dev.relays[j], comm))
      && r.out == FanOutEffects(dev.relays, dev.saveState, comm, from)
      && Replies(r.out) == |dev.relays|
  {
    var comm := GetArgument(p, CommandKey);
    assert dev.relays[0..] == dev.relays;
    FanOutReplyCount(dev.relays, dev.saveState, comm, from);
  }

  /** The number of datagrams among the effects. */
  function Replies(out: seq<Effect>): (n: nat)
    ensures n <= |out|
  {
    if out == [] then 0 else (if out[0].Send? then 1 else 0) + Replies(out[1..])
  }

  lemma {:induction false} RepliesAppend(a: seq<Effect>, b: seq<Effect>)
    ensures Replies(a + b) == Replies(a) + Replies(b)
  {
    if a == [] {
      assert a + b == b;
    } else {
      assert (a + b)[1..] == a[1..] + b;
      RepliesAppend(a[1..], b);
    }
  }

  /** The fan-out sends one datagram per slot. */
  lemma {:induction false} FanOutReplyCount(rs: seq<Relay>, save: bool, comm: string, from: Address)
    ensures Replies(FanOutEffects(rs, save, comm, from)) == |rs|
  {
    if rs != [] {
      RepliesAppend(SlotEffects(rs[0], save, comm, from), FanOutEffects(rs[1..], save, comm, from));
      FanOutReplyCount(rs[1..], save, comm, from);
    }
  }

  /**
   * A state command naming a relay acts on the first slot of that name only
   * and sends one reply with its new state; an unknown name changes nothing
   * and sends nothing.
   */
  lemma NamedCommandActsOnOneSlot(dev: RelayDevice, p: Packet, from: Address, localIp: string)
    requires ChangesState(GetArgument(p, CommandKey)) && GetArgument(p, NameKey) != AnyRelay
    ensures var comm := GetArgument(p, CommandKey);
      var r := Receive(dev, p, from, localIp);
      var k := IndexOf(dev, p);
      && (k == -1 ==> r == Reaction(dev, []))
      && (0 <= k ==>
           && dev.relays[k].data.name == GetArgument(p, NameKey)
           && r.next.relays[k] == Commanded(dev.relays[k], comm)
           && (forall j :: 0 <= j < |dev.relays| && j != k ==> r.next.relays[j] == dev.relays[j])
           && r.out == SaveEffects(dev) + [StateReply(r.next, k, comm, from)])
  {
  }

  /**
   * Every other command, an empty one from an undecodable datagram
   * included, gets one "unknown command" reply and changes nothing.
   */
  lemma UnknownCommandGetsOneReply(dev: RelayDevice, p: Packet, from: Address, localIp: string)
    requires var comm := GetArgument(p, CommandKey); comm != RespondCmd && !ChangesState(comm)
    ensures var r := Receive(dev, p, from, localIp);
      && r.next == dev
      && r.out == [Send(from, ResponseMsg(localIp, dev.moduleDescription, UnknownCommandText, GetArgument(p, CommandKey)))]
  {
  }

  /** An undecodable datagram is answered as an unknown, empty command. */
  lemma UndecodableGetsUnknownCommandReply(dev: RelayDevice, from: Address, localIp: string)
    ensures Receive(dev, None, from, localIp)
      == Reaction(dev, [Send(from, ResponseMsg(localIp, dev.moduleDescription, UnknownCommandText, ""))])
  {
  }

  // ---- Public API by name ----

  /**
   * switchRelay(String), setRelayState(String) and getRelayState(String)
   * as written: each looks its name up through a re-parse.
   */
  function SwitchRelayByName(dev: RelayDevice, name: string): (r: Reaction<RelayDevice>)
    ensures r == Reaction(dev, [])
  {
    SwitchLocalRelay(dev, IndexOf(dev, ReparseName(name)))
  }

  function SetRelayStateByName(dev: RelayDevice, name: string, on: bool): (r: Reaction<RelayDevice>)
    ensures r == Reaction(dev, [])
  {
    SetLocalRelayState(dev, IndexOf(dev, ReparseName(name)), on)
  }

  /** The answer to a `respond` naming one relay, as written: looked up through a re-parse. */
  function NamedRespondAsWritten(dev: RelayDevice, name: string, from: Address): (out: seq<Effect>)
    ensures out == []
  {
    RespondToRelayCheck(dev, IndexOf(dev, ReparseName(name)), from)
  }

  function GetRelayStateByName(dev: RelayDevice, name: string): (t: string)
    ensures t == OffText
  {
    GetRelayState(dev, IndexOf(dev, ReparseName(name)))
  }

  /**
   * The by-name API ignores an existing relay: a relay that is on still
   * reads "off", and a respond datagram naming it goes unanswered.
   */
  lemma ByNameIgnoresExistingRelay()
    ensures var dev := RelayDevice([Relay(NewSlot("lamp", 5, true, None, ""), true)], "", false);
      && GetRelayState(dev, 0) == OnText
      && GetRelayStateByName(dev, "lamp") == OffText
      && SwitchRelayByName(dev, "lamp").next == dev
      && NamedRespondAsWritten(dev, "lamp", 0) == []
      && NamedRespondIntended(dev, "lamp", 0) != []
      && Receive(dev, Some(map[CommandKey := RespondCmd, NameKey := "lamp"]), 0, "").out == []
      && ReceiveIntended(dev, Some(map[CommandKey := RespondCmd, NameKey := "lamp"]), 0, "").out != []
  {
    var dev := RelayDevice([Relay(NewSlot("lamp", 5, true, None, ""), true)], "", false);
    assert Names(dev) == ["lamp"];
  }

  /** The lookup the by-name API evidently intends: the first slot holding the name, if any. */
  function LookupName(dev: RelayDevice, name: string): (i: int)
    ensures -1 <= i < |dev.relays|
    ensures i == -1 <==> name == "" || name !in Names(dev)
    ensures 0 <= i ==> dev.relays[i].data.name == name && name !in Names(dev)[..i]
  {
    if name == "" then -1 else FirstIndex(Names(dev), name)
  }

  /** switchRelay(String) with the intended lookup. */
  function SwitchRelayByNameIntended(dev: RelayDevice, name: string): (r: Reaction<RelayDevice>)
    ensures name != "" && name in Names(dev) ==>
      var k := LookupName(dev, name);
      (GetRelayState(r.next, k) == OnText <==> GetRelayState(dev, k) == OffText)
    ensures (name == "" || name !in Names(dev)) ==> r == Reaction(dev, [])
  {
    SwitchLocalRelay(dev, LookupName(dev, name))
  }

  /** setRelayState(String) with the intended lookup. */
  function SetRelayStateByNameIntended(dev: RelayDevice, name: string, on: bool): (r: Reaction<RelayDevice>)
    ensures name != "" && name in Names(dev) ==>
      GetRelayState(r.next, LookupName(dev, name)) == StateText(on)
    ensures (name == "" || name !in Names(dev)) ==> r == Reaction(dev, [])
  {
    SetLocalRelayState(dev, LookupName(dev, name), on)
  }

  /** getRelayState(String) with the intended lookup. */
  function GetRelayStateByNameIntended(dev: RelayDevice, name: string): (t: string)
    ensures t == OnText <==> name != "" && name in Names(dev) && IsOn(dev.relays[LookupName(dev, name)])
  {
    GetRelayState(dev, LookupName(dev, name))
  }

  /** A respond naming one relay, with the intended lookup: one "ok" reply from that relay. */
  function NamedRespondIntended(dev: RelayDevice, name: string, from: Address): (out: seq<Effect>)
    ensures name != "" && name in Names(dev) ==>
      out == [CheckReply(dev, LookupName(dev, name), from)]
    ensures (name == "" || name !in Names(dev)) ==> out == []
  {
    RespondToRelayCheck(dev, LookupName(dev, name), from)
  }
}
