/**
 * The two roles talking to each other: a switch module's datagram handed
 * to a relay module, and the relay's reply handed back. These lemmas tie
 * the message builders of one side to the parsers of the other.
 */
module Protocol {
  import opened Wrappers
  import opened Wire
  import opened Network
  import R = RelayResponder
  import S = SwitchInitiator
  import RC = RelayControl
  import SC = SwitchControl

  /** A datagram that reaches a switch directly, not through the broadcast address. */
  predicate Unicast(net: NetState, dest: Address)
  {
    !(net.platform == Esp8266 && dest == BroadcastAddress(net))
  }

  /**
   * Discovery resolves a binding: the start-up broadcast reaches the relay,
   * the relay's "ok" reply for slot `k` comes back, and the switch binding
   * of the same name is found, with the relay's address and description.
   */
  lemma DiscoveryResolvesBinding(sw: S.SwitchDevice, net: NetState, relay: R.RelayDevice, k: int, i: int,
                                 relayIp: Address, switchIp: Address, localIp: string)
    requires 0 <= k < |relay.relays| && 0 <= i < |sw.bindings|
    requires var name := relay.relays[k].data.name;
      name != "" && name != NullText && sw.bindings[i].name == name && name !in S.Names(sw)[..i]
    requires relay.relays[k].data.description != NullText
    requires Unicast(net, switchIp)
    ensures var d := S.StartDevice(sw, net);
      var request := d.out[0];
      var answer := R.Receive(relay, Some(request.body), switchIp, localIp);
      var reply := answer.out[k];
      var s := S.Receive(d.next, net, Some(reply.body), relayIp, switchIp);
      && request.to == BroadcastAddress(net)
      && reply.Send? && reply.to == switchIp
      && s.bindings[i].found
      && s.bindings[i].address == relayIp
      && s.bindings[i].description == relay.relays[k].data.description
  {
    var d := S.StartDevice(sw, net);
    var request := d.out[0];
    R.DiscoveryAnswersEverySlot(relay, Some(request.body), switchIp, localIp);
    var answer := R.Receive(relay, Some(request.body), switchIp, localIp);
    var reply := answer.out[k];
    var name := relay.relays[k].data.name;
    assert S.Names(d.next) == S.Names(sw);
    assert FirstIndex(S.Names(sw), name) == i;
    S.ReplyMarksBindingFound(d.next, net, Some(reply.body), relayIp, switchIp);
  }

  /**
   * The relay side of a command: a command datagram naming slot `k` is
   * carried out by that slot, which reports its new state last.
   */
  lemma RelayExecutesCommand(relay: R.RelayDevice, name: string, comm: string, k: int, from: Address, localIp: string)
    requires R.ChangesState(comm)
    requires name != "" && name != NullText && name != AnyRelay
    requires 0 <= k < |relay.relays| && relay.relays[k].data.name == name && name !in R.Names(relay)[..k]
    ensures var answer := R.Receive(relay, Some(CommandMsg(name, comm)), from, localIp);
      && answer.next.relays[k] == R.Commanded(relay.relays[k], comm)
      && answer.out == R.SaveEffects(relay) + [R.StateReply(answer.next, k, comm, from)]
  {
    var p := Some(CommandMsg(name, comm));
    assert GetArgument(p, NameKey) == name && GetArgument(p, CommandKey) == comm;
    assert FirstIndex(R.Names(relay), name) == k;
    R.NamedCommandActsOnOneSlot(relay, p, from, localIp);
  }

  /**
   * set_all_remote_relay_state reaches every relay module: its broadcast,
   * handed to a relay module, is carried out by every slot, and each slot
   * reports its new state to the switch.
   */
  lemma SetAllReachesEverySlot(sw: S.SwitchDevice, net: NetState, on: bool, relay: R.RelayDevice,
                               switchIp: Address, localIp: string)
    requires net.connected
    ensures var sent := S.SetAllRemote(sw, net, on);
      var comm := S.StateCommand(on);
      var answer := R.Receive(relay, Some(CommandMsg(AnyRelay, comm)), switchIp, localIp);
      && sent.out == [Send(BroadcastAddress(net), CommandMsg(AnyRelay, comm))]
      && (forall j :: 0 <= j < |relay.relays| ==> answer.next.relays[j] == R.Commanded(relay.relays[j], comm))
      && (forall j :: 0 <= j < |relay.relays| ==> R.GetRelayState(answer.next, j) == R.StateText(on))
      && R.Replies(answer.out) == |relay.relays|
  {
    var comm := S.StateCommand(on);
    var p := Some(CommandMsg(AnyRelay, comm));
    assert GetArgument(p, NameKey) == AnyRelay && GetArgument(p, CommandKey) == comm;
    R.FanOutCommandsEverySlot(relay, p, switchIp, localIp);
  }

  /**
   * The switch side of a reply that is not for "respond": the binding of
   * the replying relay's name is marked found and nothing else changes.
   */
  lemma SwitchAcceptsStateReply(sw: S.SwitchDevice, net: NetState, i: int, body: Fields, from: Address, dest: Address)
    requires 0 <= i < |sw.bindings| && Unicast(net, dest)
    requires var name := sw.bindings[i].name;
      name != "" && GetArgument(Some(body), NameKey) == name && name !in S.Names(sw)[..i]
    requires GetArgument(Some(body), ForKey) != RespondCmd
    ensures S.Receive(sw, net, Some(body), from, dest).bindings[i] == sw.bindings[i].(found := true)
  {
    assert FirstIndex(S.Names(sw), sw.bindings[i].name) == i;
    S.ReplyMarksBindingFound(sw, net, Some(body), from, dest);
  }

  /**
   * A command round trip: a switch sends a command to a found relay, the
   * relay named by the binding carries it out and reports its new state,
   * and that reply marks the binding found again (its address unchanged).
   */
  lemma CommandRoundTrip(sw: S.SwitchDevice, net: NetState, i: int, comm: string,
                         relay: R.RelayDevice, k: int, switchIp: Address, localIp: string)
    requires net.connected && S.Bound(sw, i) && sw.bindings[i].found
    requires R.ChangesState(comm)
    requires var name := sw.bindings[i].name;
      name != NullText && name != AnyRelay && name !in S.Names(sw)[..i]
    requires 0 <= k < |relay.relays| && relay.relays[k].data.name == sw.bindings[i].name
    requires sw.bindings[i].name !in R.Names(relay)[..k]
    requires Unicast(net, switchIp)
    ensures S.SendCommand(sw, net, i, comm).out == [S.CommandEffect(sw.bindings[i], comm)]
    ensures S.CommandEffect(sw.bindings[i], comm).body == CommandMsg(sw.bindings[i].name, comm)
    ensures var answer := R.Receive(relay, Some(CommandMsg(sw.bindings[i].name, comm)), switchIp, localIp);
      && answer.next.relays[k] == R.Commanded(relay.relays[k], comm)
      && answer.out == R.SaveEffects(relay) + [R.StateReply(answer.next, k, comm, switchIp)]
    ensures var answer := R.Receive(relay, Some(CommandMsg(sw.bindings[i].name, comm)), switchIp, localIp);
      var reply := R.StateReply(answer.next, k, comm, switchIp);
      var s := S.Receive(S.SendCommand(sw, net, i, comm).next, net, Some(reply.body), sw.bindings[i].address, switchIp);
      s.bindings[i] == sw.bindings[i]
  {
    var name := sw.bindings[i].name;
    var sent := S.SendCommand(sw, net, i, comm);
    RelayExecutesCommand(relay, name, comm, k, switchIp, localIp);
    var answer := R.Receive(relay, Some(CommandMsg(name, comm)), switchIp, localIp);
    var reply := R.StateReply(answer.next, k, comm, switchIp);
    assert S.Names(sent.next) == S.Names(sw);
    SwitchAcceptsStateReply(sent.next, net, i, reply.body, sw.bindings[i].address, switchIp);
  }

  /**
   * The same round trip in the earlier revision: "switch" toggles the
   * relay, and the reply, `for: "command"`, marks the binding found.
   */
  lemma RootSwitchRoundTrip(sw: SC.SwitchDevice, i: int, relays: RC.Relays, k: int, switchIp: Address)
    requires SC.InRange(sw, i) && sw.bindings[i].found
    requires var name := sw.bindings[i].name;
      name != "" && name != NullText && name != AnyRelay && name !in SC.Names(sw)[..i]
    requires 0 <= k < |relays| && relays[k].name == sw.bindings[i].name
    requires sw.bindings[i].name !in RC.Names(relays)[..k]
    requires switchIp != sw.broadcast
    ensures var sent := SC.SwitchRelay(sw, i);
      var answer := RC.Receive(relays, Some(sent.out[0].body), switchIp);
      var s := SC.Receive(sent.next, Some(answer.out[0].body), sw.bindings[i].address, switchIp);
      && answer.next == RC.SwitchRelay(relays, k)
      && (RC.GetRelayState(answer.next, k) == OnText <==> RC.GetRelayState(relays, k) == OffText)
      && s.bindings[i] == sw.bindings[i]
  {
    var name := sw.bindings[i].name;
    var sent := SC.SwitchRelay(sw, i);
    var p := Some(sent.out[0].body);
    assert GetArgument(p, RelayKey) == name;
    assert FirstIndex(RC.Names(relays), name) == k;
    RC.NamedSwitchTogglesOneRelay(relays, p, switchIp);
    var answer := RC.Receive(relays, p, switchIp);
    assert GetArgument(Some(answer.out[0].body), RelayKey) == name;
    assert SC.Names(sent.next) == SC.Names(sw);
    assert FirstIndex(SC.Names(sw), name) == i;
    SC.ReplyUpdatesBinding(sent.next, Some(answer.out[0].body), sw.bindings[i].address, switchIp);
  }

  /**
   * Discovery in the earlier revision: the broadcast is answered by every
   * relay, and the answer of relay `k` resolves the binding of its name at
   * the relay's address.
   */
  lemma RootDiscoveryResolvesBinding(sw: SC.SwitchDevice, relays: RC.Relays, k: int, i: int,
                                     relayIp: Address, switchIp: Address)
    requires 0 <= k < |relays| && 0 <= i < |sw.bindings|
    requires var name := relays[k].name;
      name != "" && name != NullText && sw.bindings[i].name == name && name !in SC.Names(sw)[..i]
    requires switchIp != sw.broadcast
    ensures var d := SC.FindRelays(sw);
      var answer := RC.Receive(relays, Some(d.out[0].body), switchIp);
      var s := SC.Receive(d.next, Some(answer.out[k].body), relayIp, switchIp);
      && s.bindings[i].found && s.bindings[i].address == relayIp
  {
    var d := SC.FindRelays(sw);
    var answer := RC.Receive(relays, Some(d.out[0].body), switchIp);
    RC.DiscoveryAnswersEveryRelay(relays, Some(d.out[0].body), switchIp);
    var name := relays[k].name;
    assert SC.Names(d.next) == SC.Names(sw);
    assert FirstIndex(SC.Names(sw), name) == i;
    SC.ReplyUpdatesBinding(d.next, Some(answer.out[k].body), relayIp, switchIp);
  }
}
