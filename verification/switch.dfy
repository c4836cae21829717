/**
 * shSwitchControl: the switch module. Each binding names a remote relay;
 * the module finds the relays by broadcasting a discovery request, and
 * sends them commands at the address their reply came from.
 */
module SwitchInitiator {
  import opened Wrappers
  import opened Wire
  import opened Clock
  import opened Network

  /** shSwitchData: a binding of one button to one remote relay. */
  datatype Binding = Binding(
    name: string,
    found: bool,
    address: Address,
    button: Option<ButtonId>,
    description: string)

  /** The default shSwitchData: free, unresolved, address 0.0.0.0. */
  function DefaultBinding(): (b: Binding)
    ensures b.name == "" && b.description == "" && !b.found && b.address == 0 && b.button == None
  {
    Binding("", false, 0, None, "")
  }

  /** The named shSwitchData constructor: the relay is not resolved yet. */
  function NewBinding(name: string, button: Option<ButtonId>): (b: Binding)
    ensures b.name == name && b.button == button
    ensures !b.found && b.address == 0 && b.description == ""
  {
    Binding(name, false, 0, button, "")
  }

  /**
   * The switch module. `relayCount` is the relay module's slot count, which
   * the firmware keeps in a variable shared by both roles: on a module
   * that is only a switch it is 0. `checkTimer` is the millis() value of
   * the last periodic discovery, `checkInterval` the period.
   */
  datatype SwitchDevice = SwitchDevice(
    bindings: seq<Binding>,
    relayCount: nat,
    checkTimer: Millis,
    checkInterval: Millis)

  /** The binding names, in order. */
  function Names(dev: SwitchDevice): (names: seq<string>)
    ensures |names| == |dev.bindings|
    ensures forall i :: 0 <= i < |names| ==> names[i] == dev.bindings[i].name
  {
    seq(|dev.bindings|, i requires 0 <= i < |dev.bindings| => dev.bindings[i].name)
  }

  /** A module after init(n): n default bindings. */
  function Init(n: nat, relayCount: nat, checkInterval: Millis): (dev: SwitchDevice)
    ensures |dev.bindings| == n && dev.relayCount == relayCount && dev.checkInterval == checkInterval
    ensures forall i :: 0 <= i < n ==> dev.bindings[i] == DefaultBinding()
  {
    SwitchDevice(seq(n, _ => DefaultBinding()), relayCount, 0, checkInterval)
  }

  /** Binding `k` is free and no binding before it is. */
  predicate FirstFree(dev: SwitchDevice, k: int)
    requires 0 <= k < |dev.bindings|
  {
    dev.bindings[k].name == "" && forall j :: 0 <= j < k ==> dev.bindings[j].name != ""
  }

  /** addRelay: the first free binding takes the name; true exactly when one was free. */
  function AddBinding(dev: SwitchDevice, name: string, button: Option<ButtonId>): (r: (SwitchDevice, bool))
    ensures r.1 <==> "" in Names(dev)
    ensures !r.1 ==> r.0 == dev
    ensures r.1 ==> exists k :: (0 <= k < |dev.bindings| && FirstFree(dev, k)
      && r.0 == dev.(bindings := dev.bindings[k := NewBinding(name, button)]))
  {
    var k := FirstIndex(Names(dev), "");
    if k < 0 then (dev, false)
    else
      assert FirstFree(dev, k) by {
        forall j | 0 <= j < k ensures dev.bindings[j].name != "" {
          assert Names(dev)[..k][j] == Names(dev)[j];
        }
      }
      (dev.(bindings := dev.bindings[k := NewBinding(name, button)]), true)
  }

  /** The broadcast datagram of a discovery: `any_relay`, "respond". */
  function DiscoveryEffect(net: NetState): (e: Effect)
    ensures e.Send? && e.to == BroadcastAddress(net)
    ensures GetArgument(Some(e.body), NameKey) == AnyRelay
    ensures GetArgument(Some(e.body), CommandKey) == RespondCmd
  {
    Send(BroadcastAddress(net), DiscoveryRequest())
  }

  /**
   * find_remote_relays: marks bindings as not found, but only those whose
   * index is below the relay module's count, then broadcasts one discovery
   * request.
   */
  function Discover(dev: SwitchDevice, net: NetState): (r: Reaction<SwitchDevice>)
    ensures |r.next.bindings| == |dev.bindings|
    ensures forall j :: 0 <= j < |dev.bindings| ==>
      r.next.bindings[j] == dev.bindings[j].(found := dev.bindings[j].found && j >= dev.relayCount)
    ensures r.next.relayCount == dev.relayCount && r.next.checkTimer == dev.checkTimer
    ensures r.next.checkInterval == dev.checkInterval
    ensures r.out == [DiscoveryEffect(net)]
  {
    var bs := seq(|dev.bindings|, j requires 0 <= j < |dev.bindings| =>
      if j < dev.relayCount then dev.bindings[j].(found := false) else dev.bindings[j]);
    Reaction(dev.(bindings := bs), [DiscoveryEffect(net)])
  }

  /** On a module that is only a switch, discovery leaves every found binding found. */
  lemma DiscoverKeepsFoundWithoutRelays()
    ensures var dev := SwitchDevice([Binding("lamp", true, 0xC0A8_0105, None, "")], 0, 0, 30000);
      var net := NetState(true, 0xC0A8_0102, 0xFFFF_FF00, 0, 0, Esp8266);
      Discover(dev, net).next.bindings[0].found
  {
  }

  /** Discovery as evidently intended: every binding is marked as not found. */
  function DiscoverAll(dev: SwitchDevice, net: NetState): (r: Reaction<SwitchDevice>)
    ensures |r.next.bindings| == |dev.bindings|
    ensures forall j :: 0 <= j < |dev.bindings| ==> r.next.bindings[j] == dev.bindings[j].(found := false)
    ensures r.next.relayCount == dev.relayCount && r.next.checkTimer == dev.checkTimer
    ensures r.next.checkInterval == dev.checkInterval
    ensures r.out == [DiscoveryEffect(net)]
  {
    var bs := seq(|dev.bindings|, j requires 0 <= j < |dev.bindings| => dev.bindings[j].(found := false));
    Reaction(dev.(bindings := bs), [DiscoveryEffect(net)])
  }

  /**
   * The two discoveries agree exactly when the relay module's count covers
   * every binding; on a module with fewer relay slots than bindings, the
   * written one leaves the bindings past that count as they were.
   */
  lemma DiscoverAgreesWhenRelaysCoverBindings(dev: SwitchDevice, net: NetState)
    ensures dev.relayCount >= |dev.bindings| ==> Discover(dev, net) == DiscoverAll(dev, net)
    ensures forall j :: dev.relayCount <= j < |dev.bindings| && dev.bindings[j].found ==>
      Discover(dev, net).next.bindings[j].found && !DiscoverAll(dev, net).next.bindings[j].found
  {
    if dev.relayCount >= |dev.bindings| {
      assert Discover(dev, net).next.bindings == DiscoverAll(dev, net).next.bindings;
    }
  }

  /** The datagram send_command_for_relay sends to a resolved relay. */
  function CommandEffect(b: Binding, command: string): (e: Effect)
    ensures e.Send? && e.to == b.address
    ensures GetArgument(Some(e.body), NameKey) == StringValue(b.name)
    ensures GetArgument(Some(e.body), CommandKey) == StringValue(command)
  {
    Send(b.address, CommandMsg(b.name, command))
  }

  /** A bound, existing binding: the index is in range and the name is not empty. */
  predicate Bound(dev: SwitchDevice, i: int)
  {
    0 <= i < |dev.bindings| && dev.bindings[i].name != ""
  }

  /**
   * send_command_for_relay, four outcomes:
   * - no WiFi connection: three error beeps, nothing else;
   * - a bound, found relay: one command datagram to its address, and the
   *   binding is marked not found until the relay answers again;
   * - a bound relay not found: two error beeps and a discovery, which
   *   (as written) clears only the bindings below the relay module's count;
   * - an index out of range or a free binding: nothing.
   */
  function SendCommand(dev: SwitchDevice, net: NetState, i: int, command: string): (r: Reaction<SwitchDevice>)
    ensures !net.connected ==> r == Reaction(dev, [ErrorBeep(3)])
    ensures net.connected && Bound(dev, i) && dev.bindings[i].found ==>
      && r.next == dev.(bindings := dev.bindings[i := dev.bindings[i].(found := false)])
      && r.out == [CommandEffect(dev.bindings[i], command)]
    ensures net.connected && Bound(dev, i) && !dev.bindings[i].found ==>
      && r.next == Discover(dev, net).next
      && r.out == [ErrorBeep(2), DiscoveryEffect(net)]
    ensures net.connected && !Bound(dev, i) ==> r == Reaction(dev, [])
  {
    if !net.connected then Reaction(dev, [ErrorBeep(3)])
    else if Bound(dev, i) then
      if dev.bindings[i].found then
        Reaction(dev.(bindings := dev.bindings[i := dev.bindings[i].(found := false)]),
                 [CommandEffect(dev.bindings[i], command)])
      else
        var d := Discover(dev, net);
        Reaction(d.next, [ErrorBeep(2)] + d.out)
    else Reaction(dev, [])
  }

  /**
   * switch_remote_relay: the "switch" command through send_command_for_relay,
   * with each of its four outcomes.
   */
  function SwitchRemoteRelay(dev: SwitchDevice, net: NetState, i: int): (r: Reaction<SwitchDevice>)
    ensures !net.connected ==> r == Reaction(dev, [ErrorBeep(3)])
    ensures net.connected && Bound(dev, i) && dev.bindings[i].found ==>
      && r.out == [Send(dev.bindings[i].address, CommandMsg(dev.bindings[i].name, SwitchCmd))]
      && r.next == dev.(bindings := dev.bindings[i := dev.bindings[i].(found := false)])
    ensures net.connected && Bound(dev, i) && !dev.bindings[i].found ==>
      && r.out == [ErrorBeep(2), DiscoveryEffect(net)]
      && r.next == Discover(dev, net).next
    ensures net.connected && !Bound(dev, i) ==> r == Reaction(dev, [])
  {
    SendCommand(dev, net, i, SwitchCmd)
  }

  /** The command that sets a relay on or off. */
  function StateCommand(on: bool): (c: string)
    ensures c == SetOnCmd || c == SetOffCmd
    ensures c == SetOnCmd <==> on
  {
    if on then SetOnCmd else SetOffCmd
  }

  /**
   * set_remote_relay_state: "set_on" or "set_off" through
   * send_command_for_relay, with each of its four outcomes.
   */
  function SetRemoteRelayState(dev: SwitchDevice, net: NetState, i: int, on: bool): (r: Reaction<SwitchDevice>)
    ensures !net.connected ==> r == Reaction(dev, [ErrorBeep(3)])
    ensures net.connected && Bound(dev, i) && dev.bindings[i].found ==>
      && r.out == [Send(dev.bindings[i].address, CommandMsg(dev.bindings[i].name, StateCommand(on)))]
      && r.next == dev.(bindings := dev.bindings[i := dev.bindings[i].(found := false)])
    ensures net.connected && Bound(dev, i) && !dev.bindings[i].found ==>
      && r.out == [ErrorBeep(2), DiscoveryEffect(net)]
      && r.next == Discover(dev, net).next
    ensures net.connected && !Bound(dev, i) ==> r == Reaction(dev, [])
  {
    SendCommand(dev, net, i, StateCommand(on))
  }

  /**
   * Two commands to one relay with no reply in between: the first is sent
   * (when the relay was found), the second finds the binding unresolved and
   * runs a discovery. At most one command goes out per resolution.
   */
  lemma AtMostOneCommandPerResolution(dev: SwitchDevice, net: NetState, i: int, c1: string, c2: string)
    requires net.connected && Bound(dev, i) && dev.bindings[i].found
    ensures var r1 := SendCommand(dev, net, i, c1);
      var r2 := SendCommand(r1.next, net, i, c2);
      && r1.out == [CommandEffect(dev.bindings[i], c1)]
      && r2.out == [ErrorBeep(2), DiscoveryEffect(net)]
  {
    var r1 := SendCommand(dev, net, i, c1);
    assert Bound(r1.next, i) && !r1.next.bindings[i].found;
  }

  /**
   * set_all_remote_relay_state: one broadcast to `any_relay`, or three error
   * beeps without a connection. No binding changes.
   */
  function SetAllRemote(dev: SwitchDevice, net: NetState, on: bool): (r: Reaction<SwitchDevice>)
    ensures r.next == dev
    ensures net.connected ==> r.out == [Send(BroadcastAddress(net), CommandMsg(AnyRelay, StateCommand(on)))]
    ensures !net.connected ==> r.out == [ErrorBeep(3)]
  {
    if net.connected then Reaction(dev, [Send(BroadcastAddress(net), CommandMsg(AnyRelay, StateCommand(on)))])
    else Reaction(dev, [ErrorBeep(3)])
  }

  /** Names, addresses and the rest of each binding stay; only `found` may change. */
  predicate SameBindings(a: SwitchDevice, b: SwitchDevice)
  {
    && |a.bindings| == |b.bindings| && a.relayCount == b.relayCount
    && forall j :: 0 <= j < |a.bindings| ==> a.bindings[j] == b.bindings[j].(found := a.bindings[j].found)
  }

  /**
   * Every datagram is either a discovery broadcast or the command `comm`
   * for a bound relay of `dev`, sent to that relay's stored address.
   */
  predicate OnlyBoundTargets(dev: SwitchDevice, net: NetState, comm: string, out: seq<Effect>)
  {
    forall e :: e in out && e.Send? ==>
      e == DiscoveryEffect(net)
      || exists j :: 0 <= j < |dev.bindings| && Bound(dev, j) && e == CommandEffect(dev.bindings[j], comm)
  }

  /** The loop of setStateForAll with `_self`: set_remote_relay_state for bindings `i..`. */
  function SetStateFrom(dev: SwitchDevice, net: NetState, on: bool, i: nat): (r: Reaction<SwitchDevice>)
    requires i <= |dev.bindings|
    ensures SameBindings(r.next, dev)
    ensures r.next.checkTimer == dev.checkTimer && r.next.checkInterval == dev.checkInterval
    ensures OnlyBoundTargets(dev, net, StateCommand(on), r.out)
    ensures net.connected && AllBoundFound(dev, i) ==>
      r.out == BoundCommands(dev.bindings[i..], StateCommand(on)) && ClearedFrom(r.next, dev, i)
    decreases |dev.bindings| - i
  {
    if i == |dev.bindings| then
      assert dev.bindings[i..] == [];
      Reaction(dev, [])
    else
      var first := SetRemoteRelayState(dev, net, i, on);
      var rest := SetStateFrom(first.next, net, on, i + 1);
      FoundStepCombined(dev, net, on, i, rest.out, rest.next);
      CommandStepKeepsBindings(dev, net, i, StateCommand(on));
      BoundTargetsCarryOver(dev, first.next, net, StateCommand(on), rest.out);
      BoundTargetsAppend(dev, net, StateCommand(on), first.out, rest.out);
      SameBindingsChain(rest.next, first.next, dev);
      Reaction(rest.next, first.out + rest.out)
  }

  /** One command step keeps the bindings and only addresses a bound relay or the broadcast. */
  lemma CommandStepKeepsBindings(dev: SwitchDevice, net: NetState, i: int, comm: string)
    ensures var r := SendCommand(dev, net, i, comm);
      && SameBindings(r.next, dev)
      && r.next.checkTimer == dev.checkTimer && r.next.checkInterval == dev.checkInterval
      && OnlyBoundTargets(dev, net, comm, r.out)
  {
  }

  /** Allowed targets are closed under concatenation. */
  lemma BoundTargetsAppend(dev: SwitchDevice, net: NetState, comm: string, a: seq<Effect>, b: seq<Effect>)
    requires OnlyBoundTargets(dev, net, comm, a) && OnlyBoundTargets(dev, net, comm, b)
    ensures OnlyBoundTargets(dev, net, comm, a + b)
  {
  }

  /** SameBindings is transitive. */
  lemma SameBindingsChain(a: SwitchDevice, b: SwitchDevice, c: SwitchDevice)
    requires SameBindings(a, b) && SameBindings(b, c)
    ensures SameBindings(a, c)
  {
  }

  /** The targets allowed after a step are the ones allowed before it. */
  lemma BoundTargetsCarryOver(dev: SwitchDevice, d: SwitchDevice, net: NetState, comm: string, out: seq<Effect>)
    requires SameBindings(d, dev)
    requires OnlyBoundTargets(d, net, comm, out)
    ensures OnlyBoundTargets(dev, net, comm, out)
  {
    forall e | e in out && e.Send? && e != DiscoveryEffect(net)
      ensures exists j :: 0 <= j < |dev.bindings| && Bound(dev, j) && e == CommandEffect(dev.bindings[j], comm)
    {
      var j :| 0 <= j < |d.bindings| && Bound(d, j) && e == CommandEffect(d.bindings[j], comm);
      assert d.bindings[j].name == dev.bindings[j].name && d.bindings[j].address == dev.bindings[j].address;
      assert CommandEffect(d.bindings[j], comm) == CommandEffect(dev.bindings[j], comm);
    }
  }

  /** The state commands for the bound bindings among `bs`, in order; free ones are skipped. */
  function BoundCommands(bs: seq<Binding>, comm: string): (out: seq<Effect>)
    ensures |out| <= |bs|
    decreases |bs|
  {
    if bs == [] then []
    else (if bs[0].name != "" then [CommandEffect(bs[0], comm)] else []) + BoundCommands(bs[1..], comm)
  }

  /** Every bound binding from index `i` on is resolved. */
  predicate AllBoundFound(dev: SwitchDevice, i: nat)
  {
    forall j :: i <= j < |dev.bindings| && Bound(dev, j) ==> dev.bindings[j].found
  }

  /** `d` is `dev` with every bound binding from index `i` on marked unresolved. */
  predicate ClearedFrom(d: SwitchDevice, dev: SwitchDevice, i: nat)
  {
    && |d.bindings| == |dev.bindings|
    && forall j :: 0 <= j < |dev.bindings| ==>
         d.bindings[j] == if i <= j && Bound(dev, j) then dev.bindings[j].(found := false) else dev.bindings[j]
  }

  /** The first iteration's command and the rest's commands make up the commands from `i` on. */
  lemma CombineFoundStep(dev: SwitchDevice, i: nat, comm: string,
                         firstOut: seq<Effect>, firstNext: SwitchDevice, restOut: seq<Effect>, restNext: SwitchDevice)
    requires i < |dev.bindings|
    requires firstOut == (if Bound(dev, i) then [CommandEffect(dev.bindings[i], comm)] else [])
    requires |firstNext.bindings| == |dev.bindings|
    requires firstNext.bindings[i] == (if Bound(dev, i) then dev.bindings[i].(found := false) else dev.bindings[i])
    requires forall j :: 0 <= j < |dev.bindings| && j != i ==> firstNext.bindings[j] == dev.bindings[j]
    requires firstNext.bindings[i + 1..] == dev.bindings[i + 1..]
    requires restOut == BoundCommands(firstNext.bindings[i + 1..], comm) && ClearedFrom(restNext, firstNext, i + 1)
    ensures firstOut + restOut == BoundCommands(dev.bindings[i..], comm) && ClearedFrom(restNext, dev, i)
  {
    BoundCommandsStep(dev.bindings, i, comm);
    forall j | 0 <= j < |dev.bindings|
      ensures restNext.bindings[j] == if i <= j && Bound(dev, j) then dev.bindings[j].(found := false) else dev.bindings[j]
    {
      if j != i {
        assert firstNext.bindings[j] == dev.bindings[j];
      }
    }
  }

  /**
   * The step that carries the commands to resolved relays through one
   * iteration: if every bound binding from `i` on is resolved, the first
   * iteration leaves the rest resolved, and its command followed by the
   * commands of the rest are the commands from `i` on.
   */
  lemma FoundStepCombined(dev: SwitchDevice, net: NetState, on: bool, i: nat, restOut: seq<Effect>, restNext: SwitchDevice)
    requires i < |dev.bindings|
    ensures var first := SetRemoteRelayState(dev, net, i, on);
      net.connected && AllBoundFound(dev, i) ==>
        && AllBoundFound(first.next, i + 1)
        && (restOut == BoundCommands(first.next.bindings[i + 1..], StateCommand(on))
            && ClearedFrom(restNext, first.next, i + 1) ==>
              first.out + restOut == BoundCommands(dev.bindings[i..], StateCommand(on))
              && ClearedFrom(restNext, dev, i))
  {
    if net.connected && AllBoundFound(dev, i) {
      var first := SetRemoteRelayState(dev, net, i, on);
      FoundStep(dev, net, on, i);
      if restOut == BoundCommands(first.next.bindings[i + 1..], StateCommand(on)) && ClearedFrom(restNext, first.next, i + 1) {
        CombineFoundStep(dev, i, StateCommand(on), first.out, first.next, restOut, restNext);
      }
    }
  }

  /** One step of the loop over resolved bindings: binding `i` gets its command and nothing else changes. */
  lemma FoundStep(dev: SwitchDevice, net: NetState, on: bool, i: nat)
    requires i < |dev.bindings| && net.connected && AllBoundFound(dev, i)
    ensures var first := SetRemoteRelayState(dev, net, i, on);
      && first.out == (if Bound(dev, i) then [CommandEffect(dev.bindings[i], StateCommand(on))] else [])
      && |first.next.bindings| == |dev.bindings|
      && first.next.bindings[i] == (if Bound(dev, i) then dev.bindings[i].(found := false) else dev.bindings[i])
      && (forall j :: 0 <= j < |dev.bindings| && j != i ==> first.next.bindings[j] == dev.bindings[j])
      && AllBoundFound(first.next, i + 1)
      && first.next.bindings[i + 1..] == dev.bindings[i + 1..]
  {
  }

  /** BoundCommands over a suffix, unfolded once. */
  lemma BoundCommandsStep(bs: seq<Binding>, i: nat, comm: string)
    requires i < |bs|
    ensures BoundCommands(bs[i..], comm)
      == (if bs[i].name != "" then [CommandEffect(bs[i], comm)] else []) + BoundCommands(bs[i + 1..], comm)
  {
    assert bs[i..][1..] == bs[i + 1..];
  }

  /** Without a connection, every binding's command ends in three error beeps and nothing changes. */
  lemma {:induction false} SetStateWithoutConnectionBeeps(dev: SwitchDevice, net: NetState, on: bool, i: nat)
    requires i <= |dev.bindings| && !net.connected
    ensures SetStateFrom(dev, net, on, i) == Reaction(dev, seq(|dev.bindings| - i, _ => ErrorBeep(3)))
    decreases |dev.bindings| - i
  {
    if i < |dev.bindings| {
      SetStateWithoutConnectionBeeps(dev, net, on, i + 1);
      assert [ErrorBeep(3)] + seq(|dev.bindings| - (i + 1), _ => ErrorBeep(3)) == seq(|dev.bindings| - i, _ => ErrorBeep(3));
    }
  }

  /**
   * setStateForAll: with `_self`, set_remote_relay_state for every binding,
   * so commands go only to the relays bound to this switch (discoveries
   * aside), and every resolved bound relay gets its command in order;
   * otherwise one broadcast addresses every relay on the network.
   */
  function SetStateForAll(dev: SwitchDevice, net: NetState, on: bool, self: bool): (r: Reaction<SwitchDevice>)
    ensures self ==> SameBindings(r.next, dev) && OnlyBoundTargets(dev, net, StateCommand(on), r.out)
    ensures self && net.connected && AllBoundFound(dev, 0) ==>
      r.out == BoundCommands(dev.bindings, StateCommand(on)) && ClearedFrom(r.next, dev, 0)
    ensures self && !net.connected ==> r == Reaction(dev, seq(|dev.bindings|, _ => ErrorBeep(3)))
    ensures !self ==> r == SetAllRemote(dev, net, on)
  {
    if !self then SetAllRemote(dev, net, on)
    else if net.connected && AllBoundFound(dev, 0) then
      assert dev.bindings[0..] == dev.bindings;
      SetStateFrom(dev, net, on, 0)
    else if !net.connected then
      SetStateWithoutConnectionBeeps(dev, net, on, 0);
      SetStateFrom(dev, net, on, 0)
    else SetStateFrom(dev, net, on, 0)
  }

  /**
   * On a module that is only a switch, an unresolved binding's discovery
   * leaves another found binding found, so a following setStateForAll
   * still commands it; the intended discovery would have cleared it.
   */
  lemma CommandKeepsOtherFoundWithoutRelays()
    ensures var dev := SwitchDevice([Binding("a", false, 0, None, ""), Binding("b", true, 0xC0A8_0106, None, "")], 0, 0, 30000);
      var net := NetState(true, 0xC0A8_0102, 0xFFFF_FF00, 0, 0, Esp8266);
      var s := SendCommand(dev, net, 0, SwitchCmd);
      && s.out == [ErrorBeep(2), DiscoveryEffect(net)]
      && s.next.bindings[1].found
      && !DiscoverAll(dev, net).next.bindings[1].found
      && SetStateForAll(s.next, net, true, true).out
         == [ErrorBeep(2), DiscoveryEffect(net), CommandEffect(dev.bindings[1], SetOnCmd)]
  {
    var dev := SwitchDevice([Binding("a", false, 0, None, ""), Binding("b", true, 0xC0A8_0106, None, "")], 0, 0, 30000);
    var net := NetState(true, 0xC0A8_0102, 0xFFFF_FF00, 0, 0, Esp8266);
    var s := SendCommand(dev, net, 0, SwitchCmd);
    assert s.next == dev;
    var first := SetRemoteRelayState(dev, net, 0, true);
    assert first.next == dev;
    var second := SetRemoteRelayState(first.next, net, 1, true);
    assert second.out == [CommandEffect(dev.bindings[1], SetOnCmd)];
    assert SetStateFrom(second.next, net, true, 2).out == [];
  }

  // ---- Public API by name ----

  /**
   * switchRelay(String) and setRelayState(String) as written: the name is
   * looked up through a re-parse of the bare name, which finds no binding,
   * so no command is sent; without a connection the error beeps still sound.
   */
  function SwitchRelayByName(dev: SwitchDevice, net: NetState, name: string): (r: Reaction<SwitchDevice>)
    ensures r.next == dev
    ensures r.out == if net.connected then [] else [ErrorBeep(3)]
  {
    SwitchRemoteRelay(dev, net, IndexByName(Names(dev), None, NameKey))
  }

  function SetRelayStateByName(dev: SwitchDevice, net: NetState, name: string, on: bool): (r: Reaction<SwitchDevice>)
    ensures r.next == dev
    ensures r.out == if net.connected then [] else [ErrorBeep(3)]
  {
    SetRemoteRelayState(dev, net, IndexByName(Names(dev), None, NameKey), on)
  }

  /** The lookup the by-name API evidently intends: the first binding holding the name, if any. */
  function LookupName(dev: SwitchDevice, name: string): (i: int)
    ensures -1 <= i < |dev.bindings|
    ensures i == -1 <==> name == "" || name !in Names(dev)
    ensures 0 <= i ==> dev.bindings[i].name == name
  {
    if name == "" then -1 else FirstIndex(Names(dev), name)
  }

  /** switchRelay(String) with the intended lookup: a found relay of that name gets "switch". */
  function SwitchRelayByNameIntended(dev: SwitchDevice, net: NetState, name: string): (r: Reaction<SwitchDevice>)
    ensures net.connected && name != "" && name in Names(dev) && dev.bindings[LookupName(dev, name)].found ==>
      r.out == [CommandEffect(dev.bindings[LookupName(dev, name)], SwitchCmd)]
    ensures net.connected && (name == "" || name !in Names(dev)) ==> r == Reaction(dev, [])
  {
    SendCommand(dev, net, LookupName(dev, name), SwitchCmd)
  }

  /** The by-name API as written does not reach a found relay that the intended lookup reaches. */
  lemma ByNameMissesFoundRelay()
    ensures var dev := SwitchDevice([Binding("lamp", true, 0xC0A8_0105, None, "")], 0, 0, 30000);
      var net := NetState(true, 0xC0A8_0102, 0xFFFF_FF00, 0, 0, Esp8266);
      && SwitchRelayByName(dev, net, "lamp").out == []
      && SwitchRelayByNameIntended(dev, net, "lamp").out == [CommandEffect(dev.bindings[0], SwitchCmd)]
  {
    var dev := SwitchDevice([Binding("lamp", true, 0xC0A8_0105, None, "")], 0, 0, 30000);
    assert Names(dev) == ["lamp"];
  }

  /**
   * receiveUdpPacket on the switch. On ESP8266 a datagram sent to the
   * broadcast address is skipped. Otherwise a reply naming a binding marks
   * it found, whatever it answers; a reply to "respond" also records the
   * relay's description and the address it came from. Other names change
   * nothing.
   */
  function Receive(dev: SwitchDevice, net: NetState, p: Packet, from: Address, dest: Address): (d: SwitchDevice)
    ensures |d.bindings| == |dev.bindings| && d.relayCount == dev.relayCount
    ensures forall j :: 0 <= j < |d.bindings| ==> d.bindings[j].name == dev.bindings[j].name
    ensures d.checkTimer == dev.checkTimer && d.checkInterval == dev.checkInterval
  {
    if net.platform == Esp8266 && dest == BroadcastAddress(net) then dev
    else
      var k := IndexByName(Names(dev), p, NameKey);
      if k < 0 then dev
      else
        var b := dev.bindings[k].(found := true);
        var b' := if GetArgument(p, ForKey) == RespondCmd
                  then b.(description := GetArgument(p, DescrKey), address := from)
                  else b;
        dev.(bindings := dev.bindings[k := b'])
  }

  /** A broadcast seen by an ESP8266 switch changes nothing. */
  lemma Esp8266SkipsBroadcast(dev: SwitchDevice, net: NetState, p: Packet, from: Address)
    requires net.platform == Esp8266
    ensures Receive(dev, net, p, from, BroadcastAddress(net)) == dev
  {
  }

  /**
   * A reply naming a known relay marks its first binding found, whatever
   * its "for"; only a "respond" reply also stores the description and the
   * sender's address. Every other binding is left alone.
   */
  lemma ReplyMarksBindingFound(dev: SwitchDevice, net: NetState, p: Packet, from: Address, dest: Address)
    requires !(net.platform == Esp8266 && dest == BroadcastAddress(net))
    requires GetArgument(p, NameKey) != "" && GetArgument(p, NameKey) in Names(dev)
    ensures var d := Receive(dev, net, p, from, dest);
      var k := FirstIndex(Names(dev), GetArgument(p, NameKey));
      && 0 <= k < |dev.bindings|
      && d.bindings[k].found
      && d.bindings[k].name == dev.bindings[k].name
      && (GetArgument(p, ForKey) == RespondCmd ==>
            d.bindings[k].address == from && d.bindings[k].description == GetArgument(p, DescrKey))
      && (GetArgument(p, ForKey) != RespondCmd ==>
            d.bindings[k] == dev.bindings[k].(found := true))
      && forall j :: 0 <= j < |dev.bindings| && j != k ==> d.bindings[j] == dev.bindings[j]
  {
  }

  /** A reply whose name is empty or belongs to no binding changes nothing. */
  lemma UnknownReplyIgnored(dev: SwitchDevice, net: NetState, p: Packet, from: Address, dest: Address)
    requires GetArgument(p, NameKey) == "" || GetArgument(p, NameKey) !in Names(dev)
    ensures Receive(dev, net, p, from, dest) == dev
  {
  }

  /**
   * The periodic re-check of tick: a discovery runs exactly when
   * `checkInterval` has elapsed since `checkTimer` in uint32 arithmetic,
   * and the timer restarts at `now`. The discovery is find_remote_relays as
   * written: bindings below the relay module's count become unresolved,
   * the others keep their state.
   */
  function TickTimer(dev: SwitchDevice, net: NetState, now: Millis): (r: Reaction<SwitchDevice>)
    ensures Elapsed(now, dev.checkTimer) >= dev.checkInterval ==>
      && r.next.checkTimer == now && r.out == [DiscoveryEffect(net)]
      && |r.next.bindings| == |dev.bindings|
      && forall j :: 0 <= j < |dev.bindings| ==>
           r.next.bindings[j] == dev.bindings[j].(found := dev.bindings[j].found && j >= dev.relayCount)
    ensures Elapsed(now, dev.checkTimer) < dev.checkInterval ==> r == Reaction(dev, [])
  {
    if Elapsed(now, dev.checkTimer) >= dev.checkInterval then
      Discover(dev.(checkTimer := now), net)
    else Reaction(dev, [])
  }

  /** The timer survives the wrap-around of millis(). */
  lemma TickAcrossWrapAround(dev: SwitchDevice, net: NetState, d: Millis)
    ensures var now := Advance(dev.checkTimer, d);
      TickTimer(dev, net, now).out == (if d >= dev.checkInterval then [DiscoveryEffect(net)] else [])
  {
    ElapsedAfterAdvance(dev.checkTimer, d);
  }

  /**
   * startDevice: the first discovery. The bindings below the relay module's
   * count become unresolved; the others keep their state, so every binding
   * is unresolved only when that count covers them all.
   */
  function StartDevice(dev: SwitchDevice, net: NetState): (r: Reaction<SwitchDevice>)
    ensures r.out == [DiscoveryEffect(net)] && |r.next.bindings| == |dev.bindings|
    ensures forall j :: 0 <= j < |dev.bindings| ==>
      r.next.bindings[j].found == (dev.bindings[j].found && j >= dev.relayCount)
    ensures dev.relayCount >= |dev.bindings| ==> forall j :: 0 <= j < |dev.bindings| ==> !r.next.bindings[j].found
  {
    Discover(dev, net)
  }
}
