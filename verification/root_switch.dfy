/**
 * SwitchControl: the switch module of the earlier protocol revision. It
 * computes its broadcast address once, at begin, and has no error beeps
 * and no connection check.
 */
module SwitchControl {
  import opened Wrappers
  import opened Wire
  import opened Clock
  import opened Network

  /** SwitchData: a binding of one button to one remote relay. */
  datatype SwitchData = SwitchData(name: string, found: bool, address: Address, button: Option<ButtonId>)

  /**
   * The switch module. `timer` is the function-static timer of tick, which
   * starts at 0; `checkTimer` is the re-check period, 30000 ms unless set.
   */
  datatype SwitchDevice = SwitchDevice(
    bindings: seq<SwitchData>,
    broadcast: Address,
    checkTimer: Millis,
    timer: Millis)

  /** The default re-check period. */
  const DefaultCheckTimer: Millis := 30000

  /** begin: the bindings and the broadcast address of the station network. */
  function Begin(bindings: seq<SwitchData>, localIP: Address, subnetMask: Address): (dev: SwitchDevice)
    ensures dev.bindings == bindings
    ensures dev.broadcast & subnetMask == localIP & subnetMask
    ensures dev.broadcast | subnetMask == 0xFFFF_FFFF
    ensures dev.checkTimer == DefaultCheckTimer && dev.timer == 0
  {
    SwitchDevice(bindings, DirectedBroadcast(localIP, subnetMask), DefaultCheckTimer, 0)
  }

  /** setCheckTimer. */
  function SetCheckTimer(dev: SwitchDevice, period: Millis): (d: SwitchDevice)
    ensures d.checkTimer == period && d.bindings == dev.bindings && d.timer == dev.timer
    ensures d.broadcast == dev.broadcast
  {
    dev.(checkTimer := period)
  }

  /** A request of this revision: `{relay, command}`. */
  function Request(name: string, command: string): (f: Fields)
    ensures GetArgument(Some(f), RelayKey) == StringValue(name)
    ensures GetArgument(Some(f), CommandKey) == StringValue(command)
  {
    map[RelayKey := name, CommandKey := command]
  }

  /** The discovery broadcast. */
  function DiscoveryEffect(dev: SwitchDevice): (e: Effect)
    ensures e.Send? && e.to == dev.broadcast
    ensures GetArgument(Some(e.body), RelayKey) == AnyRelay
    ensures GetArgument(Some(e.body), CommandKey) == RespondCmd
  {
    Send(dev.broadcast, Request(AnyRelay, RespondCmd))
  }

  /** findRelays: every binding becomes unresolved, then one discovery broadcast. */
  function FindRelays(dev: SwitchDevice): (r: Reaction<SwitchDevice>)
    ensures |r.next.bindings| == |dev.bindings|
    ensures forall j :: 0 <= j < |dev.bindings| ==> r.next.bindings[j] == dev.bindings[j].(found := false)
    ensures r.next.broadcast == dev.broadcast && r.next.checkTimer == dev.checkTimer && r.next.timer == dev.timer
    ensures r.out == [DiscoveryEffect(dev)]
  {
    var bs := seq(|dev.bindings|, j requires 0 <= j < |dev.bindings| => dev.bindings[j].(found := false));
    Reaction(dev.(bindings := bs), [DiscoveryEffect(dev)])
  }

  /** An index that names an existing binding. */
  predicate InRange(dev: SwitchDevice, i: int)
  {
    0 <= i < |dev.bindings|
  }

  /** The guard switchRelay is written with, `index >= 0 && index <= relayCount`. */
  predicate GuardAsWritten(dev: SwitchDevice, i: int)
  {
    0 <= i <= |dev.bindings|
  }

  /** The written guard lets switchRelay read the binding one past the last. */
  lemma GuardAdmitsPastTheEnd(dev: SwitchDevice)
    ensures GuardAsWritten(dev, |dev.bindings|) && !InRange(dev, |dev.bindings|)
  {
  }

  /**
   * switchRelay, with the index check the code evidently intends: a found
   * relay gets one "switch" datagram at its address and becomes unresolved;
   * otherwise a discovery runs.
   */
  function SwitchRelay(dev: SwitchDevice, i: int): (r: Reaction<SwitchDevice>)
    ensures InRange(dev, i) && dev.bindings[i].found ==>
      && r.next == dev.(bindings := dev.bindings[i := dev.bindings[i].(found := false)])
      && r.out == [Send(dev.bindings[i].address, Request(dev.bindings[i].name, SwitchCmd))]
    ensures InRange(dev, i) && !dev.bindings[i].found ==> r == FindRelays(dev)
    ensures !InRange(dev, i) ==> r == Reaction(dev, [])
  {
    if !InRange(dev, i) then Reaction(dev, [])
    else if dev.bindings[i].found then
      Reaction(dev.(bindings := dev.bindings[i := dev.bindings[i].(found := false)]),
               [Send(dev.bindings[i].address, Request(dev.bindings[i].name, SwitchCmd))])
    else FindRelays(dev)
  }

  /** switchRelay(String) as written: the bare name is re-parsed, so nothing is sent. */
  function SwitchRelayByName(dev: SwitchDevice, name: string): (r: Reaction<SwitchDevice>)
    ensures r == Reaction(dev, [])
  {
    SwitchRelay(dev, IndexByName(Names(dev), None, RelayKey))
  }

  /** The binding names, in order. */
  function Names(dev: SwitchDevice): (names: seq<string>)
    ensures |names| == |dev.bindings|
    ensures forall i :: 0 <= i < |names| ==> names[i] == dev.bindings[i].name
  {
    seq(|dev.bindings|, i requires 0 <= i < |dev.bindings| => dev.bindings[i].name)
  }

  /**
   * receiveUdpPacket: a datagram sent to the broadcast address is skipped.
   * A reply for "respond" from a known relay stores its address and marks
   * it found; a reply for "command" only marks it found; any other reply
   * changes nothing.
   */
  function Receive(dev: SwitchDevice, p: Packet, from: Address, dest: Address): (d: SwitchDevice)
    ensures |d.bindings| == |dev.bindings|
    ensures d.broadcast == dev.broadcast && d.checkTimer == dev.checkTimer && d.timer == dev.timer
  {
    if dest == dev.broadcast then dev
    else
      var k := IndexByName(Names(dev), p, RelayKey);
      if k < 0 then dev
      else
        var forText := GetArgument(p, ForKey);
        if forText == RespondCmd then
          dev.(bindings := dev.bindings[k := dev.bindings[k].(address := from, found := true)])
        else if forText == CommandKey then
          dev.(bindings := dev.bindings[k := dev.bindings[k].(found := true)])
        else dev
  }

  /** How a reply from a known relay changes its binding, by what it answers. */
  lemma ReplyUpdatesBinding(dev: SwitchDevice, p: Packet, from: Address, dest: Address)
    requires dest != dev.broadcast
    requires GetArgument(p, RelayKey) != "" && GetArgument(p, RelayKey) in Names(dev)
    ensures var d := Receive(dev, p, from, dest);
      var k := FirstIndex(Names(dev), GetArgument(p, RelayKey));
      && 0 <= k < |dev.bindings|
      && (GetArgument(p, ForKey) == RespondCmd ==>
            d.bindings == dev.bindings[k := dev.bindings[k].(address := from, found := true)])
      && (GetArgument(p, ForKey) == CommandKey ==>
            d.bindings == dev.bindings[k := dev.bindings[k].(found := true)])
      && (GetArgument(p, ForKey) !in {RespondCmd, CommandKey} ==> d == dev)
  {
  }

  /** A datagram addressed to the broadcast address, or naming no binding, changes nothing. */
  lemma BroadcastOrUnknownIgnored(dev: SwitchDevice, p: Packet, from: Address, dest: Address)
    requires dest == dev.broadcast || GetArgument(p, RelayKey) == "" || GetArgument(p, RelayKey) !in Names(dev)
    ensures Receive(dev, p, from, dest) == dev
  {
  }

  /**
   * The periodic re-check of tick: a discovery runs exactly when
   * `checkTimer` has elapsed since `timer`, in uint32 arithmetic, and
   * `timer` restarts.
   */
  function TickTimer(dev: SwitchDevice, now: Millis): (r: Reaction<SwitchDevice>)
    ensures Elapsed(now, dev.timer) >= dev.checkTimer ==>
      r.next.timer == now && r.out == [DiscoveryEffect(dev)] && |r.next.bindings| == |dev.bindings|
      && forall j :: 0 <= j < |dev.bindings| ==> !r.next.bindings[j].found
    ensures Elapsed(now, dev.timer) < dev.checkTimer ==> r == Reaction(dev, [])
  {
    if Elapsed(now, dev.timer) >= dev.checkTimer then FindRelays(dev.(timer := now))
    else Reaction(dev, [])
  }

  /** Right after begin, the first discovery is due once 30 s have passed. */
  lemma FirstDiscoveryAfterDefaultPeriod(bindings: seq<SwitchData>, localIP: Address, subnetMask: Address, now: Millis)
    ensures var dev := Begin(bindings, localIP, subnetMask);
      |TickTimer(dev, now).out| == (if now >= 30000 then 1 else 0)
  {
  }
}
