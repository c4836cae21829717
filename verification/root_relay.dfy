/**
 * RelayControl: the relay module of the earlier protocol revision. Its
 * datagrams name the relay under "relay", it only knows the "switch" and
 * "respond" commands, and its state replies say `for: "command"`.
 */
module RelayControl {
  import opened Wrappers
  import opened Wire

  /** RelayData with the level its output pin carries. */
  datatype RelayData = RelayData(name: string, pin: nat, controlHigh: bool, button: Option<ButtonId>, pinLevel: bool)

  /** The module: the relay array handed to begin, relayCount long. */
  type Relays = seq<RelayData>

  /** The relay is on: its pin carries its control level. */
  predicate IsOn(r: RelayData)
  {
    r.pinLevel == r.controlHigh
  }

  /** An index that names an existing relay. */
  predicate InRange(relays: Relays, i: int)
  {
    0 <= i < |relays|
  }

  /**
   * The guard switchRelay and getRelayState are written with,
   * `index >= 0 && index <= relayCount`.
   */
  predicate GuardAsWritten(relays: Relays, i: int)
  {
    0 <= i <= |relays|
  }

  /** The written guard lets through the index one past the last relay. */
  lemma GuardAdmitsPastTheEnd(relays: Relays)
    ensures GuardAsWritten(relays, |relays|) && !InRange(relays, |relays|)
  {
  }

  /** The written guard admits every index the intended one does, and exactly one more. */
  lemma GuardAsWrittenIsOneTooWide(relays: Relays, i: int)
    ensures GuardAsWritten(relays, i) <==> InRange(relays, i) || i == |relays|
  {
  }

  /** begin: every pin is written with the inverse of its control level. */
  function Begin(relays: Relays): (r: Relays)
    ensures |r| == |relays|
    ensures forall i :: 0 <= i < |r| ==> !IsOn(r[i]) && r[i] == relays[i].(pinLevel := r[i].pinLevel)
  {
    seq(|relays|, i requires 0 <= i < |relays| => relays[i].(pinLevel := !relays[i].controlHigh))
  }

  /** getRelayState, with the index check the code evidently intends. */
  function GetRelayState(relays: Relays, i: int): (t: string)
    ensures t == OnText || t == OffText
    ensures t == OnText <==> InRange(relays, i) && IsOn(relays[i])
  {
    if InRange(relays, i) then (if IsOn(relays[i]) then OnText else OffText) else OffText
  }

  /** After begin, every relay reads "off", whatever its control level. */
  lemma AllOffAfterBegin(relays: Relays, i: int)
    ensures GetRelayState(Begin(relays), i) == OffText
  {
  }

  /**
   * switchRelay, with the index check the code evidently intends: the pin
   * level is inverted, every other relay is left alone.
   */
  function SwitchRelay(relays: Relays, i: int): (r: Relays)
    ensures |r| == |relays|
    ensures InRange(relays, i) ==>
      && r[i] == relays[i].(pinLevel := !relays[i].pinLevel)
      && (GetRelayState(r, i) == OnText <==> GetRelayState(relays, i) == OffText)
    ensures forall j :: 0 <= j < |relays| && j != i ==> r[j] == relays[j]
    ensures !InRange(relays, i) ==> r == relays
  {
    if InRange(relays, i) then relays[i := relays[i].(pinLevel := !relays[i].pinLevel)] else relays
  }

  /** Switching a relay twice restores the module exactly. */
  lemma SwitchTwiceIsIdentity(relays: Relays, i: int)
    ensures SwitchRelay(SwitchRelay(relays, i), i) == relays
  {
    if InRange(relays, i) {
      assert SwitchRelay(SwitchRelay(relays, i), i)[i] == relays[i];
    }
  }

  /** A reply of this revision: `{relay, for, resp}`. */
  function Reply(name: string, resp: string, forText: string): (f: Fields)
    ensures f.Keys == {RelayKey, ForKey, ResponseKey}
    ensures GetArgument(Some(f), RelayKey) == StringValue(name)
    ensures GetArgument(Some(f), ForKey) == StringValue(forText)
    ensures GetArgument(Some(f), ResponseKey) == StringValue(resp)
  {
    map[RelayKey := name, ForKey := forText, ResponseKey := resp]
  }

  /** The relay names, in order. */
  function Names(relays: Relays): (names: seq<string>)
    ensures |names| == |relays|
    ensures forall i :: 0 <= i < |names| ==> names[i] == relays[i].name
  {
    seq(|relays|, i requires 0 <= i < |relays| => relays[i].name)
  }

  /** The discovery replies: one "ok" for "respond" per relay, in order. */
  function DiscoveryReplies(relays: Relays, from: Address): (out: seq<Effect>)
    ensures |out| == |relays|
    ensures forall i :: 0 <= i < |relays| ==> out[i] == Send(from, Reply(relays[i].name, OkText, RespondCmd))
  {
    seq(|relays|, i requires 0 <= i < |relays| => Send(from, Reply(relays[i].name, OkText, RespondCmd)))
  }

  /**
   * receiveUdpPacket: `{relay: any_relay, command: respond}` is answered by
   * every relay; otherwise a "switch" to a known name toggles that relay
   * and replies with its new state, `for: "command"`. Anything else is
   * ignored.
   */
  function Receive(relays: Relays, p: Packet, from: Address): (r: Reaction<Relays>)
    ensures |r.next| == |relays|
  {
    if GetArgument(p, RelayKey) == AnyRelay && GetArgument(p, CommandKey) == RespondCmd then
      Reaction(relays, DiscoveryReplies(relays, from))
    else
      var k := IndexByName(Names(relays), p, RelayKey);
      if k >= 0 && GetArgument(p, CommandKey) == SwitchCmd then
        var next := SwitchRelay(relays, k);
        Reaction(next, [Send(from, Reply(next[k].name, GetRelayState(next, k), CommandKey))])
      else
        Reaction(relays, [])
  }

  /** A discovery request gets one "ok" reply per relay and switches nothing. */
  lemma DiscoveryAnswersEveryRelay(relays: Relays, p: Packet, from: Address)
    requires GetArgument(p, RelayKey) == AnyRelay && GetArgument(p, CommandKey) == RespondCmd
    ensures var r := Receive(relays, p, from);
      r.next == relays && |r.out| == |relays|
      && forall i :: 0 <= i < |relays| ==> r.out[i] == Send(from, Reply(relays[i].name, OkText, RespondCmd))
  {
  }

  /**
   * A "switch" naming a relay toggles the first relay of that name only
   * and replies with its new state, `for: "command"`.
   */
  lemma NamedSwitchTogglesOneRelay(relays: Relays, p: Packet, from: Address)
    requires GetArgument(p, RelayKey) != AnyRelay && GetArgument(p, CommandKey) == SwitchCmd
    requires GetArgument(p, RelayKey) != "" && GetArgument(p, RelayKey) in Names(relays)
    ensures var r := Receive(relays, p, from);
      var k := FirstIndex(Names(relays), GetArgument(p, RelayKey));
      && 0 <= k < |relays|
      && r.next == SwitchRelay(relays, k)
      && (GetRelayState(r.next, k) == OnText <==> GetRelayState(relays, k) == OffText)
      && r.out == [Send(from, Reply(relays[k].name, GetRelayState(r.next, k), CommandKey))]
  {
  }

  /** Any other command, or a name no relay has, changes nothing and is not answered. */
  lemma OtherRequestsIgnored(relays: Relays, p: Packet, from: Address)
    requires !(GetArgument(p, RelayKey) == AnyRelay && GetArgument(p, CommandKey) == RespondCmd)
    requires GetArgument(p, CommandKey) != SwitchCmd || GetArgument(p, RelayKey) !in Names(relays)
    ensures Receive(relays, p, from) == Reaction(relays, [])
  {
  }

  /** switchRelay(String) as written: the bare name is re-parsed, so nothing is switched. */
  function SwitchRelayByName(relays: Relays, name: string): (r: Relays)
    ensures r == relays
  {
    SwitchRelay(relays, IndexByName(Names(relays), None, RelayKey))
  }

  /** getRelayState(String) as written: always "off". */
  function GetRelayStateByName(relays: Relays, name: string): (t: string)
    ensures t == OffText
  {
    GetRelayState(relays, IndexByName(Names(relays), None, RelayKey))
  }
}
