/** Broadcast-address computation of get_broadcast_address. */
module Network {
  import opened Wire

  /** The two build targets; only ESP8266 can filter by destination address. */
  datatype Platform = Esp8266 | Esp32

  /** What the firmware asks the WiFi stack, fixed for one step. */
  datatype NetState = NetState(
    connected: bool,
    localIP: Address,
    subnetMask: Address,
    softApIP: Address,
    softApBroadcast: Address,  // what ESP32's softAPBroadcastIP() reports
    platform: Platform)

  /**
   * The mask the ESP8266 assumes for its own access point, 255.255.255.0.
   * Addresses are written with the first octet in the high byte; the
   * firmware's uint32 view of an IPAddress stores the octets the other way
   * round, which does not matter here because every operation applied to
   * addresses is bit-wise.
   */
  const ApMask: Address := 0xFFFF_FF00

  /**
   * `ip | ~mask`: keeps the network bits of `ip` (those set in `mask`) and
   * sets every host bit (those clear in `mask`).
   */
  function DirectedBroadcast(ip: Address, mask: Address): (r: Address)
    ensures r & mask == ip & mask
    ensures r | mask == 0xFFFF_FFFF
  {
    ip | !mask
  }

  /** get_broadcast_address. */
  function BroadcastAddress(net: NetState): (r: Address)
    ensures net.connected ==> r == DirectedBroadcast(net.localIP, net.subnetMask)
    ensures !net.connected && net.platform == Esp8266 ==> r == DirectedBroadcast(net.softApIP, ApMask)
    ensures !net.connected && net.platform == Esp32 ==> r == net.softApBroadcast
  {
    if net.connected then DirectedBroadcast(net.localIP, net.subnetMask)
    else if net.platform == Esp32 then net.softApBroadcast
    else DirectedBroadcast(net.softApIP, ApMask)
  }

  /**
   * The two properties of DirectedBroadcast characterise it: no other address
   * keeps the network bits and sets every host bit.
   */
  lemma DirectedBroadcastIsUnique(ip: Address, mask: Address, x: Address)
    requires x & mask == ip & mask
    requires x | mask == 0xFFFF_FFFF
    ensures x == DirectedBroadcast(ip, mask)
  {
  }

  /**
   * On the access point of an ESP8266 the broadcast address keeps the first
   * three octets of the module's own address and sets the last one to 255.
   */
  lemma ApBroadcastReplacesLastOctet(apIP: Address)
    ensures DirectedBroadcast(apIP, ApMask) == (apIP & 0xFFFF_FF00) | 0xFF
  {
  }
}
