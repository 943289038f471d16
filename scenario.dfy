/**
 * One handshake end to end: a server on 192.168.1.10, a device with hardware address
 * aa:bb:cc:dd:ee:ff that sends a Discover and then a Request.
 */
module Scenario {
  import opened Wrappers
  import opened Net
  import opened Dhcp
  import opened Lease

  const ServerIp := Ipv4(192, 168, 1, 10)
  const LeaseIp := Ipv4(192, 168, 1, 200)
  const DeviceChaddr: Chaddr := [0xaa, 0xbb, 0xcc, 0xdd, 0xee, 0xff, 0, 0, 0, 0, 0, 0, 0, 0, 0, 0]

  function ClientMessage(kind: MessageType): Message
  {
    DefaultMessage.(xid := 0x1234_5678, chaddr := DeviceChaddr, opts := map[OptMessageType := MessageTypeOption(kind)])
  }

  /** `get_lease_ip` turns the server address 192.168.1.10 into 192.168.1.200. */
  method ScenarioLeaseIp() returns (leaseIp: Ipv4)
    ensures leaseIp == LeaseIp
  {
    leaseIp := GetLeaseIp(ServerIp);
    assert leaseIp.Octets()[0] == 192 && leaseIp.Octets()[1] == 168 && leaseIp.Octets()[2] == 1;
  }

  /**
   * The Discover is offered 192.168.1.200 and the Request acknowledged with it; the
   * record then holds the device's MAC, displayed as aa:bb:cc:dd:ee:ff, and 192.168.1.200.
   */
  lemma Handshake()
    ensures var datagrams := [Some(ClientMessage(Discover)), Some(ClientMessage(Request))];
            var offer := Respond(datagrams[0], ServerIp, LeaseIp);
            var ack := Respond(datagrams[1], ServerIp, LeaseIp);
            var record := LeaseAfterAll(EmptyLease, datagrams, LeaseIp);
            && offer.Some? && MsgType(offer.value.msg) == Some(Offer)
            && offer.value.msg.yiaddr == LeaseIp && offer.value.msg.xid == 0x1234_5678
            && offer.value.msg.chaddr == DeviceChaddr
            && ack.Some? && MsgType(ack.value.msg) == Some(Ack) && ack.value.msg.yiaddr == LeaseIp
            && record.isLeased && record.ip == Some(LeaseIp)
            && record.mac.Some? && MacText(record.mac.value) == "aa:bb:cc:dd:ee:ff"
  {
    var datagrams := [Some(ClientMessage(Discover)), Some(ClientMessage(Request))];
    assert !IsRequest(datagrams[0]) && IsRequest(datagrams[1]);
    LeaseFromFirstRequest(datagrams, LeaseIp, 1);
    var mac := ClientMac(DeviceChaddr);
    var s := MacText(mac);
    forall k | 0 <= k < 17
      ensures s[k] == "aa:bb:cc:dd:ee:ff"[k]
    {
      assert s[k] == MacTextAt(mac, k);
    }
  }
}
