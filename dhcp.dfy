/**
 * The DHCP messages the responder reads and writes, taken after decoding: the BOOTP
 * header fields it touches and the options map, keyed by option code as `DhcpOptions`
 * keys it. `Respond` is what one received datagram makes the responder send.
 */
module Dhcp {
  import opened Wrappers
  import opened Net

  type U16 = x: int | 0 <= x < 0x1_0000
  type U32 = x: int | 0 <= x < 0x1_0000_0000

  /** `chaddr`: the 16-byte client hardware address field. */
  type Chaddr = s: seq<Byte> | |s| == 16 witness [0, 0, 0, 0, 0, 0, 0, 0, 0, 0, 0, 0, 0, 0, 0, 0]

  datatype Opcode = BootRequest | BootReply | UnknownOpcode(code: Byte)

  /** The values of the DHCP Message Type option (section 9.6 of RFC 2132). */
  datatype MessageType =
    | Discover | Offer | Request | Decline | Ack | Nak | Release | Inform
    | UnknownType(code: Byte)

  const ClientPort := 68

  /** Option codes: IP Address Lease Time, DHCP Message Type and Server Identifier. */
  const OptLeaseTime: Byte := 51
  const OptMessageType: Byte := 53
  const OptServerId: Byte := 54

  /** The lease time, in seconds, put in every reply. */
  const LeaseTimeSecs: U32 := 3600

  datatype DhcpOption =
    | MessageTypeOption(msgType: MessageType)
    | AddressLeaseTime(seconds: U32)
    | ServerIdentifier(addr: Ipv4)
    | OtherOption(code: Byte, data: seq<Byte>)

  function Code(o: DhcpOption): Byte
  {
    match o
    case MessageTypeOption(_) => OptMessageType
    case AddressLeaseTime(_) => OptLeaseTime
    case ServerIdentifier(_) => OptServerId
    case OtherOption(c, _) => c
  }

  datatype Message = Message(
    opcode: Opcode,
    xid: U32,
    secs: U16,
    flags: U16,
    ciaddr: Ipv4,
    yiaddr: Ipv4,
    siaddr: Ipv4,
    giaddr: Ipv4,
    chaddr: Chaddr,
    opts: map<Byte, DhcpOption>)

  /** `Message::default()` for the fields a reply never sets: zero addresses and no options. */
  const DefaultMessage := Message(BootRequest, 0, 0, 0, Unspecified, Unspecified, Unspecified,
                                  Unspecified, [0, 0, 0, 0, 0, 0, 0, 0, 0, 0, 0, 0, 0, 0, 0, 0], map[])

  /** `opts().msg_type()`: the value of the Message Type option, if there is one. */
  function MsgType(m: Message): Option<MessageType>
  {
    if OptMessageType in m.opts && m.opts[OptMessageType].MessageTypeOption? then
      Some(m.opts[OptMessageType].msgType)
    else
      None
  }

  /** The value of the IP Address Lease Time option, if there is one. */
  function LeaseTime(m: Message): Option<U32>
  {
    if OptLeaseTime in m.opts && m.opts[OptLeaseTime].AddressLeaseTime? then
      Some(m.opts[OptLeaseTime].seconds)
    else
      None
  }

  /** The value of the Server Identifier option, if there is one. */
  function ServerId(m: Message): Option<Ipv4>
  {
    if OptServerId in m.opts && m.opts[OptServerId].ServerIdentifier? then
      Some(m.opts[OptServerId].addr)
    else
      None
  }

  /** `opts_mut().insert(o)`: `o` replaces whatever option had its code. */
  function InsertOption(opts: map<Byte, DhcpOption>, o: DhcpOption): map<Byte, DhcpOption>
  {
    opts[Code(o) := o]
  }

  /** The hardware address of the client: the first six bytes of `chaddr`. */
  function ClientMac(chaddr: Chaddr): (m: MacAddr)
    ensures m.bytes == chaddr[..6]
  {
    NewMac(chaddr[0], chaddr[1], chaddr[2], chaddr[3], chaddr[4], chaddr[5])
  }

  /**
   * The reply of kind `kind` (Offer or Ack) to `request`, by the server-reply rules of
   * sections 4.3.1 and 4.3.2 of RFC 2131 as this server applies them: a BOOTREPLY
   * that echoes the transaction id, elapsed seconds, flags and client hardware address,
   * offers `leaseIp` and carries exactly the options Message Type, Lease Time (3600 s)
   * and Server Identifier (`serverIp`).
   */
  function ServerReply(request: Message, kind: MessageType, serverIp: Ipv4, leaseIp: Ipv4): (r: Message)
    ensures r.opcode == BootReply
    ensures r.xid == request.xid && r.secs == request.secs && r.flags == request.flags
    ensures r.chaddr == request.chaddr
    ensures r.yiaddr == leaseIp
    ensures r.ciaddr == Unspecified && r.siaddr == Unspecified && r.giaddr == Unspecified
    ensures MsgType(r) == Some(kind) && LeaseTime(r) == Some(LeaseTimeSecs) && ServerId(r) == Some(serverIp)
    ensures r.opts.Keys == {OptMessageType, OptLeaseTime, OptServerId}
  {
    var opts := InsertOption(InsertOption(InsertOption(map[], MessageTypeOption(kind)),
                                          AddressLeaseTime(LeaseTimeSecs)),
                             ServerIdentifier(serverIp));
    DefaultMessage.(opcode := BootReply, xid := request.xid, secs := request.secs, flags := request.flags,
                    yiaddr := leaseIp, chaddr := request.chaddr, opts := opts)
  }

  /** The offer and the acknowledgement to one request differ only in their message type. */
  lemma OfferAckDifferOnlyInType(request: Message, serverIp: Ipv4, leaseIp: Ipv4)
    ensures var offer := ServerReply(request, Offer, serverIp, leaseIp);
            ServerReply(request, Ack, serverIp, leaseIp)
              == offer.(opts := InsertOption(offer.opts, MessageTypeOption(Ack)))
  {
    var offer := ServerReply(request, Offer, serverIp, leaseIp);
    var ack := ServerReply(request, Ack, serverIp, leaseIp);
    assert ack.opts == InsertOption(offer.opts, MessageTypeOption(Ack));
  }

  /**
   * Builds a reply the way the responder does: a default message changed field by
   * field, then three option insertions.
   */
  method BuildReply(request: Message, kind: MessageType, serverIp: Ipv4, leaseIp: Ipv4) returns (reply: Message)
    ensures reply == ServerReply(request, kind, serverIp, leaseIp)
  {
    reply := DefaultMessage;
    reply := reply.(opcode := BootReply);
    reply := reply.(xid := request.xid);
    reply := reply.(secs := request.secs);
    reply := reply.(flags := request.flags);
    reply := reply.(yiaddr := leaseIp);
    reply := reply.(chaddr := request.chaddr);
    reply := reply.(opts := InsertOption(reply.opts, MessageTypeOption(kind)));
    reply := reply.(opts := InsertOption(reply.opts, AddressLeaseTime(LeaseTimeSecs)));
    reply := reply.(opts := InsertOption(reply.opts, ServerIdentifier(serverIp)));
  }

  /** A datagram sent: destination address, destination port and the message. */
  datatype Outgoing = Outgoing(dest: Ipv4, port: nat, msg: Message)

  /**
   * What one received datagram (`None` when it does not decode) makes the responder
   * send: an Offer for a Discover, an Ack for a Request, both broadcast to the client
   * port, and nothing for anything else.
   */
  function Respond(datagram: Option<Message>, serverIp: Ipv4, leaseIp: Ipv4): (r: Option<Outgoing>)
    ensures r.Some? <==> datagram.Some? && (MsgType(datagram.value) == Some(Discover) || MsgType(datagram.value) == Some(Request))
    ensures r.Some? ==> r.value.dest == Broadcast && r.value.port == ClientPort
    ensures r.Some? && MsgType(datagram.value) == Some(Discover) ==> r.value.msg == ServerReply(datagram.value, Offer, serverIp, leaseIp)
    ensures r.Some? && MsgType(datagram.value) == Some(Request) ==> r.value.msg == ServerReply(datagram.value, Ack, serverIp, leaseIp)
  {
    match datagram
    case None => None
    case Some(msg) =>
      if MsgType(msg) == Some(Discover) then
        Some(Outgoing(Broadcast, ClientPort, ServerReply(msg, Offer, serverIp, leaseIp)))
      else if MsgType(msg) == Some(Request) then
        Some(Outgoing(Broadcast, ClientPort, ServerReply(msg, Ack, serverIp, leaseIp)))
      else
        None
  }
}
