/**
 * The lease record (`DhcpLease`) and the responder's loop over received datagrams.
 * The record is either empty or fully populated; the first Request fills it and
 * nothing afterwards changes it.
 */
module Lease {
  import opened Wrappers
  import opened Net
  import opened Dhcp

  /** The value of a `DhcpLease` record. */
  datatype LeaseState = LeaseState(mac: Option<MacAddr>, ip: Option<Ipv4>, isLeased: bool)

  /** `DhcpLease::default()`. */
  const EmptyLease := LeaseState(None, None, false)

  /** No reader ever sees a half-written record: it is empty or it is complete. */
  predicate AllOrNothing(s: LeaseState)
  {
    s == EmptyLease || (s.isLeased && s.mac.Some? && s.ip.Some?)
  }

  predicate IsRequest(datagram: Option<Message>)
  {
    datagram.Some? && MsgType(datagram.value) == Some(Request)
  }

  /**
   * The record after the responder handles one datagram: a Request that finds the
   * record not yet leased fills in the client's address and `leaseIp`; nothing else
   * touches it.
   */
  function NextLease(s: LeaseState, datagram: Option<Message>, leaseIp: Ipv4): (r: LeaseState)
    ensures AllOrNothing(s) ==> AllOrNothing(r)
    ensures s.isLeased ==> r == s
    ensures r != s ==> IsRequest(datagram)
    ensures IsRequest(datagram) ==> r.isLeased
  {
    if IsRequest(datagram) && !s.isLeased then
      LeaseState(Some(ClientMac(datagram.value.chaddr)), Some(leaseIp), true)
    else
      s
  }

  /** The record after the responder handles `datagrams` in order, starting from `s`. */
  function LeaseAfterAll(s: LeaseState, datagrams: seq<Option<Message>>, leaseIp: Ipv4): LeaseState
  {
    if datagrams == [] then s
    else NextLease(LeaseAfterAll(s, datagrams[..|datagrams| - 1], leaseIp), datagrams[|datagrams| - 1], leaseIp)
  }

  /** Handling any sequence of datagrams keeps the record empty or complete. */
  lemma {:induction false} LeaseAfterAllAllOrNothing(s: LeaseState, datagrams: seq<Option<Message>>, leaseIp: Ipv4)
    requires AllOrNothing(s)
    ensures AllOrNothing(LeaseAfterAll(s, datagrams, leaseIp))
  {
    if datagrams != [] {
      LeaseAfterAllAllOrNothing(s, datagrams[..|datagrams| - 1], leaseIp);
    }
  }

  /** First writer wins: once leased, the record never changes again. */
  lemma {:induction false} LeasedRecordIsFinal(s: LeaseState, datagrams: seq<Option<Message>>, leaseIp: Ipv4)
    requires s.isLeased
    ensures LeaseAfterAll(s, datagrams, leaseIp) == s
  {
    if datagrams != [] {
      LeasedRecordIsFinal(s, datagrams[..|datagrams| - 1], leaseIp);
    }
  }

  /** Without a Request the record is left exactly as it was. */
  lemma {:induction false} OnlyRequestsChangeLease(s: LeaseState, datagrams: seq<Option<Message>>, leaseIp: Ipv4)
    requires forall i :: 0 <= i < |datagrams| ==> !IsRequest(datagrams[i])
    ensures LeaseAfterAll(s, datagrams, leaseIp) == s
  {
    if datagrams != [] {
      OnlyRequestsChangeLease(s, datagrams[..|datagrams| - 1], leaseIp);
    }
  }

  /**
   * From the empty record, the record after `datagrams` is populated from the first
   * Request among them, and stays empty when there is none.
   */
  lemma {:induction false} LeaseFromFirstRequest(datagrams: seq<Option<Message>>, leaseIp: Ipv4, first: nat)
    requires first < |datagrams| && IsRequest(datagrams[first])
    requires forall j :: 0 <= j < first ==> !IsRequest(datagrams[j])
    ensures LeaseAfterAll(EmptyLease, datagrams, leaseIp)
            == LeaseState(Some(ClientMac(datagrams[first].value.chaddr)), Some(leaseIp), true)
  {
    var n := |datagrams| - 1;
    var prefix := datagrams[..n];
    if first == n {
      OnlyRequestsChangeLease(EmptyLease, prefix, leaseIp);
    } else {
      LeaseFromFirstRequest(prefix, leaseIp, first);
    }
  }

  /** From the empty record, the record is leased after `datagrams` exactly when one of them is a Request. */
  lemma {:induction false} LeasedIffRequested(datagrams: seq<Option<Message>>, leaseIp: Ipv4)
    ensures LeaseAfterAll(EmptyLease, datagrams, leaseIp).isLeased
            <==> exists i :: 0 <= i < |datagrams| && IsRequest(datagrams[i])
    ensures LeaseAfterAll(EmptyLease, datagrams, leaseIp).isLeased
            ==> LeaseAfterAll(EmptyLease, datagrams, leaseIp).ip == Some(leaseIp)
    ensures !LeaseAfterAll(EmptyLease, datagrams, leaseIp).isLeased
            ==> LeaseAfterAll(EmptyLease, datagrams, leaseIp) == EmptyLease
  {
    if datagrams != [] {
      var n := |datagrams| - 1;
      LeasedIffRequested(datagrams[..n], leaseIp);
      if exists i :: 0 <= i < n && IsRequest(datagrams[..n][i]) {
        var i :| 0 <= i < n && IsRequest(datagrams[..n][i]);
        assert IsRequest(datagrams[i]);
      }
      if exists i :: 0 <= i < |datagrams| && IsRequest(datagrams[i]) {
        var i :| 0 <= i < |datagrams| && IsRequest(datagrams[i]);
        if i < n {
          assert IsRequest(datagrams[..n][i]);
        }
      }
    }
  }

  /** The datagrams the responder sends while handling `datagrams` in order. */
  function SentAll(datagrams: seq<Option<Message>>, serverIp: Ipv4, leaseIp: Ipv4): seq<Outgoing>
  {
    if datagrams == [] then []
    else
      var earlier := SentAll(datagrams[..|datagrams| - 1], serverIp, leaseIp);
      match Respond(datagrams[|datagrams| - 1], serverIp, leaseIp)
      case Some(out) => earlier + [out]
      case None => earlier
  }

  /**
   * The shared lease record: the responder writes it, the waiter reads it. The
   * mutex around it is not modelled; each method below is one critical section.
   */
  class DhcpLease {
    var mac: Option<MacAddr>
    var ip: Option<Ipv4>
    var isLeased: bool

    function State(): LeaseState
      reads this
    {
      LeaseState(mac, ip, isLeased)
    }

    ghost predicate Valid()
      reads this
    {
      AllOrNothing(State())
    }

    /** `DhcpLease::default()`: no address, no MAC, not leased. */
    constructor ()
      ensures Valid() && State() == EmptyLease
    {
      mac, ip, isLeased := None, None, false;
    }

    /**
     * The body of the responder's loop for one received datagram (`None` when it
     * does not decode): answers a Discover with an Offer and a Request with an Ack,
     * and on the first Request records the client's MAC and `leaseIp`.
     */
    method HandleMessage(datagram: Option<Message>, serverIp: Ipv4, leaseIp: Ipv4) returns (sent: Option<Outgoing>)
      requires Valid()
      modifies this
      ensures Valid()
      ensures State() == NextLease(old(State()), datagram, leaseIp)
      ensures sent == Respond(datagram, serverIp, leaseIp)
    {
      sent := None;
      if datagram.Some? {
        var msg := datagram.value;
        if MsgType(msg) == Some(Discover) {
          var offer := BuildReply(msg, Offer, serverIp, leaseIp);
          sent := Some(Outgoing(Broadcast, ClientPort, offer));
        } else if MsgType(msg) == Some(Request) {
          if !isLeased {
            var clientMac := ClientMac(msg.chaddr);
            mac := Some(clientMac);
            ip := Some(leaseIp);
            isLeased := true;
          }
          var ack := BuildReply(msg, Ack, serverIp, leaseIp);
          sent := Some(Outgoing(Broadcast, ClientPort, ack));
        }
      }
    }

    /**
     * The responder's receive loop, given the datagrams that arrive before the
     * shutdown signal fires: handles each in order and returns what it sent.
     */
    method Serve(datagrams: seq<Option<Message>>, serverIp: Ipv4, leaseIp: Ipv4) returns (sent: seq<Outgoing>)
      requires Valid()
      modifies this
      ensures Valid()
      ensures State() == LeaseAfterAll(old(State()), datagrams, leaseIp)
      ensures sent == SentAll(datagrams, serverIp, leaseIp)
    {
      sent := [];
      var i := 0;
      while i < |datagrams|
        invariant 0 <= i <= |datagrams|
        invariant Valid()
        invariant State() == LeaseAfterAll(old(State()), datagrams[..i], leaseIp)
        invariant sent == SentAll(datagrams[..i], serverIp, leaseIp)
      {
        var out := HandleMessage(datagrams[i], serverIp, leaseIp);
        if out.Some? {
          sent := sent + [out.value];
        }
        assert datagrams[..i + 1][..i] == datagrams[..i];
        i := i + 1;
      }
      assert datagrams[..i] == datagrams;
    }
  }
}
