/**
 * `wait_for_lease`: polls the lease record every 100 ms until it is leased or 120 s
 * have passed. The clock is a poll count: poll k happens k * 100 ms after the start,
 * and `observe(k)` is the record as that poll finds it.
 */
module Waiter {
  import opened Wrappers
  import opened Net
  import opened Dhcp
  import opened Lease

  const PollIntervalMs: nat := 100
  const TimeoutMs: nat := 120_000

  /** The number of polls that start before the deadline. */
  const MaxPolls: nat := TimeoutMs / PollIntervalMs

  /** What the waiter returns when it starts looking at poll `k`. */
  function WaitOutcome(observe: nat -> LeaseState, k: nat): Option<Ipv4>
    decreases MaxPolls - k
  {
    if k >= MaxPolls then None
    else if observe(k).isLeased then observe(k).ip
    else WaitOutcome(observe, k + 1)
  }

  /** The polling loop: returns the address of the first leased record seen, or `None` at the deadline. */
  method WaitForLease(observe: nat -> LeaseState) returns (leased: Option<Ipv4>)
    ensures leased == WaitOutcome(observe, 0)
  {
    var elapsedMs := 0;
    var polls := 0;
    while elapsedMs < TimeoutMs
      invariant elapsedMs == polls * PollIntervalMs
      invariant WaitOutcome(observe, polls) == WaitOutcome(observe, 0)
      decreases TimeoutMs - elapsedMs
    {
      var lease := observe(polls);
      if lease.isLeased {
        return lease.ip;
      }
      elapsedMs := elapsedMs + PollIntervalMs;
      polls := polls + 1;
    }
    return None;
  }

  /** The waiter returns the address in the first leased record it sees. */
  lemma {:induction false} WaitReturnsFirstLease(observe: nat -> LeaseState, k: nat, first: nat)
    requires k <= first < MaxPolls && observe(first).isLeased
    requires forall j :: k <= j < first ==> !observe(j).isLeased
    ensures WaitOutcome(observe, k) == observe(first).ip
    decreases first - k
  {
    if k < first {
      WaitReturnsFirstLease(observe, k + 1, first);
    }
  }

  /** When no poll before the deadline finds the record leased, the waiter times out. */
  lemma {:induction false} WaitTimesOut(observe: nat -> LeaseState, k: nat)
    requires forall j :: k <= j < MaxPolls ==> !observe(j).isLeased
    ensures WaitOutcome(observe, k) == None
    decreases MaxPolls - k
  {
    if k < MaxPolls {
      WaitTimesOut(observe, k + 1);
    }
  }

  /**
   * When every leased record the waiter can see holds `leaseIp`, it returns `leaseIp`
   * exactly when some poll before the deadline finds the record leased.
   */
  lemma {:induction false} WaitOutcomeLeased(observe: nat -> LeaseState, k: nat, leaseIp: Ipv4)
    requires forall j :: k <= j < MaxPolls && observe(j).isLeased ==> observe(j).ip == Some(leaseIp)
    ensures WaitOutcome(observe, k)
            == if exists j :: k <= j < MaxPolls && observe(j).isLeased then Some(leaseIp) else None
    decreases MaxPolls - k
  {
    if k < MaxPolls && !observe(k).isLeased {
      WaitOutcomeLeased(observe, k + 1, leaseIp);
      if exists j :: k <= j < MaxPolls && observe(j).isLeased {
        var j :| k <= j < MaxPolls && observe(j).isLeased;
        assert k + 1 <= j;
      }
    }
  }

  /**
   * The records the waiter sees while the responder runs: poll k finds the record after
   * the first `handled(k)` datagrams (at most all of them) have been handled.
   */
  function Observed(datagrams: seq<Option<Message>>, handled: nat -> nat, leaseIp: Ipv4): nat -> LeaseState
  {
    (k: nat) => LeaseAfterAll(EmptyLease, datagrams[..if handled(k) <= |datagrams| then handled(k) else |datagrams|], leaseIp)
  }

  /** One of the first `n` datagrams is a Request. */
  predicate RequestAmongFirst(datagrams: seq<Option<Message>>, n: nat)
  {
    exists i :: 0 <= i < n && i < |datagrams| && IsRequest(datagrams[i])
  }

  /** Poll k finds the record leased, to `leaseIp`, exactly when a Request was among the datagrams handled by then. */
  lemma ObservedAt(datagrams: seq<Option<Message>>, handled: nat -> nat, leaseIp: Ipv4, k: nat)
    requires handled(k) <= |datagrams|
    ensures Observed(datagrams, handled, leaseIp)(k).isLeased <==> RequestAmongFirst(datagrams, handled(k))
    ensures Observed(datagrams, handled, leaseIp)(k).isLeased ==> Observed(datagrams, handled, leaseIp)(k).ip == Some(leaseIp)
  {
    var prefix := datagrams[..handled(k)];
    LeasedIffRequested(prefix, leaseIp);
    if RequestAmongFirst(datagrams, handled(k)) {
      var i :| 0 <= i < handled(k) && i < |datagrams| && IsRequest(datagrams[i]);
      assert IsRequest(prefix[i]);
    }
    if exists i :: 0 <= i < |prefix| && IsRequest(prefix[i]) {
      var i :| 0 <= i < |prefix| && IsRequest(prefix[i]);
      assert IsRequest(datagrams[i]);
    }
  }

  /**
   * Responder and waiter together: the waiter returns the lease address exactly when a
   * Request was handled before some poll ahead of the deadline, and times out otherwise.
   */
  lemma ServedThenWaited(datagrams: seq<Option<Message>>, handled: nat -> nat, leaseIp: Ipv4)
    requires forall k :: handled(k) <= |datagrams|
    ensures WaitOutcome(Observed(datagrams, handled, leaseIp), 0)
            == if exists k: nat :: k < MaxPolls && RequestAmongFirst(datagrams, handled(k))
               then Some(leaseIp) else None
  {
    var observe := Observed(datagrams, handled, leaseIp);
    forall j: nat | observe(j).isLeased
      ensures observe(j).ip == Some(leaseIp)
    {
      ObservedAt(datagrams, handled, leaseIp, j);
    }
    WaitOutcomeLeased(observe, 0, leaseIp);
    forall j: nat
      ensures observe(j).isLeased <==> RequestAmongFirst(datagrams, handled(j))
    {
      ObservedAt(datagrams, handled, leaseIp, j);
    }
  }
}
