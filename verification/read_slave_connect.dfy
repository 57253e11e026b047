/** How `connect` chooses the replica handle and which options it keeps. */
module ReadSlaveConnect {
  import opened Wrappers
  import opened SqlPatterns
  import opened ReadSlave

  /** The hosts of a list other than `x`, in list order. */
  function Without(hosts: seq<Address>, x: Address): (r: seq<Address>)
    ensures forall a :: a in r <==> a in hosts && a != x
    decreases |hosts|
  {
    if |hosts| == 0 then []
    else if hosts[0] == x then Without(hosts[1..], x)
    else [hosts[0]] + Without(hosts[1..], x)
  }

  /** The order in which replicas are tried for two or more hosts: the picked
      one first, then every other host in list order. */
  function AttemptOrder(hosts: seq<Address>, pick: nat): seq<Address>
    requires pick < |hosts|
  {
    [hosts[pick]] + Without(hosts, hosts[pick])
  }

  /** The handle of the first host in `order` that connects. */
  function FirstSuccess(order: seq<Address>, attempt: Address -> ConnOutcome): Option<Handle>
    decreases |order|
  {
    if |order| == 0 then None
    else match attempt(order[0])
      case Connected(h) => Some(h)
      case ConnFail => FirstSuccess(order[1..], attempt)
  }

  /** Skipping the first choice inside the loop is the same as trying the
      list with the first choice removed. */
  lemma {:induction false} FallbackIsFirstSuccess(hosts: seq<Address>, first: Address, attempt: Address -> ConnOutcome)
    ensures Fallback(hosts, first, attempt) == FirstSuccess(Without(hosts, first), attempt)
    decreases |hosts|
  {
    if |hosts| > 0 {
      FallbackIsFirstSuccess(hosts[1..], first, attempt);
      if hosts[0] != first {
        assert ([hosts[0]] + Without(hosts[1..], first))[1..] == Without(hosts[1..], first);
      }
    }
  }

  /** With two or more hosts the replica is the first host, in attempt order,
      that connects; no replica if all of them fail. */
  lemma ConnectTriesInOrder(primary: Address, prefix: Prefix, opts: Options, pick: nat, attempt: Address -> ConnOutcome)
    requires opts.readonlyHosts.HostList? && |opts.readonlyHosts.hosts| >= 2 && pick < |opts.readonlyHosts.hosts|
    ensures var r := Connect(primary, prefix, opts, pick, attempt);
      r.Ok? ==> r.value.session.readonly == FirstSuccess(AttemptOrder(opts.readonlyHosts.hosts, pick), attempt)
  {
    var hs := opts.readonlyHosts.hosts;
    FallbackIsFirstSuccess(hs, hs[pick], attempt);
    assert AttemptOrder(hs, pick)[1..] == Without(hs, hs[pick]);
  }

  /** No list, or an empty one: no replica and no attempt at all; only the
      primary's outcome matters. */
  lemma ConnectWithoutHostList(primary: Address, prefix: Prefix, opts: Options, pick: nat,
                               attempt: Address -> ConnOutcome, other: Address -> ConnOutcome)
    requires !opts.readonlyHosts.HostList? || |opts.readonlyHosts.hosts| == 0
    requires other(primary) == attempt(primary)
    ensures var r := Connect(primary, prefix, opts, pick, attempt);
      && r == Connect(primary, prefix, opts, pick, other)
      && (r.Ok? ==> r.value.session.readonly.None? && r.value.errorLogs == 0)
  {
  }

  /** A one-element list: a single attempt and no fallback; only that host's
      and the primary's outcomes matter. */
  lemma ConnectSingleHost(primary: Address, prefix: Prefix, opts: Options, pick: nat,
                          attempt: Address -> ConnOutcome, other: Address -> ConnOutcome)
    requires opts.readonlyHosts.HostList? && |opts.readonlyHosts.hosts| == 1
    requires other(primary) == attempt(primary)
    requires other(opts.readonlyHosts.hosts[0]) == attempt(opts.readonlyHosts.hosts[0])
    ensures var r := Connect(primary, prefix, opts, pick, attempt);
      && r == Connect(primary, prefix, opts, pick, other)
      && (r.Ok? ==> r.value.session.readonly == FirstSuccess(opts.readonlyHosts.hosts, attempt))
  {
  }

  /** The latency and exclude options are taken only when the first choice
      connects; a replica reached through the fallback loop runs with the
      defaults (no tolerance, nothing excluded). */
  lemma ConnectOptionsOnFirstChoice(primary: Address, prefix: Prefix, opts: Options, pick: nat, attempt: Address -> ConnOutcome)
    requires PickInRange(opts.readonlyHosts, pick)
    ensures var r := Connect(primary, prefix, opts, pick, attempt);
      var first := FirstChoice(opts.readonlyHosts, pick);
      r.Ok? ==>
        if first.Some? && attempt(first.value).Connected? then
          && r.value.session.readonly == Some(attempt(first.value).handle)
          && r.value.session.latency == opts.latency.GetOr(0)
          && r.value.session.exclude == (if opts.exclude.ExcludeList? then opts.exclude.tables else [])
        else
          r.value.session.latency == 0 && r.value.session.exclude == []
  {
  }
}
