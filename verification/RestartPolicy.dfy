/** The restart policy of internal/runtime/container.go and its exponential backoff. Durations are
    milliseconds. */
module RestartPolicy {
  import opened Wrappers
  import opened Addresses

  const BACKOFF_BASE: nat := 100
  const BACKOFF_MULTIPLIER: nat := 2
  const BACKOFF_MAX: nat := 60000

  datatype Policy = Policy(name: string, maximumRetryCount: int)

  const NO_POLICY := Policy("no", 0)

  /** The exit of one activation. */
  datatype Exit = Exit(code: int, manuallyStopped: bool)

  function Min(a: nat, b: nat): nat {
    if a <= b then a else b
  }

  predicate ShouldRestart(policy: Policy, restartCount: nat, e: Exit) {
    if policy.name == "always" || policy.name == "unless-stopped" then !e.manuallyStopped
    else if policy.name == "on-failure" then
      e.code != 0 && !e.manuallyStopped
      && (policy.maximumRetryCount <= 0 || restartCount < policy.maximumRetryCount)
    else false
  }

  /** The delay before the n-th restart. */
  function Backoff(n: nat): nat
    requires n >= 1
  {
    Min(BACKOFF_BASE * Pow2(n - 1), BACKOFF_MAX)
  }

  /** Doubles from the base until the count or the maximum is reached, in at most ten rounds. */
  method ComputeBackoff(restartCount: nat) returns (delay: nat, ghost rounds: nat)
    requires restartCount >= 1
    ensures delay == Backoff(restartCount)
    ensures rounds <= 10
  {
    delay, rounds := BACKOFF_BASE, 0;
    var i := 1;
    Pow2Ten();
    while i < restartCount && delay < BACKOFF_MAX
      invariant 1 <= i <= restartCount && rounds == i - 1 <= 10
      invariant delay == BACKOFF_BASE * Pow2(i - 1)
      decreases restartCount - i
    {
      delay := delay * BACKOFF_MULTIPLIER;
      i, rounds := i + 1, rounds + 1;
    }
    if i < restartCount {
      Pow2Mono(i - 1, restartCount - 1);
    }
    if delay > BACKOFF_MAX {
      delay := BACKOFF_MAX;
    }
  }

  lemma Pow2Ten()
    ensures Pow2(10) == 1024
  {
    Pow2Add(5, 5);
  }

  class Record {
    var restartCount: nat
    var status: string
    var restarting: bool
    const hostConfig: Option<Policy>

    constructor (hostConfig: Option<Policy>)
      ensures restartCount == 0 && this.hostConfig == hostConfig
    {
      this.hostConfig := hostConfig;
      restartCount, status, restarting := 0, "created", false;
    }
  }

  /** handleRestartPolicy: the delay after which a restart was scheduled, if one was. */
  method HandleRestartPolicy(record: Record, exitCode: int, manuallyStopped: bool) returns (delay: Option<nat>)
    modifies record
    ensures var restart := record.hostConfig.Some?
                           && ShouldRestart(record.hostConfig.value, old(record.restartCount),
                                            Exit(exitCode, manuallyStopped));
            && delay == (if restart then Some(Backoff(old(record.restartCount) + 1)) else None)
            && record.restartCount == old(record.restartCount) + (if restart then 1 else 0)
            && record.status == (if restart then "restarting" else old(record.status))
            && record.restarting == (if restart then true else old(record.restarting))
  {
    if record.hostConfig.None? {
      return None;
    }
    var policy := record.hostConfig.value;
    var shouldRestart := false;
    if policy.name == "always" {
      shouldRestart := !manuallyStopped;
    } else if policy.name == "on-failure" {
      shouldRestart := exitCode != 0 && !manuallyStopped
        && (policy.maximumRetryCount <= 0 || record.restartCount < policy.maximumRetryCount);
    } else if policy.name == "unless-stopped" {
      shouldRestart := !manuallyStopped;
    } else {
      return None;
    }
    if !shouldRestart {
      return None;
    }
    record.restartCount := record.restartCount + 1;
    record.status := "restarting";
    record.restarting := true;
    var d, _ := ComputeBackoff(record.restartCount);
    return Some(d);
  }

  // ----- A container's whole run: its exits in order

  /** The delays scheduled by the exits of a container that starts with the given restart count. */
  function Delays(policy: Policy, exits: seq<Exit>, restartCount: nat): seq<nat> {
    if exits == [] then []
    else if ShouldRestart(policy, restartCount, exits[0]) then
      [Backoff(restartCount + 1)] + Delays(policy, exits[1..], restartCount + 1)
    else Delays(policy, exits[1..], restartCount)
  }

  /** The method, called for each exit in turn, schedules these delays. */
  method HandleExits(record: Record, exits: seq<Exit>) returns (delays: seq<nat>)
    modifies record
    ensures delays == if record.hostConfig.None? then []
            else Delays(record.hostConfig.value, exits, old(record.restartCount))
    ensures record.restartCount == old(record.restartCount) + |delays|
  {
    delays := [];
    ghost var policy := if record.hostConfig.Some? then record.hostConfig.value else NO_POLICY;
    for i := 0 to |exits|
      invariant if record.hostConfig.None? then delays == []
                else
                  delays + Delays(policy, exits[i..], record.restartCount)
                  == Delays(policy, exits, old(record.restartCount))
      invariant record.restartCount == old(record.restartCount) + |delays|
    {
      ghost var rest := exits[i..];
      assert rest[0] == exits[i] && rest[1..] == exits[i + 1..];
      ghost var all := delays + Delays(policy, rest, record.restartCount);
      var d := HandleRestartPolicy(record, exits[i].code, exits[i].manuallyStopped);
      if d.Some? {
        delays := delays + [d.value];
      }
      assert record.hostConfig.Some? ==> delays + Delays(policy, exits[i + 1..], record.restartCount) == all;
    }
    assert exits[|exits|..] == [];
  }

  /** An exit the policy of this name reacts to: nobody asked for it, and on-failure looks at the code. */
  predicate AsksForRestart(name: string, e: Exit) {
    !e.manuallyStopped && (name in {"always", "unless-stopped"} || (name == "on-failure" && e.code != 0))
  }

  /** How many exits ask for a restart, retry limit left aside. */
  function Reacting(policy: Policy, exits: seq<Exit>): nat {
    if exits == [] then 0
    else (if AsksForRestart(policy.name, exits[0]) then 1 else 0) + Reacting(policy, exits[1..])
  }

  /** Under on-failure with k > 0 a run schedules exactly the first k restarts its failing exits ask
      for, so never more than k; under any other policy, all of them. */
  lemma {:induction false} RestartsExactly(policy: Policy, exits: seq<Exit>, restartCount: nat)
    ensures var k := policy.maximumRetryCount;
            |Delays(policy, exits, restartCount)| ==
            if policy.name == "on-failure" && k > 0
            then Min(if restartCount < k then k - restartCount else 0, Reacting(policy, exits))
            else Reacting(policy, exits)
  {
    if exits != [] {
      RestartsExactly(policy, exits[1..], restartCount);
      RestartsExactly(policy, exits[1..], restartCount + 1);
    }
  }

  lemma AtMostMaximumRetries(policy: Policy, exits: seq<Exit>)
    requires policy.name == "on-failure" && policy.maximumRetryCount > 0
    ensures |Delays(policy, exits, 0)| == Min(policy.maximumRetryCount, Reacting(policy, exits))
  {
    RestartsExactly(policy, exits, 0);
  }

  lemma {:induction false} NthDelay(policy: Policy, exits: seq<Exit>, restartCount: nat, n: nat)
    requires n < |Delays(policy, exits, restartCount)|
    ensures Delays(policy, exits, restartCount)[n] == Backoff(restartCount + n + 1)
  {
    if !ShouldRestart(policy, restartCount, exits[0]) {
      NthDelay(policy, exits[1..], restartCount, n);
    } else if n > 0 {
      NthDelay(policy, exits[1..], restartCount + 1, n - 1);
    }
  }

  /** Under every policy the n-th restart of a run (from 0) waits min(100 ms * 2^n, 60 s), and no
      delay is shorter than an earlier one. */
  lemma DelaysDouble(policy: Policy, exits: seq<Exit>, m: nat, n: nat)
    requires m <= n < |Delays(policy, exits, 0)|
    ensures Delays(policy, exits, 0)[n] == Min(100 * Pow2(n), 60000)
    ensures Delays(policy, exits, 0)[m] <= Delays(policy, exits, 0)[n]
  {
    NthDelay(policy, exits, 0, m);
    NthDelay(policy, exits, 0, n);
    Pow2Mono(m, n);
  }
}
