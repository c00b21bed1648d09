/** The host-activity counter of the JTAG UART driver. An alarm clears it when the host has been
    active since the last one and counts otherwise; blocking calls give up when it reaches a timeout. */
module JtagHost {
  const EWOULDBLOCK: int := 11
  const EIO: int := 5

  const INT_MAX: nat := 0x7fff_ffff
  const LIMIT: nat := INT_MAX - 2   // the counter stops here

  /** One alarm; `active` is the activity bit of the CONTROL register. */
  function AfterAlarm(host: nat, active: bool): nat {
    if active then 0 else if host < LIMIT then host + 1 else host
  }

  function AfterAlarms(host: nat, active: seq<bool>): nat {
    if active == [] then host else AfterAlarm(AfterAlarms(host, active[..|active| - 1]), active[|active| - 1])
  }

  function Silence(n: nat): (s: seq<bool>)
    ensures |s| == n
  {
    if n == 0 then [] else Silence(n - 1) + [false]
  }

  lemma OneMoreAlarm(host: nat, before: seq<bool>, last: bool)
    ensures AfterAlarms(host, before + [last]) == AfterAlarm(AfterAlarms(host, before), last)
  {
    assert (before + [last])[..|before|] == before;
  }

  /** The counter stays in range, and `n` alarms without activity bring it to `n`, up to the limit. */
  lemma {:induction false} SilenceCounts(host: nat, n: nat)
    requires host <= LIMIT
    ensures AfterAlarms(host, Silence(n)) == if host + n <= LIMIT then host + n else LIMIT
  {
    if n > 0 {
      SilenceCounts(host, n - 1);
      OneMoreAlarm(host, Silence(n - 1), false);
    }
  }

  lemma {:induction false} CounterStaysInRange(host: nat, active: seq<bool>)
    requires host <= LIMIT
    ensures AfterAlarms(host, active) <= LIMIT
  {
    if active != [] {
      CounterStaysInRange(host, active[..|active| - 1]);
    }
  }

  /** A caller waiting for an absent host is released in the end exactly if the timeout is in the
      range of the counter; whatever the host did before. */
  lemma AbsenceIsNoticedIff(host: nat, timeout: nat)
    requires host <= LIMIT
    ensures (exists active :: AfterAlarms(host, active) >= timeout) <==> timeout <= LIMIT
  {
    if timeout <= LIMIT {
      SilenceCounts(host, timeout);
      assert AfterAlarms(host, Silence(timeout)) >= timeout;
    } else {
      forall active ensures AfterAlarms(host, active) < timeout {
        CounterStaysInRange(host, active);
      }
    }
  }

  /** No activity was found by the last `timeout` alarms, of which `host` came before the list. */
  predicate SilentFor(host: nat, active: seq<bool>, timeout: nat) {
    if timeout <= |active| then forall i :: |active| - timeout <= i < |active| ==> !active[i]
    else timeout <= host + |active| && forall i :: 0 <= i < |active| ==> !active[i]
  }

  /** One alarm that finds the host active starts the count again: a timeout in range is reached exactly when
      the last that many alarms have found no activity. */
  lemma {:induction false} ReachedIffSilent(host: nat, active: seq<bool>, timeout: nat)
    requires host <= LIMIT && timeout <= LIMIT
    ensures AfterAlarms(host, active) >= timeout <==> SilentFor(host, active, timeout)
  {
    if active != [] && timeout > 0 {
      var before, last := active[..|active| - 1], active[|active| - 1];
      ReachedIffSilent(host, before, timeout - 1);
      assert SilentFor(host, active, timeout) <==> !last && SilentFor(host, before, timeout - 1) by {
        assert forall i :: 0 <= i < |before| ==> before[i] == active[i];
      }
    }
  }

  /** The request that sets the timeout; a driver without an alarm keeps the largest value. */
  function SetTimeout(timeout: nat, request: int): nat {
    if timeout == INT_MAX then timeout
    else if 2 <= request < INT_MAX then request
    else INT_MAX - 1
  }

  /** After it, calls wait for ever for an absent host exactly if there is no alarm or the request was
      below two seconds or beyond the counter's range. */
  lemma WaitsForeverIff(timeout: nat, request: int, host: nat)
    requires host <= LIMIT
    ensures (forall active :: AfterAlarms(host, active) < SetTimeout(timeout, request))
       <==> timeout == INT_MAX || request < 2 || request > LIMIT
  {
    AbsenceIsNoticedIff(host, SetTimeout(timeout, request));
  }

  /** A request in range is kept to the second: with an alarm, and a host active until then, calls give up
      exactly after that many alarms in a row without activity. */
  lemma RequestIsKept(timeout: nat, request: int, active: seq<bool>)
    requires timeout != 0x7fff_ffff && 2 <= request <= 0x7fff_fffd
    ensures AfterAlarms(0, active) >= SetTimeout(timeout, request) <==>
              request <= |active| && forall i :: |active| - request <= i < |active| ==> !active[i]
  {
    ReachedIffSilent(0, active, request);
  }
}
