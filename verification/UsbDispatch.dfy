/** The packet dispatcher of the USB host: launch, wait for completion under one deadline, retry on NAK
    and on bus timeout up to fixed limits. */
module UsbDispatch {
  import opened Words

  const NAK_LIMIT: nat := 200
  const RETRY_LIMIT: nat := 3
  const XFER_TIMEOUT: nat := 5000
  const HR_NAK: nat := 4
  const HR_TIMEOUT: nat := 14
  const DEADLINE_PASSED: nat := 0xff

  /** How one launch ends: the deadline passes first, or the host result register is read. */
  datatype Reply = Expired | Code(hrsl: nat)

  function ReplyAt(replies: seq<Reply>, k: nat): Reply {
    if k < |replies| then replies[k] else Expired
  }

  /** How often `r` occurs among the first `n` replies. */
  function Occurrences(replies: seq<Reply>, r: Reply, n: nat): nat {
    if n == 0 then 0
    else Occurrences(replies, r, n - 1) + if ReplyAt(replies, n - 1) == r then 1 else 0
  }

  /** Launch `k` (counted from 0) is the last one: it expires, or brings a code that is neither NAK nor
      TIMEOUT, or is the 200th NAK, or the 3rd TIMEOUT. */
  predicate Final(replies: seq<Reply>, k: nat) {
    var r := ReplyAt(replies, k);
    || r.Expired?
    || (r != Code(HR_NAK) && r != Code(HR_TIMEOUT))
    || (r == Code(HR_NAK) && Occurrences(replies, r, k + 1) == NAK_LIMIT)
    || (r == Code(HR_TIMEOUT) && Occurrences(replies, r, k + 1) == RETRY_LIMIT)
  }

  function ResultOf(r: Reply): nat {
    if r.Expired? then DEADLINE_PASSED else r.hrsl
  }

  /** None of the first `n` launches is the last. */
  predicate NoneFinal(replies: seq<Reply>, n: nat) {
    n > 0 ==> NoneFinal(replies, n - 1) && !Final(replies, n - 1)
  }

  lemma {:induction false} CountsAddUp(replies: seq<Reply>, n: nat)
    requires NoneFinal(replies, n)
    ensures Occurrences(replies, Code(HR_NAK), n) + Occurrences(replies, Code(HR_TIMEOUT), n) == n
    ensures Occurrences(replies, Code(HR_NAK), n) < NAK_LIMIT
    ensures Occurrences(replies, Code(HR_TIMEOUT), n) < RETRY_LIMIT
  {
    if n > 0 {
      CountsAddUp(replies, n - 1);
    }
  }

  /** Milliseconds as the code computes them: the product is truncated to 32 bits before the division. */
  function Ms(ticks: nat, rate: nat): nat
    requires rate > 0
  {
    Product(ticks) / rate
  }

  function Product(ticks: nat): nat {
    ticks * 1000 % U32
  }

  /** The deadline of a dispatch that begins at this tick; all its launches share it. */
  function Deadline(ticks: nat, rate: nat): nat
    requires rate > 0
  {
    (Ms(ticks, rate) + XFER_TIMEOUT) % U32
  }

  /** One turn of the wait loop: the tick counter, the completion bit, and the result register, which is
      read when the bit is set. */
  datatype Poll = Poll(ticks: u32, done: bool, hrsl: nat)

  predicate Late(p: Poll, rate: nat, timeout: nat)
    requires rate > 0
  {
    Ms(p.ticks, rate) >= timeout
  }

  /** The replies that the first `n` polls bring, launch after launch; none after the deadline. */
  function Replies(polls: seq<Poll>, rate: nat, timeout: nat, n: nat): (r: seq<Reply>)
    requires rate > 0 && n <= |polls|
    ensures |r| <= n
  {
    if n == 0 then []
    else
      var r, p := Replies(polls, rate, timeout, n - 1), polls[n - 1];
      if r != [] && r[|r| - 1].Expired? then r
      else if Late(p, rate, timeout) then r + [Expired]
      else if p.done then r + [Code(p.hrsl)]
      else r
  }

  lemma {:induction false} ReplyStays(polls: seq<Poll>, rate: nat, timeout: nat, m: nat, n: nat, i: nat)
    requires rate > 0 && m <= n <= |polls| && i < |Replies(polls, rate, timeout, m)|
    ensures i < |Replies(polls, rate, timeout, n)|
    ensures Replies(polls, rate, timeout, n)[i] == Replies(polls, rate, timeout, m)[i]
    decreases n
  {
    if m < n {
      ReplyStays(polls, rate, timeout, m, n - 1, i);
    }
  }

  /** None of the first `n` polls is late. */
  predicate NoneLate(polls: seq<Poll>, rate: nat, timeout: nat, n: nat)
    requires rate > 0 && n <= |polls|
  {
    n > 0 ==> NoneLate(polls, rate, timeout, n - 1) && !Late(polls[n - 1], rate, timeout)
  }

  lemma {:induction false} EachIsNotLate(polls: seq<Poll>, rate: nat, timeout: nat, n: nat)
    requires rate > 0 && n <= |polls| && NoneLate(polls, rate, timeout, n)
    ensures forall k :: 0 <= k < n ==> !Late(polls[k], rate, timeout)
  {
    if n > 0 {
      EachIsNotLate(polls, rate, timeout, n - 1);
    }
  }

  predicate Quiet(polls: seq<Poll>, rate: nat, timeout: nat, m: nat, n: nat)
    requires rate > 0 && m <= n <= |polls|
  {
    forall k :: m <= k < n ==> !Late(polls[k], rate, timeout) && !polls[k].done
  }

  lemma {:induction false} QuietPollsBringNothing(polls: seq<Poll>, rate: nat, timeout: nat, m: nat, n: nat)
    requires rate > 0 && m <= n <= |polls| && Quiet(polls, rate, timeout, m, n)
    ensures Replies(polls, rate, timeout, n) == Replies(polls, rate, timeout, m)
    ensures NoneLate(polls, rate, timeout, m) ==> NoneLate(polls, rate, timeout, n)
    decreases n
  {
    if m < n {
      QuietPollsBringNothing(polls, rate, timeout, m, n - 1);
    }
  }

  datatype Wait = Done | TimedOut | StillWaiting

  /** The wait after one launch, from poll number `start` on. */
  method AwaitDone(polls: seq<Poll>, start: nat, rate: nat, timeout: nat) returns (w: Wait, n: nat)
    requires rate > 0 && start <= |polls|
    ensures start <= n <= |polls| && Quiet(polls, rate, timeout, start, n)
    ensures w.StillWaiting? <==> n == |polls|
    ensures w.Done? ==> !Late(polls[n], rate, timeout) && polls[n].done
    ensures w.TimedOut? ==> Late(polls[n], rate, timeout)
  {
    n := start;
    while n < |polls|
      invariant start <= n <= |polls| && Quiet(polls, rate, timeout, start, n)
    {
      if !(Ms(polls[n].ticks, rate) < timeout) {
        return TimedOut, n;
      }
      if polls[n].done {
        return Done, n;
      }
      n := n + 1;
    }
    w := StillWaiting;
  }

  /** After `used` polls `launches` replies have come, and the dispatch has to go on. */
  predicate GoesOn(polls: seq<Poll>, rate: nat, timeout: nat, used: nat, launches: nat)
    requires rate > 0 && used <= |polls|
  {
    && launches == |Replies(polls, rate, timeout, used)|
    && NoneFinal(Replies(polls, rate, timeout, |polls|), launches)
    && NoneLate(polls, rate, timeout, used)
  }

  /** What the next poll adds that is late or sees the launch done. */
  lemma ReplyComes(polls: seq<Poll>, rate: nat, timeout: nat, n: nat)
    requires rate > 0 && n < |polls| && (Late(polls[n], rate, timeout) || polls[n].done)
    requires NoneLate(polls, rate, timeout, n)
    ensures Replies(polls, rate, timeout, n + 1)
         == Replies(polls, rate, timeout, n) + [if Late(polls[n], rate, timeout) then Expired else Code(polls[n].hrsl)]
  {
    NoReplyExpired(polls, rate, timeout, n);
  }

  lemma {:induction false} NoReplyExpired(polls: seq<Poll>, rate: nat, timeout: nat, n: nat)
    requires rate > 0 && n <= |polls| && NoneLate(polls, rate, timeout, n)
    ensures var r := Replies(polls, rate, timeout, n); r != [] ==> r[|r| - 1].Code?
  {
    if n > 0 {
      NoReplyExpired(polls, rate, timeout, n - 1);
    }
  }

  lemma NextReply(polls: seq<Poll>, rate: nat, timeout: nat, used: nat, launches: nat, n: nat)
    requires rate > 0 && used <= n < |polls| && GoesOn(polls, rate, timeout, used, launches)
    requires Quiet(polls, rate, timeout, used, n) && (Late(polls[n], rate, timeout) || polls[n].done)
    ensures var all := Replies(polls, rate, timeout, |polls|);
            && launches < |all| && |Replies(polls, rate, timeout, n)| == launches
            && all[launches] == (if Late(polls[n], rate, timeout) then Expired else Code(polls[n].hrsl))
            && |Replies(polls, rate, timeout, n + 1)| == launches + 1
            && NoneLate(polls, rate, timeout, n)
    ensures !Late(polls[n], rate, timeout) && !Final(Replies(polls, rate, timeout, |polls|), launches) ==>
              GoesOn(polls, rate, timeout, n + 1, launches + 1)
  {
    QuietPollsBringNothing(polls, rate, timeout, used, n);
    ReplyComes(polls, rate, timeout, n);
    ReplyStays(polls, rate, timeout, n + 1, |polls|, launches);
  }

  /** The polls came to an end first. */
  lemma NoMoreReplies(polls: seq<Poll>, rate: nat, timeout: nat, used: nat, launches: nat)
    requires rate > 0 && used <= |polls| && GoesOn(polls, rate, timeout, used, launches)
    requires Quiet(polls, rate, timeout, used, |polls|)
    ensures GoesOn(polls, rate, timeout, |polls|, launches)
  {
    QuietPollsBringNothing(polls, rate, timeout, used, |polls|);
  }

  /** One launch and its wait, after `used` polls; the result register is read when the launch is done. */
  method LaunchAndWait(polls: seq<Poll>, used: nat, rate: nat, timeout: nat, ghost launches: nat)
    returns (w: Wait, rcode: nat, used': nat)
    requires rate > 0 && used <= |polls| && GoesOn(polls, rate, timeout, used, launches)
    ensures used' <= |polls|
    ensures w.StillWaiting? ==> used' == |polls| && GoesOn(polls, rate, timeout, |polls|, launches)
    ensures !w.StillWaiting? ==>
              var all := Replies(polls, rate, timeout, |polls|);
              && used < used' && launches < |all|
              && all[launches] == (if w.TimedOut? then Expired else Code(rcode)) && rcode == ResultOf(all[launches])
              && |Replies(polls, rate, timeout, used' - 1)| == launches
              && |Replies(polls, rate, timeout, used')| == launches + 1
              && NoneLate(polls, rate, timeout, used' - 1)
              && (w.Done? && !Final(all, launches) ==> GoesOn(polls, rate, timeout, used', launches + 1))
  {
    var n;
    w, n := AwaitDone(polls, used, rate, timeout);
    if w.StillWaiting? {
      NoMoreReplies(polls, rate, timeout, used, launches);
      return w, DEADLINE_PASSED, n;
    }
    NextReply(polls, rate, timeout, used, launches, n);
    return w, if w.Done? then polls[n].hrsl else DEADLINE_PASSED, n + 1;
  }

  /** One packet dispatched at tick `begin`: launches, each with its wait, under one deadline. `used` polls
      were made; not over means that these polls were not enough. */
  method XferDispatchPkt(begin: nat, rate: nat, polls: seq<Poll>)
    returns (over: bool, rcode: nat, launches: nat, used: nat)
    requires rate > 0
    ensures used <= |polls| && 1 <= launches <= 202
    ensures var timeout := Deadline(begin, rate); var all := Replies(polls, rate, timeout, |polls|);
            if over then
              && used > 0 && launches <= |all|
              && |Replies(polls, rate, timeout, used - 1)| == launches - 1
              && |Replies(polls, rate, timeout, used)| == launches
              && Final(all, launches - 1) && NoneFinal(all, launches - 1)
              && rcode == (match all[launches - 1] case Expired => 0xff case Code(hrsl) => hrsl)
              && NoneLate(polls, rate, timeout, used - 1)
            else used == |polls| && GoesOn(polls, rate, timeout, used, launches - 1)
  {
    var timeout := Deadline(begin, rate);
    ghost var all := Replies(polls, rate, timeout, |polls|);
    var retryCount, nakCount := 0, 0;
    launches, used, rcode := 0, 0, 0;
    while true
      invariant used <= |polls| && GoesOn(polls, rate, timeout, used, launches)
      invariant nakCount == Occurrences(all, Code(HR_NAK), launches)
      invariant retryCount == Occurrences(all, Code(HR_TIMEOUT), launches)
      decreases |polls| - used
    {
      CountsAddUp(all, launches);
      var wait;
      wait, rcode, used := LaunchAndWait(polls, used, rate, timeout, launches);
      launches := launches + 1;
      if wait.StillWaiting? {
        return false, 0, launches, used;
      }
      if wait.TimedOut? {
        return true, rcode, launches, used;
      }
      if rcode == HR_NAK {
        nakCount := nakCount + 1;
        if nakCount == NAK_LIMIT {
          break;
        }
      } else if rcode == HR_TIMEOUT {
        retryCount := retryCount + 1;
        if retryCount == RETRY_LIMIT {
          break;
        }
      } else {
        break;
      }
    }
    over := true;
  }

  /** 202 launches do happen: 199 NAKs (code 4), two timeouts (code 14), one more of either. */
  lemma BoundIsTight(replies: seq<Reply>)
    requires |replies| == 202 && replies[199] == replies[200] == Code(14)
    requires forall k :: 0 <= k < 199 ==> replies[k] == Code(4)
    ensures forall k :: 0 <= k < 201 ==> !Final(replies, k)
    ensures Final(replies, 201)
  {
    forall n: nat | n <= 199
      ensures Occurrences(replies, Code(4), n) == n && Occurrences(replies, Code(14), n) == 0
    {
      OnlyOne(replies, 4, 14, n);
    }
    OnlyOne(replies, 4, 14, 199);
    assert Occurrences(replies, Code(14), 200) == 1;
    assert Occurrences(replies, Code(14), 201) == 2;
    assert Occurrences(replies, Code(4), 200) == 199;
    assert Occurrences(replies, Code(4), 201) == 199;
    forall k | 0 <= k < 201 ensures !Final(replies, k) {
      if k < 199 {
        OnlyOne(replies, 4, 14, k + 1);
      }
    }
  }

  lemma {:induction false} OnlyOne(replies: seq<Reply>, code: nat, other: nat, n: nat)
    requires n <= |replies| && code != other && forall k :: 0 <= k < n ==> replies[k] == Code(code)
    ensures Occurrences(replies, Code(code), n) == n && Occurrences(replies, Code(other), n) == 0
  {
    if n > 0 {
      OnlyOne(replies, code, other, n - 1);
    }
  }

  /** A device that is never ready is asked 200 times, one that never answers 3 times, and every other code of the
      host controller, or the deadline, ends the dispatch at once. */
  lemma SteadyReplies(replies: seq<Reply>, n: nat)
    requires n < |replies|
    ensures (forall k :: 0 <= k <= n ==> replies[k] == Code(4)) && n < 200 ==> (Final(replies, n) <==> n == 199)
    ensures (forall k :: 0 <= k <= n ==> replies[k] == Code(14)) && n < 3 ==> (Final(replies, n) <==> n == 2)
    ensures replies[n] != Code(4) && replies[n] != Code(14) ==> Final(replies, n)
  {
    if forall k :: 0 <= k <= n ==> replies[k] == Code(4) {
      OnlyOne(replies, 4, 14, n + 1);
    } else if forall k :: 0 <= k <= n ==> replies[k] == Code(14) {
      OnlyOne(replies, 14, 4, n + 1);
    }
  }

  // ----- the deadline

  /** The 32-bit tick counter shows as much as an unbounded one. */
  lemma CounterSuffices(t: nat, rate: nat)
    requires rate > 0
    ensures Ms(t % U32, rate) == Ms(t, rate)
  {
    DivMod(t, U32);
    var q, r := t / U32, t % U32;
    assert t * 1000 == r * 1000 + q * 1000 * U32;
    DivMod(r * 1000, U32);
    ModIsUnique(t * 1000, r * 1000 / U32 + q * 1000, Product(r), U32);
  }

  lemma ProductAfter(t0: nat, d: nat)
    ensures Product(t0 + d) == (Product(t0) + 1000 * d) % U32
  {
    DivMod(t0 * 1000, U32);
    var x := Product(t0) + 1000 * d;
    DivMod(x, U32);
    ModIsUnique((t0 + d) * 1000, t0 * 1000 / U32 + x / U32, x % U32, U32);
  }

  lemma QuotientAtLeastIff(x: nat, q: nat, m: nat)
    requires m > 0
    ensures x / m >= q <==> x >= q * m
  {
    DivMod(x, m);
    if x / m >= q {
      MulMono(q, x / m, m);
    } else {
      MulMono(x / m + 1, q, m);
      assert (x / m + 1) * m == x / m * m + m;
    }
  }

  /** The product at which the deadline of a dispatch begun at product `a` is passed. */
  function Threshold(a: nat, rate: nat): (x: nat)
    requires rate > 0
  {
    (a / rate + XFER_TIMEOUT) * rate
  }

  lemma ThresholdIs(a: nat, rate: nat)
    requires rate > 0
    ensures Threshold(a, rate) == a - a % rate + 5000 * rate
    ensures a + 4999 * rate < Threshold(a, rate) <= a + 5000 * rate
  {
    DivMod(a, rate);
    assert (a / rate + 5000) * rate == a / rate * rate + 5000 * rate;
  }

  /** The first tick after the start at which that product is reached, if nothing wraps before. */
  function FirstTick(a: nat, rate: nat): nat
    requires rate > 0
  {
    ThresholdIs(a, rate);
    (Threshold(a, rate) - a + 999) / 1000
  }

  lemma FirstTickIs(a: nat, rate: nat)
    requires rate > 0
    ensures var d := FirstTick(a, rate);
            a + 1000 * d >= Threshold(a, rate) && a + 1000 * d < Threshold(a, rate) + 1000 && d <= 5 * rate
    ensures rate <= 1000 ==> FirstTick(a, rate) == 5 * rate
  {
    ThresholdIs(a, rate);
    DivMod(a, rate);
  }

  predicate Passed(t0: nat, t: nat, rate: nat)
    requires rate > 0
  {
    Ms(t, rate) >= Deadline(t0, rate)
  }

  lemma PassedIff(t0: nat, d: nat, rate: nat)
    requires rate > 0 && Ms(t0, rate) + XFER_TIMEOUT < U32
    ensures Passed(t0, t0 + d, rate) <==> (Product(t0) + 1000 * d) % U32 >= Threshold(Product(t0), rate)
  {
    ProductAfter(t0, d);
    QuotientAtLeastIff(Product(t0 + d), Ms(t0, rate) + XFER_TIMEOUT, rate);
  }

  lemma WrappedIsSmall(x: nat)
    ensures if x < U32 then x % U32 == x else x % U32 <= x - U32
  {}

  /** Without wrap-around since the start the deadline is what it says, in whatever epoch of the product the
      dispatch began: it has not passed after 4.999 seconds and has passed after 5. */
  lemma DeadlineIsFiveSeconds(t0: nat, t: nat, rate: nat)
    requires rate > 0 && t0 <= t
    requires Product(t0) + (t - t0) * 1000 < U32 && Ms(t0, rate) + XFER_TIMEOUT < U32
    ensures t - t0 >= 5 * rate ==> Passed(t0, t, rate)
    ensures (t - t0) * 1000 <= 4999 * rate ==> !Passed(t0, t, rate)
  {
    PassedIff(t0, t - t0, rate);
    ThresholdIs(Product(t0), rate);
    WrappedIsSmall(Product(t0) + 1000 * (t - t0));
  }

  /** What the code is meant to do: the wait does not end before 4.999 seconds, */
  ghost predicate NotEarly(t0: nat, rate: nat)
    requires rate > 0
  {
    forall d: nat :: 1000 * d <= 4999 * rate ==> !PassedAfter(t0, d, rate)
  }

  /** and it ends within five. */
  ghost predicate InTime(t0: nat, rate: nat)
    requires rate > 0
  {
    exists d: nat :: d <= 5 * rate && PassedAfter(t0, d, rate)
  }

  predicate PassedAfter(t0: nat, d: nat, rate: nat)
    requires rate > 0
  {
    Passed(t0, t0 + d, rate)
  }

  /** The first tick that reaches the deadline comes before the product wraps. */
  predicate Fits(t0: nat, rate: nat)
    requires rate > 0
  {
    Product(t0) + 1000 * FirstTick(Product(t0), rate) < U32
  }

  lemma FitsMeansRoom(t0: nat, rate: nat)
    requires rate > 0 && Fits(t0, rate)
    ensures Ms(t0, rate) + XFER_TIMEOUT < U32
  {
    var a := Product(t0);
    FirstTickIs(a, rate);
    MulMono(1, rate, a / rate + XFER_TIMEOUT);
  }

  /** From that tick on, as long as the product does not wrap, the deadline has passed. */
  lemma PassedFromFirstTick(t0: nat, d: nat, rate: nat)
    requires rate > 0 && FirstTick(Product(t0), rate) <= d && Product(t0) + 1000 * d < U32
    ensures PassedAfter(t0, d, rate)
  {
    FirstTickIs(Product(t0), rate);
    assert Fits(t0, rate);
    FitsMeansRoom(t0, rate);
    PassedIff(t0, d, rate);
  }

  lemma EarlyTicksAreNotLate(t0: nat, d: nat, rate: nat)
    requires rate > 0 && Ms(t0, rate) + XFER_TIMEOUT < U32 && 1000 * d <= 4999 * rate
    ensures !PassedAfter(t0, d, rate)
  {
    PassedIff(t0, d, rate);
    ThresholdIs(Product(t0), rate);
    WrappedIsSmall(Product(t0) + 1000 * d);
  }

  lemma MissesThreshold(a: nat, d: nat, rate: nat)
    requires rate > 0 && d <= 5 * rate && a < U32 <= a + 1000 * FirstTick(a, rate)
    ensures (a + 1000 * d) % U32 < Threshold(a, rate)
  {
    ThresholdIs(a, rate);
    FirstTickIs(a, rate);
    WrappedIsSmall(a + 1000 * d);
    QuotientNonneg(a, rate);
  }

  lemma QuotientNonneg(a: nat, m: nat)
    requires m > 0
    ensures a % m <= a
  {}

  /** If the product wraps first, no tick of the five seconds passes the deadline. */
  lemma WrapHidesTheDeadline(t0: nat, d: nat, rate: nat)
    requires rate > 0 && Ms(t0, rate) + XFER_TIMEOUT < U32 && !Fits(t0, rate) && d <= 5 * rate
    ensures !PassedAfter(t0, d, rate)
  {
    PassedIff(t0, d, rate);
    MissesThreshold(Product(t0), d, rate);
  }

  /** With a sum that wraps the deadline is passed at once. */
  lemma WrappedDeadlineIsPassed(t0: nat, rate: nat)
    requires rate > 0 && Ms(t0, rate) + XFER_TIMEOUT >= U32
    ensures PassedAfter(t0, 0, rate) && !Fits(t0, rate)
  {
    DivMod(Product(t0), rate);
    MulMono(1, rate, Ms(t0, rate));
    ModIsUnique(Ms(t0, rate) + XFER_TIMEOUT, 1, Ms(t0, rate) + XFER_TIMEOUT - U32, U32);
    if Fits(t0, rate) {
      FitsMeansRoom(t0, rate);
    }
  }

  /** For every start and every tick rate: the wait is five seconds, not less and not more, exactly if the
      first tick that reaches the deadline comes before the 32-bit product wraps. */
  lemma DeadlineKeptIff(t0: nat, rate: nat)
    requires rate > 0
    ensures NotEarly(t0, rate) && InTime(t0, rate) <==> Fits(t0, rate)
  {
    if Ms(t0, rate) + XFER_TIMEOUT >= U32 {
      WrappedDeadlineIsPassed(t0, rate);
    } else {
      forall d: nat | 1000 * d <= 4999 * rate ensures !PassedAfter(t0, d, rate) {
        EarlyTicksAreNotLate(t0, d, rate);
      }
      if Fits(t0, rate) {
        FirstTickIs(Product(t0), rate);
        PassedFromFirstTick(t0, FirstTick(Product(t0), rate), rate);
      } else {
        forall d: nat | d <= 5 * rate ensures !PassedAfter(t0, d, rate) {
          WrapHidesTheDeadline(t0, d, rate);
        }
      }
    }
  }

  /** At the board's 1000 ticks a second the wait ends within five seconds exactly if the dispatch begins more
      than that before the product wraps. */
  lemma InTimeAtBoardRate(t0: nat)
    ensures InTime(t0, 1000) <==> t0 * 1000 % U32 + 5000000 < U32
  {
    DeadlineKeptIff(t0, 1000);
    FirstTickIs(Product(t0), 1000);
    forall d: nat | 1000 * d <= 4999 * 1000 ensures !PassedAfter(t0, d, 1000) {
      EarlyTicksAreNotLate(t0, d, 1000);
    }
  }

  /** A dispatch that is polled once between the first passing tick and the wrap is over. */
  lemma DispatchIsOverInTime(begin: nat, rate: nat, polls: seq<Poll>, k: nat, d: nat, launches: nat)
    requires rate > 0 && k < |polls| && polls[k].ticks == (begin + d) % U32
    requires FirstTick(Product(begin), rate) <= d && Product(begin) + 1000 * d < U32
    ensures !GoesOn(polls, rate, Deadline(begin, rate), |polls|, launches)
  {
    PassedFromFirstTick(begin, d, rate);
    CounterSuffices(begin + d, rate);
    assert Late(polls[k], rate, Deadline(begin, rate));
    if NoneLate(polls, rate, Deadline(begin, rate), |polls|) {
      EachIsNotLate(polls, rate, Deadline(begin, rate), |polls|);
    }
  }

  // ----- deadlines that are never met

  /** The deadline can even be out of the clock's reach for ever: some tick count passes it, at whatever time,
      exactly when it is at most the largest millisecond count the truncated product yields. */
  lemma DeadlineCanBeMet(timeout: nat, rate: nat)
    requires rate > 0
    ensures (exists t: u32 :: Ms(t, rate) >= timeout) <==> timeout <= (U32 - 8) / rate
  {
    LargestProduct(rate);
    if t: u32 :| Ms(t, rate) >= timeout {
      ProductIsMultipleOf8(t);
      DivMono(Product(t), U32 - 8, rate);
    }
  }

  lemma ProductIsMultipleOf8(t: nat)
    ensures Product(t) <= U32 - 8
  {
    DivMod(t * 1000, U32);
    var e := 125 * t - 536870912 * (t * 1000 / U32);
    assert Product(t) == 8 * e;
  }

  lemma LargestProduct(rate: nat)
    requires rate > 0
    ensures exists t: u32 :: Ms(t, rate) == (U32 - 8) / rate
  {
    var t: u32 := LAST_TICK;
    ModIsUnique(t * 1000, 97, U32 - 8, U32);
    assert Ms(t, rate) == (U32 - 8) / rate;
  }

  /** A tick count whose product with 1000 is 8 short of a multiple of 2^32. */
  const LAST_TICK: u32 := 420906795

  lemma DivMono(a: nat, b: nat, m: nat)
    requires a <= b && m > 0
    ensures a / m <= b / m
  {
    DivMod(a, m);
    DivMod(b, m);
    if a / m > b / m {
      MulMono(b / m + 1, a / m, m);
    }
  }

  /** At 1000 ticks a second that happens exactly to dispatches begun with a millisecond count above 4289967. */
  lemma DeadlineNeverPassesNearWrap(t0: nat)
    ensures (forall t: nat :: !Passed(t0, t, 1000)) <==> 4289967 < Ms(t0, 1000)
  {
    ProductIsMultipleOf8(t0);
    if 4289967 < Ms(t0, 1000) {
      forall t: nat ensures !Passed(t0, t, 1000) {
        ProductIsMultipleOf8(t);
      }
    } else {
      LargestProduct(1000);
      var t: u32 :| Ms(t, 1000) == (U32 - 8) / 1000;
      assert Passed(t0, t, 1000);
    }
  }

  /** Tick 8584935, 143 minutes after start-up, is too late for the five seconds but not lost for ever. */
  lemma LateInItsEpoch()
    ensures !InTime(8584935, 1000) && !(4289967 < Ms(8584935, 1000))
  {
    InTimeAtBoardRate(8584935);
  }
}
