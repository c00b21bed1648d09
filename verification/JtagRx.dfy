/** The receive half of the JTAG UART driver as a state machine: one reader thread, one access per
    step, with interrupt runs and host-activity alarms between any two steps. */
module JtagRx {
  import opened Words
  import opened Ring
  import opened JtagHost

  /** What one read of the DATA register answers: the RVALID bit, the RAVAIL count, the character. */
  datatype Reply = Reply(valid: bool, avail: nat, data: byte)

  /** The hardware property the driver relies on: an invalid character means an empty FIFO. */
  predicate Plausible(replies: seq<Reply>) {
    forall i :: 0 <= i < |replies| && !replies[i].valid ==> replies[i].avail == 0
  }

  datatype Pc =
    | Idle
    | Top                           // outer loop test
    | Load                          // about to read both indices
    | Copying(n: nat, chunk: seq<byte>)  // |chunk| of `n` bytes copied out
    | Decide(inp: nat)              // out of the inner loop; `inp` is the index last read
    | Spin(inp: nat)
    | Recheck(inp: nat)
    | Leave                         // about to enable RE (if anything was read) and return

  /** One finished call. `left` bytes were queued when it last read the indices; `host` is the
      inactivity counter its wait last looked at. */
  datatype Call = Call(space: nat, nonblock: bool, bytes: seq<byte>, result: int, left: nat, host: nat)

  datatype State = State(
    ring: Ring, re: bool, host: nat, timeout: nat,
    pc: Pc, space: nat, nonblock: bool,
    got: seq<byte>,           // bytes of the running call already taken out of the ring
    left: nat,                // bytes queued when the running call last read the indices
    seen: nat,                // inactivity counter its wait last looked at
    popped: seq<byte>,        // every valid character the interrupt routine took from the FIFO
    log: seq<Call>)

  datatype Event =
    | Begin(space: nat, nonblock: bool)
    | Thread
    | Isr(replies: seq<Reply>)      // RI is pending; the DATA register will answer like this
    | Alarm(active: bool)

  function Boot(timeout: nat): State {
    State(EmptyRing(), true, 0, timeout, Idle, 0, false, [], 0, 0, [], [])
  }

  /** How many characters one pass of the interrupt routine stores: it stops at the first invalid
      answer and never reads the register when the ring is full. */
  function Stored(free: nat, replies: seq<Reply>): (n: nat)
    ensures n <= free && n <= |replies|
    ensures forall i :: 0 <= i < n ==> replies[i].valid
    ensures n < free && n < |replies| ==> !replies[n].valid
  {
    if free == 0 || replies == [] || !replies[0].valid then 0
    else 1 + Stored(free - 1, replies[1..])
  }

  function Chars(replies: seq<Reply>): (s: seq<byte>)
    ensures |s| == |replies|
  {
    if replies == [] then [] else Chars(replies[..|replies| - 1]) + [replies[|replies| - 1].data]
  }

  lemma CharsSnoc(replies: seq<Reply>, i: nat)
    requires i < |replies|
    ensures Chars(replies[..i + 1]) == Chars(replies[..i]) + [replies[i].data]
  {
    assert replies[..i + 1][..i] == replies[..i];
  }

  /** The RAVAIL field of the last answer, which decides whether RE is turned off. Before any answer
      the routine assumes there is data; a register that is read past the listed answers is empty. */
  function DataLeft(free: nat, replies: seq<Reply>): bool {
    var n := Stored(free, replies);
    if n < free then n < |replies| && replies[n].avail > 0
    else if n == 0 then true
    else replies[n - 1].avail > 0
  }

  function IsrStep(s: State, replies: seq<Reply>): State
    requires s.ring.Valid()
  {
    var chars := Chars(replies[..Stored(s.ring.Free(), replies)]);
    s.(ring := PushAll(s.ring, chars), popped := s.popped + chars,
       re := s.re && !DataLeft(s.ring.Free(), replies))
  }

  predicate Sane(s: State) {
    && |s.ring.buf| == BUF_LEN && s.ring.inp < BUF_LEN && s.ring.out < BUF_LEN
    && |s.got| <= s.space
    && (s.pc.Copying? ==> |s.pc.chunk| <= s.pc.n <= s.space - |s.got| && s.ring.out + s.pc.n <= BUF_LEN
                          && s.pc.n <= s.ring.Count())
  }

  function Return(s: State): State {
    var result := if s.got != [] then |s.got| else if s.nonblock then -EWOULDBLOCK else -EIO;
    s.(pc := Idle, space := 0, nonblock := false, got := [], re := s.re || s.got != [],
       log := s.log + [Call(s.space, s.nonblock, s.got, result, s.left, s.seen)])
  }

  function ThreadStep(s: State): State
    requires Sane(s)
  {
    match s.pc
    case Idle => s
    case Top => s.(pc := if s.space > |s.got| then Load else Leave)
    case Load =>
      var n, left := DataRun(s.ring.inp, s.ring.out), s.ring.Count();
      if n == 0 then s.(left := left, pc := Decide(s.ring.inp))
      else s.(left := left, pc := Copying(Min(n, s.space - |s.got|), []))
    case Copying(n, chunk) =>
      if |chunk| < n then
        s.(pc := Copying(n, chunk + [s.ring.buf[s.ring.out + |chunk|]]))
      else
        var got := s.got + chunk;
        s.(ring := s.ring.Drop(n), got := got,
           pc := if s.space > |got| then Load else Decide(s.ring.inp))
    case Decide(inp) => s.(pc := if s.got != [] || s.nonblock then Leave else Spin(inp))
    case Spin(inp) =>
      if inp == s.ring.inp && s.host < s.timeout then s else s.(seen := s.host, pc := Recheck(inp))
    case Recheck(inp) => s.(pc := if inp == s.ring.inp then Leave else Top)
    case Leave => Return(s)
  }

  function Step(s: State, e: Event): State
    requires Sane(s)
  {
    match e
    case Begin(space, nonblock) =>
      if s.pc.Idle? then s.(pc := Top, space := space, nonblock := nonblock, got := []) else s
    case Thread => ThreadStep(s)
    case Isr(replies) => IsrStep(s, replies)
    case Alarm(active) => s.(host := AfterAlarm(s.host, active))
  }

  /** Everything the finished calls returned, in call order. */
  function Returned(log: seq<Call>): seq<byte> {
    if log == [] then [] else Returned(log[..|log| - 1]) + log[|log| - 1].bytes
  }

  /** A short answer means that the ring was empty when the call last looked, and an empty blocking
      one that in addition the host had been silent for the timeout. */
  predicate Honest(c: Call, timeout: nat) {
    && |c.bytes| <= c.space
    && c.result == (if c.bytes != [] then |c.bytes| else if c.nonblock then -11 else -5)
    && (|c.bytes| < c.space ==> c.left == 0)
    && (c.bytes == [] && c.space > 0 && !c.nonblock ==> c.host >= timeout)
  }

  predicate AllHonest(log: seq<Call>, timeout: nat) {
    log != [] ==> AllHonest(log[..|log| - 1], timeout) && Honest(log[|log| - 1], timeout)
  }

  lemma {:induction false} EachIsHonest(log: seq<Call>, timeout: nat)
    requires AllHonest(log, timeout)
    ensures forall i :: 0 <= i < |log| ==> Honest(log[i], timeout)
  {
    if log != [] {
      EachIsHonest(log[..|log| - 1], timeout);
    }
  }

  ghost predicate Fifo(s: State)
    requires Sane(s)
  {
    Returned(s.log) + (s.got + s.ring.Contents()) == s.popped
  }

  /** Reception is switched off only while the ring is full or the reader has taken bytes out and is
      still on its way to switching it on again. */
  ghost predicate Awake(s: State)
    requires Sane(s)
  {
    !s.re ==> s.ring.Free() == 0 || s.got != []
  }

  /** What needs no assumption about the hardware. */
  ghost predicate Ordered(s: State) {
    && Sane(s) && Fifo(s)
    && (s.pc.Copying? ==> s.pc.chunk == s.ring.Contents()[..|s.pc.chunk|])
    && Control(s) && s.host <= LIMIT
    && AllHonest(s.log, s.timeout)
  }

  ghost predicate Inv(s: State) {
    Ordered(s) && Awake(s)
  }

  /** What the call knows at each point. While it waits, the index it compares with cannot come round
      to its old value, because only the reader frees cells. */
  ghost predicate Control(s: State)
    requires Sane(s)
  {
    var looked := |s.got| < s.space ==> s.left == 0;
    match s.pc
    case Idle | Top => s.got == []
    case Load => |s.got| < s.space
    case Copying(n, _) => n > 0
    case Decide(inp) => looked && (s.got == [] ==> s.space > 0 && s.ring.out == inp)
    case Spin(inp) => looked && Waiting(s, inp)
    case Recheck(inp) => looked && Waiting(s, inp) && (s.ring.Count() == 0 ==> s.seen >= s.timeout)
    case Leave => looked && (s.got == [] && s.space > 0 && !s.nonblock ==> s.seen >= s.timeout)
  }

  predicate Waiting(s: State, inp: nat) {
    s.got == [] && s.space > 0 && !s.nonblock && s.ring.out == inp
  }

  /** The assumption about the hardware, over a whole run. */
  predicate PlausibleRun(es: seq<Event>) {
    forall i :: 0 <= i < |es| && es[i].Isr? ==> Plausible(es[i].replies)
  }

  lemma ReturnedSnoc(log: seq<Call>, c: Call)
    ensures Returned(log + [c]) == Returned(log) + c.bytes
  {
    assert (log + [c])[..|log|] == log;
  }

  /** The call that ends adds what it has in hand to what was returned, and answers honestly. */
  lemma LastCall(s: State)
    requires Sane(s) && s.pc.Leave? && Control(s)
    ensures var log := Return(s).log;
            Returned(log) == Returned(s.log) + s.got && (AllHonest(s.log, s.timeout) ==> AllHonest(log, s.timeout))
  {
    var c := Return(s).log[|s.log|];
    ReturnedSnoc(s.log, c);
    assert (s.log + [c])[..|s.log|] == s.log;
  }

  lemma ReturnKeeps(s: State)
    requires Ordered(s) && s.pc.Leave?
    ensures Ordered(Return(s))
  {
    LastCall(s);
    Regroup(Returned(s.log), s.got, s.ring.Contents());
    assert [] + s.ring.Contents() == s.ring.Contents();
  }

  lemma CopyKeeps(s: State)
    requires Ordered(s) && s.pc.Copying? && |s.pc.chunk| < s.pc.n
    ensures Ordered(ThreadStep(s))
  {
    NextOfRun(s.ring, s.pc.chunk);
    assert ThreadStep(s) == s.(pc := ThreadStep(s).pc);
  }

  lemma NextOfRun(r: Ring, chunk: seq<byte>)
    requires r.Valid() && |chunk| < r.Count() && r.out + |chunk| < BUF_LEN && chunk == r.Contents()[..|chunk|]
    ensures chunk + [r.buf[r.out + |chunk|]] == r.Contents()[..|chunk| + 1]
  {
    ContentsAt(r, |chunk|);
    TakeOneMore(r.Contents(), |chunk|);
  }

  lemma DropKeeps(s: State)
    requires Ordered(s) && s.pc.Copying? && |s.pc.chunk| == s.pc.n
    ensures Ordered(ThreadStep(s))
  {
    var s', c, n := ThreadStep(s), s.ring.Contents(), s.pc.n;
    DropTakesPrefix(s.ring, n);
    assert s'.got == s.got + c[..n] && s'.ring.Contents() == c[n..];
    TakeThenRest(s.got, c, n);
    assert Fifo(s');
  }

  lemma QuietKeeps(s: State)
    requires Ordered(s) && !s.pc.Copying? && !s.pc.Leave?
    ensures Ordered(ThreadStep(s))
  {
    DataRunFits(s.ring);
    var s' := ThreadStep(s);
    assert s' == s.(pc := s'.pc, left := s'.left, seen := s'.seen);
    assert Fifo(s');
    if s'.pc.Copying? {
      assert s.ring.Contents()[..0] == [];
    }
  }

  lemma IsrKeeps(s: State, replies: seq<Reply>)
    requires Ordered(s)
    ensures Ordered(IsrStep(s, replies))
  {
    var s' := IsrStep(s, replies);
    var chars := Chars(replies[..Stored(s.ring.Free(), replies)]);
    PushAllAppends(s.ring, chars);
    var r, g, c := Returned(s.log), s.got, s.ring.Contents();
    assert (r + (g + c)) + chars == r + (g + (c + chars));
    if s.pc.Copying? {
      var k := |s.pc.chunk|;
      assert (c + chars)[..k] == c[..k];
    }
  }

  /** Order, honest answers and control survive every step. */
  lemma StepKeepsOrder(s: State, e: Event)
    requires Ordered(s)
    ensures Ordered(Step(s, e))
  {
    match e
    case Isr(replies) => IsrKeeps(s, replies);
    case Thread =>
      if s.pc.Leave? { ReturnKeeps(s); }
      else if !s.pc.Copying? { QuietKeeps(s); }
      else if |s.pc.chunk| < s.pc.n { CopyKeeps(s); }
      else { DropKeeps(s); }
    case _ =>
  }

  /** The rule about switching reception off survives plausible answers. */
  lemma StepKeepsAwake(s: State, e: Event)
    requires Inv(s) && (e.Isr? ==> Plausible(e.replies))
    ensures Sane(Step(s, e)) && Awake(Step(s, e))
  {
    StepKeepsOrder(s, e);
    if e.Isr? {
      PushAllAppends(s.ring, Chars(e.replies[..Stored(s.ring.Free(), e.replies)]));
    }
  }

  lemma StepKeeps(s: State, e: Event)
    requires Inv(s) && (e.Isr? ==> Plausible(e.replies))
    ensures Inv(Step(s, e))
  {
    StepKeepsOrder(s, e);
    StepKeepsAwake(s, e);
  }

  ghost function Run(timeout: nat, es: seq<Event>): (s: State)
    ensures Ordered(s)
    ensures PlausibleRun(es) ==> Awake(s)
  {
    if es == [] then
      assert EmptyRing().Contents() == [];
      Boot(timeout)
    else
      var before, e := Run(timeout, es[..|es| - 1]), es[|es| - 1];
      StepKeepsOrder(before, e);
      assert PlausibleRun(es) ==> Awake(Step(before, e)) by {
        if PlausibleRun(es) {
          StepKeepsAwake(before, e);
        }
      }
      Step(before, e)
  }

  /** For every interleaving, the bytes the finished calls returned, those the running call has in
      hand and those in the ring are exactly the valid characters taken from the FIFO, in order. If an
      invalid answer always means an empty FIFO, reception is off between calls only with a full ring. */
  lemma {:induction false} ReceiveIsFifo(timeout: nat, es: seq<Event>)
    ensures var s := Run(timeout, es);
            && Returned(s.log) + (s.got + s.ring.Contents()) == s.popped
            && (forall i :: 0 <= i < |s.log| ==> Honest(s.log[i], s.timeout))
            && (PlausibleRun(es) && s.pc.Idle? && !s.re ==> s.ring.Free() == 0)
  {
    EachIsHonest(Run(timeout, es).log, Run(timeout, es).timeout);
  }

  /** Further events. */
  ghost function After(s: State, es: seq<Event>): (s': State)
    requires Ordered(s)
    ensures Ordered(s')
  {
    if es == [] then s
    else
      var before := After(s, es[..|es| - 1]);
      StepKeepsOrder(before, es[|es| - 1]);
      Step(before, es[|es| - 1])
  }

  /** The call that began when `log` was the list of finished calls is under way and on its way to return at
      least `least` bytes: they are in hand or in the ring. */
  ghost predicate Succeeding(s: State, log: seq<Call>, least: nat)
    requires Sane(s)
  {
    && s.log == log && 0 < least <= s.space && least <= |s.got| + s.ring.Count()
    && match s.pc
       case Idle => false
       case Decide(_) => least <= |s.got| || (s.got == [] && !s.nonblock)
       case Leave => least <= |s.got|
       case _ => true
  }

  /** That call has returned at least that many. */
  predicate Succeeded(s: State, log: seq<Call>, least: nat) {
    && log < s.log
    && least <= |s.log[|log|].bytes| && s.log[|log|].result == |s.log[|log|].bytes|
  }

  lemma SucceedingStep(s: State, e: Event, log: seq<Call>, least: nat)
    requires Ordered(s) && Succeeding(s, log, least)
    ensures var s' := Step(s, e);
            && Sane(s')
            && (Succeeding(s', log, least) || (Succeeded(s', log, least) && s'.re && s'.pc.Idle?))
  {
    StepKeepsOrder(s, e);
    DataRunFits(s.ring);
    if e.Isr? {
      PushAllAppends(s.ring, Chars(e.replies[..Stored(s.ring.Free(), e.replies)]));
    } else if e.Thread? && s.pc.Copying? && |s.pc.chunk| == s.pc.n {
      DropTakesPrefix(s.ring, s.pc.n);
    }
  }

  lemma SucceededStep(s: State, e: Event, log: seq<Call>, least: nat)
    requires Ordered(s) && Succeeded(s, log, least)
    ensures Succeeded(Step(s, e), log, least)
  {}

  /** A bound on the reader's own steps that are left before such a call returns. */
  function StepsLeft(s: State): nat
    requires Sane(s)
  {
    var room := s.space - |s.got|;
    match s.pc
    case Top => 3 * room + 4
    case Load => 3 * room + 3
    case Copying(n, chunk) => n - |chunk| + 4 + 3 * (room - n)
    case Decide(_) => if s.got == [] && !s.nonblock then 3 * room + 7 else 2
    case Spin(_) => 3 * room + 6
    case Recheck(_) => 3 * room + 5
    case Leave => 1
    case Idle => 0
  }

  lemma StepsStayPositive(t: State, log: seq<Call>, least: nat)
    requires Sane(t)
    ensures Succeeding(t, log, least) ==> StepsLeft(t) > 0
  {}

  lemma StepsLeftFall(s: State, e: Event, log: seq<Call>, least: nat)
    requires Ordered(s) && Succeeding(s, log, least)
    ensures Sane(Step(s, e))
    ensures Succeeding(Step(s, e), log, least) ==>
              StepsLeft(Step(s, e)) + (if e.Thread? then 1 else 0) <= StepsLeft(s)
  {
    StepKeepsOrder(s, e);
    if e.Thread? {
      ThreadStepsLess(s, log, least);
    }
  }

  lemma ThreadStepsLess(s: State, log: seq<Call>, least: nat)
    requires Ordered(s) && Sane(ThreadStep(s)) && Succeeding(s, log, least)
    ensures Succeeding(ThreadStep(s), log, least) ==> StepsLeft(ThreadStep(s)) < StepsLeft(s)
  {
    DataRunFits(s.ring);
  }

  function ThreadSteps(es: seq<Event>): nat {
    if es == [] then 0 else ThreadSteps(es[..|es| - 1]) + if es[|es| - 1].Thread? then 1 else 0
  }

  /** What a state may be that comes after `s` and `steps` steps of the reader. */
  ghost predicate GoesOn(s: State, least: nat, t: State, steps: nat)
    requires Sane(s) && Sane(t)
  {
    || Succeeded(t, s.log, least)
    || (Succeeding(t, s.log, least) && StepsLeft(t) + steps <= StepsLeft(s))
  }

  lemma GoesOnStep(s: State, least: nat, u: State, steps: nat, e: Event)
    requires Sane(s) && Ordered(u) && GoesOn(s, least, u, steps)
    ensures Sane(Step(u, e)) && GoesOn(s, least, Step(u, e), steps + if e.Thread? then 1 else 0)
    ensures Succeeding(u, s.log, least) && Succeeded(Step(u, e), s.log, least) ==> Step(u, e).re && Step(u, e).pc.Idle?
  {
    StepKeepsOrder(u, e);
    if Succeeded(u, s.log, least) {
      SucceededStep(u, e, s.log, least);
    } else {
      SucceedingStep(u, e, s.log, least);
      StepsLeftFall(u, e, s.log, least);
    }
  }

  /** From any point at which a call has `least` bytes in sight, whatever comes in between: it returns at least
      them within the steps that are left. */
  lemma {:induction false} ReaderGoesOn(s: State, least: nat, es: seq<Event>)
    requires Ordered(s) && Succeeding(s, s.log, least)
    ensures Ordered(After(s, es)) && GoesOn(s, least, After(s, es), ThreadSteps(es))
    ensures ThreadSteps(es) >= StepsLeft(s) ==> Succeeded(After(s, es), s.log, least)
  {
    if es != [] {
      var before, e := es[..|es| - 1], es[|es| - 1];
      ReaderGoesOn(s, least, before);
      GoesOnStep(s, least, After(s, before), ThreadSteps(before), e);
    }
    StepsStayPositive(After(s, es), s.log, least);
  }

  /** A waiting reader does not overlook what arrives: waiting with bytes in the ring, whatever the device
      answers and the alarms find from there on, it has returned all of them that fit, or more, after
      3 * space + 6 of its steps. */
  lemma WaitingReaderGoesOn(s: State, es: seq<Event>)
    requires Ordered(s) && (s.pc.Spin? || s.pc.Recheck?) && s.ring.Count() > 0
    ensures ThreadSteps(es) >= 3 * s.space + 6 ==>
              var t := After(s, es);
              && |t.log| > |s.log| && t.log[..|s.log|] == s.log
              && |t.log[|s.log|].bytes| >= Min(s.space, s.ring.Count()) > 0
              && t.log[|s.log|].result == |t.log[|s.log|].bytes|
  {
    ReaderGoesOn(s, Min(s.space, s.ring.Count()), es);
  }

  /** And a call that finds bytes in the ring does not wait for more: blocking or not, it has returned all of
      them that fit after 3 * space + 4 steps. */
  lemma CallTakesWhatIsThere(s: State, space: nat, nonblock: bool, es: seq<Event>)
    requires Ordered(s) && s.pc.Idle? && space > 0 && s.ring.Count() > 0
    ensures ThreadSteps(es) >= 3 * space + 4 ==>
              var t := After(Step(s, Begin(space, nonblock)), es);
              && |t.log| > |s.log| && t.log[..|s.log|] == s.log
              && |t.log[|s.log|].bytes| >= Min(space, s.ring.Count()) > 0
              && t.log[|s.log|].result == |t.log[|s.log|].bytes|
  {
    ReaderGoesOn(Step(s, Begin(space, nonblock)), Min(space, s.ring.Count()), es);
  }

  /** A non-blocking call returns within as many steps in any case. */
  lemma {:induction false} NonblockingReaderReturns(s: State, space: nat, es: seq<Event>)
    requires Ordered(s) && s.pc.Idle?
    ensures var s1, t := Step(s, Begin(space, true)), After(Step(s, Begin(space, true)), es);
            && Ordered(t)
            && (|t.log| > |s.log|
                || (t.log == s.log && t.nonblock && !t.pc.Idle? && StepsLeft(t) + ThreadSteps(es) <= StepsLeft(s1)))
    ensures ThreadSteps(es) >= 3 * space + 4 ==> |After(Step(s, Begin(space, true)), es).log| > |s.log|
  {
    var s1 := Step(s, Begin(space, true));
    if es != [] {
      var before, e := es[..|es| - 1], es[|es| - 1];
      NonblockingReaderReturns(s, space, before);
      NonblockingStep(After(s1, before), e);
    }
  }

  lemma NonblockingStep(u: State, e: Event)
    requires Ordered(u)
    ensures Ordered(Step(u, e)) && |Step(u, e).log| >= |u.log|
    ensures u.nonblock && !u.pc.Idle? ==>
              var t := Step(u, e);
              || |t.log| > |u.log|
              || (t.log == u.log && t.nonblock && !t.pc.Idle?
                  && 0 < StepsLeft(t) && StepsLeft(t) + (if e.Thread? then 1 else 0) <= StepsLeft(u))
  {
    StepKeepsOrder(u, e);
    if e.Thread? {
      NonblockingThread(u);
    }
  }

  lemma NonblockingThread(u: State)
    requires Ordered(u) && Sane(ThreadStep(u))
    ensures |ThreadStep(u).log| >= |u.log|
    ensures u.nonblock && !u.pc.Idle? ==>
              var t := ThreadStep(u);
              || |t.log| > |u.log|
              || (t.log == u.log && t.nonblock && !t.pc.Idle? && 0 < StepsLeft(t) < StepsLeft(u))
  {
    DataRunFits(u.ring);
  }

  /** A full ring is reopened. With reception off and nobody reading, a call with room for a byte has returned
      with as many bytes as fit, of the 2047 there are, after 3 * space + 4 steps of the reader at most,
      whatever comes in between; reception is on when it returns; and whenever nobody is reading after
      that, reception is on or the ring is full again. */
  lemma {:induction false} FullRingIsReopened(s: State, space: nat, nonblock: bool, es: seq<Event>)
    requires Inv(s) && s.pc.Idle? && !s.re && space > 0 && PlausibleRun(es)
    ensures var s1, t := Step(s, Begin(space, nonblock)), After(Step(s, Begin(space, nonblock)), es);
            && Inv(t)
            && (ThreadSteps(es) >= 3 * space + 4 ==> Succeeded(t, s.log, Min(space, 2047)))
            && (t.pc.Idle? && !t.re ==> t.ring.Free() == 0)
            && (es != [] && |After(s1, es[..|es| - 1]).log| == |s.log| < |t.log| ==> t.re && t.pc.Idle?)
  {
    var s1 := Step(s, Begin(space, nonblock));
    PlausibleKeeps(s1, es);
    ReaderGoesOn(s1, Min(space, 2047), es);
    if es != [] {
      var before, e := es[..|es| - 1], es[|es| - 1];
      ReaderGoesOn(s1, Min(space, 2047), before);
      GoesOnStep(s1, Min(space, 2047), After(s1, before), ThreadSteps(before), e);
    }
  }

  lemma {:induction false} PlausibleKeeps(s: State, es: seq<Event>)
    requires Inv(s) && PlausibleRun(es)
    ensures Inv(After(s, es))
  {
    if es != [] {
      PlausibleKeeps(s, es[..|es| - 1]);
      StepKeeps(After(s, es[..|es| - 1]), es[|es| - 1]);
    }
  }

  lemma ReceptionOffIff(free: nat, replies: seq<Reply>)
    requires Plausible(replies)
    ensures var n := Stored(free, replies);
            DataLeft(free, replies) <==> n == free && (n == 0 || replies[n - 1].avail > 0)
  {}

  /** Conservation at the device: no valid character is read and then dropped, because the register
      is not read while the ring is full. Reception is turned off exactly if the ring is full then and the
      last answer announced more, or the register was not read at all. */
  lemma IsrLosesNothing(s: State, replies: seq<Reply>)
    requires Inv(s) && Plausible(replies)
    ensures var s' := IsrStep(s, replies); var n := Stored(s.ring.Free(), replies);
            && s'.ring.Contents() == s.ring.Contents() + Chars(replies[..n])
            && (n < |replies| ==> s'.ring.Free() == 0 || !replies[n].valid)
            && (s'.re <==> s.re && !(s'.ring.Free() == 0 && (n == 0 || replies[n - 1].avail > 0)))
  {
    ReceptionOffIff(s.ring.Free(), replies);
    PushAllAppends(s.ring, Chars(replies[..Stored(s.ring.Free(), replies)]));
  }

  /** Only alarms happen. */
  function Wait(s: State, active: seq<bool>): (s': State)
    requires Sane(s)
    ensures s' == s.(host := AfterAlarms(s.host, active)) && Sane(s')
  {
    if active == [] then s else Step(Wait(s, active[..|active| - 1]), Alarm(active[|active| - 1]))
  }

  /** The reader's next step leads nowhere. */
  predicate Stuck(t: State)
    requires Sane(t)
  {
    ThreadStep(t) == t
  }

  /** Its next three steps leave the wait and return. */
  predicate Leaves(t: State)
    requires Sane(t)
  {
    var u := ThreadStep(t);
    Sane(u) && (var v := ThreadStep(u); Sane(v) && v.pc.Leave? && ThreadStep(v) == Return(v))
  }

  predicate StuckAfter(s: State, active: seq<bool>)
    requires Sane(s)
  {
    Stuck(Wait(s, active))
  }

  predicate LeavesAfter(s: State, active: seq<bool>)
    requires Sane(s)
  {
    Leaves(Wait(s, active))
  }

  /** As long as the host is active now and then the reader goes on waiting: it is released exactly when the
      last `timeout` alarms have found no activity. */
  lemma BlockedReaderWaitsForHost(s: State, active: seq<bool>)
    requires Sane(s) && s.host <= LIMIT && s.timeout <= LIMIT && s.pc.Spin? && s.pc.inp == s.ring.inp
    ensures LeavesAfter(s, active) <==> SilentFor(s.host, active, s.timeout)
    ensures StuckAfter(s, active) <==> !SilentFor(s.host, active, s.timeout)
  {
    ReachedIffSilent(s.host, active, s.timeout);
  }

  /** A reader blocked on an empty ring that nothing fills is released by the alarm exactly if the
      timeout is in the counter's range; its next steps then return the error. */
  lemma BlockedReaderGivesUpIff(s: State)
    requires Sane(s) && s.host <= LIMIT && s.pc.Spin? && s.pc.inp == s.ring.inp
    ensures (exists active :: !StuckAfter(s, active)) <==> s.timeout <= LIMIT
    ensures forall active :: StuckAfter(s, active) || LeavesAfter(s, active)
  {
    forall active ensures StuckAfter(s, active) || LeavesAfter(s, active) {}
    AbsenceIsNoticedIff(s.host, s.timeout);
    if s.timeout <= LIMIT {
      var active :| AfterAlarms(s.host, active) >= s.timeout;
      assert !StuckAfter(s, active);
    } else {
      forall active ensures StuckAfter(s, active) {
        assert !(AfterAlarms(s.host, active) >= s.timeout);
      }
    }
  }
}
