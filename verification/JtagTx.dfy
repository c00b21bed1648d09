/** The transmit half of the JTAG UART driver as a state machine. One writer thread runs the
    statements of the write routine one shared-memory access at a time; between any two of them the
    interrupt routine or the host-activity alarm may run. Each copied byte is a step of its own. */
module JtagTx {
  import opened Words
  import opened Ring
  import opened JtagHost

  datatype Pc =
    | Idle                          // no call in progress
    | Fill                          // about to test for data left and read both indices
    | Copying(n: nat, k: nat, out: nat)  // `k` of `n` bytes copied; `out` is the index read earlier
    | Enable(out: nat)              // about to enter the critical section that enables WE
    | Check(out: nat)               // about to return or to wait
    | Spin(out: nat)                // waiting for the interrupt routine to move `tx_out`
    | Woken                         // about to look at the inactivity counter once more

  /** One finished call. `host` is the inactivity counter the call last looked at. */
  datatype Call = Call(data: seq<byte>, nonblock: bool, result: int, host: nat)

  datatype State = State(
    ring: Ring, we: bool, host: nat, timeout: nat,
    pc: Pc, data: seq<byte>, nonblock: bool, done: nat,
    dirty: bool,              // bytes were published since WE was last enabled
    sent: seq<byte>,          // everything written to the DATA register
    log: seq<Call>)

  datatype Event =
    | Begin(data: seq<byte>, nonblock: bool)  // a caller enters the write routine
    | Thread                                  // the writer performs its next access
    | Isr(space: nat)                         // the interrupt routine sees WI with this much FIFO space
    | Alarm(active: bool)                     // the alarm finds the host active or not

  function Boot(timeout: nat): State {
    State(EmptyRing(), false, 0, timeout, Idle, [], false, 0, false, [], [])
  }

  function ReturnCode(data: seq<byte>, nonblock: bool, done: nat): int {
    if done > 0 then done else if nonblock then -EWOULDBLOCK else -EIO
  }

  function Return(s: State): State {
    s.(pc := Idle, data := [], done := 0, nonblock := false,
       log := s.log + [Call(s.data, s.nonblock, ReturnCode(s.data, s.nonblock, s.done), s.host)])
  }

  /** The bytes the interrupt routine moves to the DATA register when it sees `space` free places. */
  function IsrCount(r: Ring, space: nat): (m: nat)
    requires r.Valid()
    ensures m <= space && m <= r.Count()
  {
    Min(space, r.Count())
  }

  function IsrStep(s: State, space: nat): State
    requires s.ring.Valid()
  {
    var m := IsrCount(s.ring, space);
    s.(ring := s.ring.Drop(m), sent := s.sent + s.ring.Oldest(m),
       we := s.we && m == space)
  }

  predicate Sane(s: State) {
    && |s.ring.buf| == BUF_LEN && s.ring.inp < BUF_LEN && s.ring.out < BUF_LEN
    && s.done <= |s.data|
    && (s.pc.Copying? ==> s.pc.k <= s.pc.n <= |s.data| - s.done && s.ring.inp + s.pc.n <= BUF_LEN)
  }

  function ThreadStep(s: State): State
    requires Sane(s)
  {
    match s.pc
    case Idle => s
    case Fill =>
      var left := |s.data| - s.done;
      var n := FreeRun(s.ring.inp, s.ring.out);
      if left == 0 then s.(pc := Enable(s.ring.out))
      else if n == 0 then s.(pc := Enable(s.ring.out))
      else s.(pc := Copying(Min(n, left), 0, s.ring.out))
    case Copying(n, k, out) =>
      if k < n then
        s.(ring := s.ring.Store(k, s.data[s.done + k]), pc := Copying(n, k + 1, out))
      else
        s.(ring := s.ring.Publish(n), done := s.done + n, dirty := true, pc := Fill)
    case Enable(out) => s.(we := true, dirty := false, pc := Check(out))
    case Check(out) =>
      if s.done == |s.data| || s.nonblock then Return(s) else s.(pc := Spin(out))
    case Spin(out) =>
      if out == s.ring.out && s.host < s.timeout then s else s.(pc := Woken)
    case Woken => if s.host > 0 then Return(s) else s.(pc := Fill)
  }

  function Step(s: State, e: Event): State
    requires Sane(s)
  {
    match e
    case Begin(data, nonblock) =>
      if s.pc.Idle? then s.(pc := Fill, data := data, nonblock := nonblock, done := 0) else s
    case Thread => ThreadStep(s)
    case Isr(space) => IsrStep(s, space)
    case Alarm(active) => s.(host := AfterAlarm(s.host, active))
  }

  /** What the finished calls put into the ring: the first `result` bytes of each, in call order. */
  function Accepted(log: seq<Call>): seq<byte> {
    if log == [] then []
    else
      var last := log[|log| - 1];
      Accepted(log[..|log| - 1]) + last.data[..Min(|last.data|, if last.result > 0 then last.result else 0)]
  }

  /** The answers the routine may give. */
  predicate Honest(c: Call) {
    && (1 <= c.result <= |c.data| || c.result == if c.nonblock then -11 else -5)
    && (c.result != |c.data| && c.data != [] && !c.nonblock ==> c.host > 0)
  }

  predicate AllHonest(log: seq<Call>) {
    log != [] ==> AllHonest(log[..|log| - 1]) && Honest(log[|log| - 1])
  }

  lemma {:induction false} EachIsHonest(log: seq<Call>)
    requires AllHonest(log)
    ensures forall i :: 0 <= i < |log| ==> Honest(log[i])
  {
    if log != [] {
      EachIsHonest(log[..|log| - 1]);
    }
  }

  /** Nothing is lost, repeated, reordered or overwritten. */
  ghost predicate Fifo(s: State)
    requires Sane(s)
  {
    s.sent + s.ring.Contents() == Accepted(s.log) + s.data[..s.done]
  }

  /** A non-empty ring has its interrupt enabled unless the writer is still on its way to do so. */
  ghost predicate Awake(s: State)
    requires Sane(s)
  {
    && (s.ring.Count() > 0 ==> s.we || s.dirty)
    && (s.dirty ==> s.pc.Fill? || s.pc.Copying? || s.pc.Enable?)
  }

  /** The writer's copy goes into cells that are free now, though it measured them with an index
      that the interrupt routine may have moved since. */
  ghost predicate CopySafe(s: State)
    requires Sane(s)
  {
    s.pc.Copying? ==>
      var p, r := s.pc, s.ring;
      && p.n <= r.Free()
      && r.buf[r.inp..r.inp + p.k] == s.data[s.done..s.done + p.k]
  }

  ghost predicate Inv(s: State) {
    && Sane(s) && Fifo(s) && Awake(s) && CopySafe(s) && s.host <= LIMIT
    && (s.pc.Idle? ==> s.data == [])
    && (s.pc.Woken? || s.pc.Spin? ==> s.done < |s.data| && !s.nonblock)
    && Control(s)
    && AllHonest(s.log)
  }

  /** A copy is of at least one byte, and a writer with data left goes for the wait only if the ring was full
      by the index it compares with. */
  ghost predicate Control(s: State)
    requires Sane(s)
  {
    match s.pc
    case Copying(n, _, _) => n > 0
    case Enable(out) => FoundFull(s, out)
    case Check(out) => FoundFull(s, out)
    case Spin(out) => FoundFull(s, out)
    case _ => true
  }

  predicate FoundFull(s: State, out: nat)
    requires Sane(s)
  {
    out < BUF_LEN && (s.done < |s.data| ==> FreeRun(s.ring.inp, out) == 0)
  }

  lemma AcceptedSnoc(log: seq<Call>, c: Call)
    ensures Accepted(log + [c])
         == Accepted(log) + c.data[..Min(|c.data|, if c.result > 0 then c.result else 0)]
  {
    assert (log + [c])[..|log|] == log;
  }

  /** The call that ends adds what it published to what was accepted, and answers honestly. */
  lemma LastCall(s: State)
    requires s.done <= |s.data| && (s.done == |s.data| || s.nonblock || s.host > 0)
    ensures var log := Return(s).log;
            Accepted(log) == Accepted(s.log) + s.data[..s.done] && (AllHonest(s.log) ==> AllHonest(log))
  {
    var c := Call(s.data, s.nonblock, ReturnCode(s.data, s.nonblock, s.done), s.host);
    AcceptedSnoc(s.log, c);
    assert (s.log + [c])[..|s.log|] == s.log;
    assert s.data[..Min(|s.data|, if c.result > 0 then c.result else 0)] == s.data[..s.done];
  }

  lemma ReturnKeeps(s: State)
    requires Inv(s) && !s.pc.Idle? && !s.dirty
    requires s.done == |s.data| || s.nonblock || s.host > 0
    ensures Inv(Return(s))
  {
    LastCall(s);
    assert Return(s).data[..0] == [];
  }

  lemma CopiedOneMore(buf: seq<byte>, inp: nat, data: seq<byte>, done: nat, k: nat)
    requires inp + k < |buf| && done + k < |data| && buf[inp..inp + k] == data[done..done + k]
    ensures buf[inp + k := data[done + k]][inp..inp + k + 1] == data[done..done + k + 1]
  {
    assert data[done..done + k + 1] == data[done..done + k] + [data[done + k]];
    assert buf[inp + k := data[done + k]][inp..inp + k + 1] == buf[inp..inp + k] + [data[done + k]];
  }

  lemma CopyStores(s: State)
    requires Sane(s) && s.pc.Copying? && s.pc.k < s.pc.n <= s.ring.Free()
    ensures var s' := ThreadStep(s);
            && s' == s.(ring := s.ring.(buf := s'.ring.buf), pc := s.pc.(k := s.pc.k + 1))
            && Sane(s') && s'.ring.Contents() == s.ring.Contents()
            && s'.ring.buf == s.ring.buf[s.ring.inp + s.pc.k := s.data[s.done + s.pc.k]]
  {
    FreeCellIsNotQueued(s.ring, s.pc.k);
    OnlyQueuedCellsMatter(s.ring, ThreadStep(s).ring.buf);
  }

  lemma CopyKeeps(s: State)
    requires Inv(s) && s.pc.Copying? && s.pc.k < s.pc.n
    ensures Inv(ThreadStep(s))
  {
    CopyStores(s);
    CopiedOneMore(s.ring.buf, s.ring.inp, s.data, s.done, s.pc.k);
  }

  lemma BothGrow(sent: seq<byte>, queued: seq<byte>, accepted: seq<byte>, begun: seq<byte>, chunk: seq<byte>)
    requires sent + queued == accepted + begun
    ensures sent + (queued + chunk) == accepted + (begun + chunk)
  {
    Regroup(sent, queued, chunk);
    Regroup(accepted, begun, chunk);
  }

  lemma PublishMoves(s: State)
    requires Sane(s) && s.pc.Copying? && s.pc.k == s.pc.n <= s.ring.Free() && Fifo(s)
    requires s.ring.buf[s.ring.inp..s.ring.inp + s.pc.n] == s.data[s.done..s.done + s.pc.n]
    ensures Sane(ThreadStep(s)) && Fifo(ThreadStep(s))
  {
    var n := s.pc.n;
    var chunk := s.data[s.done..s.done + n];
    PublishAppends(s.ring, n);
    BothGrow(s.sent, s.ring.Contents(), Accepted(s.log), s.data[..s.done], chunk);
    assert s.data[..s.done + n] == s.data[..s.done] + chunk;
  }

  lemma PublishKeeps(s: State)
    requires Inv(s) && s.pc.Copying? && s.pc.k == s.pc.n
    ensures Inv(ThreadStep(s))
  {
    PublishMoves(s);
  }

  lemma ThreadKeeps(s: State)
    requires Inv(s)
    ensures Inv(ThreadStep(s))
  {
    match s.pc
    case Copying(n, k, out) =>
      if k < n { CopyKeeps(s); } else { PublishKeeps(s); }
    case Fill => FreeRunFits(s.ring);
    case Check(out) =>
      if s.done == |s.data| || s.nonblock { ReturnKeeps(s); }
    case Woken =>
      if s.host > 0 { ReturnKeeps(s); }
    case _ =>
  }

  lemma IsrMoves(s: State, space: nat)
    requires Sane(s)
    ensures var s' := IsrStep(s, space);
            && Sane(s') && s'.sent + s'.ring.Contents() == s.sent + s.ring.Contents()
            && s'.ring.Count() <= s.ring.Count() && (s'.ring.Count() > 0 && s.we ==> s'.we)
            && s' == s.(ring := s.ring.(out := s'.ring.out), sent := s'.sent, we := s'.we)
  {
    var m := IsrCount(s.ring, space);
    DropTakesPrefix(s.ring, m);
    OldestIsPrefix(s.ring, m);
    TakeThenRest(s.sent, s.ring.Contents(), m);
  }

  lemma IsrKeeps(s: State, space: nat)
    requires Inv(s)
    ensures Inv(IsrStep(s, space))
  {
    IsrMoves(s, space);
  }

  lemma StepKeeps(s: State, e: Event)
    requires Inv(s)
    ensures Inv(Step(s, e))
  {
    match e
    case Begin(data, nonblock) =>
      if s.pc.Idle? { assert data[..0] == s.data[..s.done]; }
    case Thread => ThreadKeeps(s);
    case Isr(space) => IsrKeeps(s, space);
    case Alarm(active) =>
  }

  ghost function Run(timeout: nat, es: seq<Event>): (s: State)
    ensures Inv(s)
  {
    if es == [] then
      assert EmptyRing().Contents() == [];
      Boot(timeout)
    else
      var before := Run(timeout, es[..|es| - 1]);
      StepKeeps(before, es[|es| - 1]);
      Step(before, es[|es| - 1])
  }

  /** For every interleaving: what reached the DATA register, followed by the ring, is exactly what
      the finished calls reported as written plus the part of the running call already published. */
  lemma {:induction false} TransmitIsFifo(timeout: nat, es: seq<Event>)
    ensures var s := Run(timeout, es);
            && s.sent + s.ring.Contents() == Accepted(s.log) + s.data[..s.done]
            && forall i :: 0 <= i < |s.log| ==> Honest(s.log[i])
  {
    var s := Run(timeout, es);
    EachIsHonest(s.log);
  }

  /** Between calls, what was sent is a prefix of what was accepted. */
  lemma SentWasAccepted(s: State)
    requires Inv(s) && s.pc.Idle?
    ensures s.sent <= Accepted(s.log)
  {
    assert s.data[..s.done] == [] && Accepted(s.log) == s.sent + s.ring.Contents();
  }

  function SpaceIn(spaces: seq<nat>): nat {
    if spaces == [] then 0 else spaces[0] + SpaceIn(spaces[1..])
  }

  /** Interrupt rounds that find this much FIFO space, one after the other. There is a round only while the
      transmit interrupt is enabled. */
  ghost function IsrRuns(s: State, spaces: seq<nat>): (s': State)
    requires Sane(s)
    ensures Sane(s')
    decreases |spaces|
  {
    if spaces == [] || !s.we then s
    else
      IsrMoves(s, spaces[0]);
      IsrRuns(IsrStep(s, spaces[0]), spaces[1..])
  }

  lemma {:induction false} IsrRunsDrain(s: State, spaces: seq<nat>)
    requires Sane(s)
    ensures var s', n := IsrRuns(s, spaces), s.ring.Count();
            && s'.ring.Count() == (if !s.we then n else if SpaceIn(spaces) >= n then 0 else n - SpaceIn(spaces))
            && s'.sent + s'.ring.Contents() == s.sent + s.ring.Contents()
    decreases |spaces|
  {
    if spaces != [] && s.we {
      IsrMoves(s, spaces[0]);
      DropTakesPrefix(s.ring, IsrCount(s.ring, spaces[0]));
      IsrRunsDrain(IsrStep(s, spaces[0]), spaces[1..]);
    }
  }

  /** With enough space in total everything in the ring is sent, exactly if the interrupt is enabled or
      there is nothing to send. */
  lemma DrainedSentAllIff(s: State, spaces: seq<nat>)
    requires Sane(s) && SpaceIn(spaces) >= s.ring.Count()
    ensures IsrRuns(s, spaces).sent == s.sent + s.ring.Contents() <==> s.we || s.ring.Count() == 0
  {
    IsrRunsDrain(s, spaces);
    var s' := IsrRuns(s, spaces);
    if s.we || s.ring.Count() == 0 {
      assert s'.ring.Contents() == [] && s'.sent + [] == s'.sent;
    } else {
      assert |s'.sent| + s'.ring.Count() == |s.sent| + s.ring.Count();
    }
  }

  /** The interrupt is turned off exactly by a round that finds more space than there is to send. So it goes quiet
      once the ring has been drained with space to spare, and not before. */
  lemma {:induction false} GoesQuietIff(s: State, spaces: seq<nat>)
    requires Sane(s)
    ensures IsrRuns(s, spaces).we <==> s.we && SpaceIn(spaces) <= s.ring.Count()
    decreases |spaces|
  {
    if spaces != [] && s.we {
      IsrMoves(s, spaces[0]);
      DropTakesPrefix(s.ring, IsrCount(s.ring, spaces[0]));
      GoesQuietIff(IsrStep(s, spaces[0]), spaces[1..]);
    }
  }

  /** No lost wake-up. Whenever the writer is out of the routine, or waits inside it, unsent bytes mean an
      enabled interrupt, so that the rounds it causes, once they find enough FIFO space in total, send
      every byte the finished calls and the running one published. In every state they do so exactly if
      the interrupt is enabled or nothing is unsent. */
  lemma {:induction false} NoLostWakeUp(timeout: nat, es: seq<Event>, spaces: seq<nat>)
    ensures var s := Run(timeout, es);
            && (s.pc.Idle? || s.pc.Check? || s.pc.Spin? || s.pc.Woken? ==>
                  && (s.ring.Count() > 0 ==> s.we)
                  && (SpaceIn(spaces) >= s.ring.Count() ==>
                        IsrRuns(s, spaces).sent == Accepted(s.log) + s.data[..s.done]))
            && (SpaceIn(spaces) >= s.ring.Count() ==>
                  (IsrRuns(s, spaces).sent == Accepted(s.log) + s.data[..s.done] <==> s.we || s.ring.Count() == 0))
  {
    var s := Run(timeout, es);
    if SpaceIn(spaces) >= s.ring.Count() {
      DrainedSentAllIff(s, spaces);
    }
  }

  /** A stale consumer index only makes the writer cautious: after any interrupt run in the middle of
      a copy, the cells still to be written are free and the bytes already copied are intact. */
  lemma StaleIndexIsSafe(s: State, space: nat)
    requires Inv(s) && s.pc.Copying?
    ensures var s' := IsrStep(s, space);
            && s'.pc == s.pc && s'.ring.Valid()
            && (forall i :: s.ring.inp <= i < s.ring.inp + s.pc.n ==> !Queued(s'.ring, i))
            && s'.ring.buf[s.ring.inp..s.ring.inp + s.pc.k] == s.data[s.done..s.done + s.pc.k]
  {
    IsrKeeps(s, space);
  }

  // ----- the writer goes on

  /** The call that began when `log` was the list of finished calls is under way, and the ring has room for the
      bytes up to number `goal`. */
  ghost predicate Towards(s: State, log: seq<Call>, goal: nat)
    requires Sane(s)
  {
    && s.log == log && !s.pc.Idle? && 0 < goal <= |s.data| && goal - s.done <= s.ring.Free()
    && (s.done < goal || goal == |s.data|)
    && (s.nonblock && (s.pc.Enable? || s.pc.Check?) ==> goal <= s.done)
  }

  /** It has published that many bytes, or has returned that many, or returned after a look at the counter
      that found the host inactive. */
  predicate Arrived(s: State, log: seq<Call>, goal: nat) {
    || (s.log == log && !s.pc.Idle? && goal <= s.done && goal < |s.data|)
    || (log < s.log && (goal <= s.log[|log|].result || (!s.log[|log|].nonblock && s.log[|log|].host > 0)))
  }

  /** A bound on the writer's own steps that are left before that. */
  function StepsLeft(s: State): nat
    requires Sane(s)
  {
    var left := |s.data| - s.done;
    match s.pc
    case Idle => 0
    case Fill => 3 * left + 3
    case Copying(n, k, _) => n - k + 4 + 3 * (left - n)
    case Enable(_) => if left == 0 || s.nonblock then 2 else 3 * left + 7
    case Check(_) => if left == 0 || s.nonblock then 1 else 3 * left + 6
    case Spin(_) => 3 * left + 5
    case Woken => 3 * left + 4
  }

  lemma StepsStayPositive(s: State, log: seq<Call>, goal: nat)
    requires Sane(s)
    ensures Towards(s, log, goal) ==> StepsLeft(s) > 0
  {}

  /** In the wait with room in the ring, the index has moved. */
  lemma RoomMeansMoved(s: State, out: nat)
    requires Sane(s) && out < BUF_LEN && FreeRun(s.ring.inp, out) == 0 && s.ring.Free() > 0
    ensures out != s.ring.out
  {
    FreeRunFits(s.ring);
  }

  lemma CopyingStep(s: State, log: seq<Call>, goal: nat)
    requires Inv(s) && Towards(s, log, goal) && s.pc.Copying?
    ensures var s' := ThreadStep(s);
            && Sane(s') && (Towards(s', log, goal) || Arrived(s', log, goal))
            && StepsLeft(s') < StepsLeft(s)
  {
    ThreadKeeps(s);
    if s.pc.k == s.pc.n {
      PublishAppends(s.ring, s.pc.n);
    }
  }

  lemma TowardsStep(s: State, log: seq<Call>, goal: nat)
    requires Inv(s) && Towards(s, log, goal)
    ensures var s' := ThreadStep(s);
            && Sane(s') && (Towards(s', log, goal) || Arrived(s', log, goal))
            && (Towards(s', log, goal) ==> StepsLeft(s') < StepsLeft(s))
  {
    if s.pc.Copying? {
      CopyingStep(s, log, goal);
    } else {
      TowardsOther(s, log, goal);
    }
  }

  lemma TowardsOther(s: State, log: seq<Call>, goal: nat)
    requires Sane(s) && Control(s) && (s.pc.Woken? || s.pc.Spin? ==> s.done < |s.data| && !s.nonblock)
    requires Towards(s, log, goal) && !s.pc.Copying?
    ensures var s' := ThreadStep(s);
            && Sane(s') && (Towards(s', log, goal) || Arrived(s', log, goal))
            && (Towards(s', log, goal) ==> StepsLeft(s') < StepsLeft(s))
  {
    match s.pc
    case Fill => FreeRunFits(s.ring);
    case Check(_) => if s.done == |s.data| || s.nonblock { ReturnArrives(s, log, goal); }
    case Spin(out) => RoomMeansMoved(s, out);
    case Woken => if s.host > 0 { ReturnArrives(s, log, goal); }
    case _ =>
  }

  lemma ReturnArrives(s: State, log: seq<Call>, goal: nat)
    requires s.log == log && 0 < goal && (goal <= s.done || (!s.nonblock && s.host > 0))
    ensures Arrived(Return(s), log, goal)
  {}

  lemma ArrivedStep(s: State, e: Event, log: seq<Call>, goal: nat)
    requires Inv(s) && Arrived(s, log, goal) && goal > 0
    ensures Arrived(Step(s, e), log, goal)
  {}

  function ThreadSteps(es: seq<Event>): nat {
    if es == [] then 0 else ThreadSteps(es[..|es| - 1]) + if es[|es| - 1].Thread? then 1 else 0
  }

  /** Further events. */
  ghost function After(s: State, es: seq<Event>): (s': State)
    requires Inv(s)
    ensures Inv(s')
  {
    if es == [] then s
    else
      var before := After(s, es[..|es| - 1]);
      StepKeeps(before, es[|es| - 1]);
      Step(before, es[|es| - 1])
  }

  /** It has arrived, or is under way with at most this many steps to go. */
  ghost predicate GoesOn(s: State, log: seq<Call>, goal: nat, steps: int)
    requires Sane(s)
  {
    Arrived(s, log, goal) || (Towards(s, log, goal) && StepsLeft(s) <= steps)
  }

  lemma TowardsEvent(s: State, e: Event, log: seq<Call>, goal: nat)
    requires Inv(s) && Towards(s, log, goal) && !e.Thread?
    ensures var s' := Step(s, e); Sane(s') && Towards(s', log, goal) && StepsLeft(s') == StepsLeft(s)
  {
    if e.Isr? {
      IsrMoves(s, e.space);
    }
  }

  lemma GoesOnStep(s: State, e: Event, log: seq<Call>, goal: nat, steps: int)
    requires Inv(s) && goal > 0 && GoesOn(s, log, goal, steps)
    ensures Sane(Step(s, e)) && GoesOn(Step(s, e), log, goal, steps - if e.Thread? then 1 else 0)
  {
    if Arrived(s, log, goal) {
      StepKeeps(s, e);
      ArrivedStep(s, e, log, goal);
    } else if e.Thread? {
      TowardsStep(s, log, goal);
    } else {
      TowardsEvent(s, e, log, goal);
    }
  }

  /** From any point at which the ring has room up to `goal`, whatever comes in between: that many bytes are
      published or returned within the steps that are left, unless the call finds the host inactive. */
  lemma {:induction false} WriterGoesOn(s: State, goal: nat, es: seq<Event>)
    requires Inv(s) && Towards(s, s.log, goal)
    ensures GoesOn(After(s, es), s.log, goal, StepsLeft(s) - ThreadSteps(es))
    ensures ThreadSteps(es) >= StepsLeft(s) ==> Arrived(After(s, es), s.log, goal)
  {
    if es != [] {
      var before, e := es[..|es| - 1], es[|es| - 1];
      WriterGoesOn(s, goal, before);
      GoesOnStep(After(s, before), e, s.log, goal, StepsLeft(s) - ThreadSteps(before));
    }
    StepsStayPositive(After(s, es), s.log, goal);
  }

  /** A writer that waits does not overlook the room an interrupt round has made: waiting with free cells, it has
      published or returned as many more bytes as fit after 3 * (bytes left) + 5 of its steps, unless it
      returns because the host was inactive. */
  lemma WaitingWriterGoesOn(s: State, es: seq<Event>)
    requires Inv(s) && (s.pc.Spin? || s.pc.Woken?) && s.ring.Free() > 0
    ensures var goal, t := s.done + Min(|s.data| - s.done, s.ring.Free()), After(s, es);
            ThreadSteps(es) >= 3 * (|s.data| - s.done) + 5 ==>
              || (t.log == s.log && t.done >= goal > s.done)
              || (|t.log| > |s.log| && t.log[..|s.log|] == s.log
                  && (t.log[|s.log|].result >= goal > s.done || t.log[|s.log|].host > 0))
  {
    WriterGoesOn(s, s.done + Min(|s.data| - s.done, s.ring.Free()), es);
  }

  /** The call is filling the ring up to `goal` bytes and has no reason to wait. */
  ghost predicate Filling(s: State, log: seq<Call>, data: seq<byte>, nonblock: bool, goal: nat)
    requires Sane(s)
  {
    && s.log == log && !s.pc.Idle? && s.data == data && s.nonblock == nonblock
    && goal <= |data| && goal - s.done <= s.ring.Free() && (nonblock || goal == |data|)
    && (s.pc.Fill? || s.pc.Copying? || goal <= s.done)
  }

  /** It has returned that many bytes, or an error if there was no room for any. */
  predicate Filled(s: State, log: seq<Call>, data: seq<byte>, nonblock: bool, goal: nat) {
    && log < s.log
    && s.log[|log|].data == data && s.log[|log|].nonblock == nonblock
    && (goal > 0 ==> goal <= s.log[|log|].result)
  }

  lemma FillingThread(s: State, log: seq<Call>, data: seq<byte>, nonblock: bool, goal: nat)
    requires Inv(s) && Filling(s, log, data, nonblock, goal)
    ensures var s' := ThreadStep(s);
            && Sane(s')
            && (|| Filled(s', log, data, nonblock, goal)
                || (Filling(s', log, data, nonblock, goal) && 0 < StepsLeft(s') < StepsLeft(s)))
  {
    if s.pc.Copying? {
      FillingCopy(s, log, data, nonblock, goal);
    } else {
      ThreadKeeps(s);
      FreeRunFits(s.ring);
    }
  }

  lemma FillingCopy(s: State, log: seq<Call>, data: seq<byte>, nonblock: bool, goal: nat)
    requires Inv(s) && Filling(s, log, data, nonblock, goal) && s.pc.Copying?
    ensures var s' := ThreadStep(s);
            Sane(s') && Filling(s', log, data, nonblock, goal) && 0 < StepsLeft(s') < StepsLeft(s)
  {
    ThreadKeeps(s);
    if s.pc.k == s.pc.n {
      PublishAppends(s.ring, s.pc.n);
    }
  }

  lemma FillingStep(s: State, e: Event, log: seq<Call>, data: seq<byte>, nonblock: bool, goal: nat)
    requires Inv(s) && Filling(s, log, data, nonblock, goal)
    ensures var s' := Step(s, e);
            && Sane(s')
            && (|| Filled(s', log, data, nonblock, goal)
                || (Filling(s', log, data, nonblock, goal)
                    && 0 < StepsLeft(s') && StepsLeft(s') + (if e.Thread? then 1 else 0) <= StepsLeft(s)))
  {
    if e.Thread? {
      FillingThread(s, log, data, nonblock, goal);
    } else {
      FillingEvent(s, e, log, data, nonblock, goal);
    }
  }

  lemma FillingEvent(s: State, e: Event, log: seq<Call>, data: seq<byte>, nonblock: bool, goal: nat)
    requires Inv(s) && Filling(s, log, data, nonblock, goal) && !e.Thread?
    ensures var s' := Step(s, e);
            Sane(s') && Filling(s', log, data, nonblock, goal) && 0 < StepsLeft(s') == StepsLeft(s)
  {
    if e.Isr? {
      IsrMoves(s, e.space);
    }
  }

  lemma FilledStep(s: State, e: Event, log: seq<Call>, data: seq<byte>, nonblock: bool, goal: nat)
    requires Inv(s) && Filled(s, log, data, nonblock, goal)
    ensures Filled(Step(s, e), log, data, nonblock, goal)
  {}

  lemma {:induction false} CallFills(s: State, data: seq<byte>, nonblock: bool, goal: nat, es: seq<Event>)
    requires Inv(s) && Filling(s, s.log, data, nonblock, goal)
    ensures var t := After(s, es);
            || Filled(t, s.log, data, nonblock, goal)
            || (Filling(t, s.log, data, nonblock, goal)
                && (es != [] ==> 0 < StepsLeft(t)) && StepsLeft(t) + ThreadSteps(es) <= StepsLeft(s))
  {
    if es != [] {
      var before, e := es[..|es| - 1], es[|es| - 1];
      CallFills(s, data, nonblock, goal, before);
      var u := After(s, before);
      if Filled(u, s.log, data, nonblock, goal) {
        FilledStep(u, e, s.log, data, nonblock, goal);
      } else {
        FillingStep(u, e, s.log, data, nonblock, goal);
      }
    }
  }

  /** A call that is non-blocking, or whose data fit into the ring, has returned after 3 * |data| + 3 of its
      steps, whatever comes in between and whether or not there is a host, and has accepted at least as much
      as fitted when it began. */
  lemma CallTakesWhatFits(s: State, data: seq<byte>, nonblock: bool, es: seq<Event>)
    requires Inv(s) && s.pc.Idle? && (nonblock || |data| <= s.ring.Free())
    ensures Inv(Step(s, Begin(data, nonblock)))
    ensures ThreadSteps(es) >= 3 * |data| + 3 ==>
              var t, fits := After(Step(s, Begin(data, nonblock)), es), Min(|data|, s.ring.Free());
              && |t.log| > |s.log| && t.log[..|s.log|] == s.log
              && t.log[|s.log|].data == data && t.log[|s.log|].nonblock == nonblock
              && (fits > 0 ==> fits <= t.log[|s.log|].result)
  {
    StepKeeps(s, Begin(data, nonblock));
    CallFills(Step(s, Begin(data, nonblock)), data, nonblock, Min(|data|, s.ring.Free()), es);
  }

  /** Only alarms happen. */
  function Wait(s: State, active: seq<bool>): (s': State)
    requires Sane(s)
    ensures s' == s.(host := AfterAlarms(s.host, active)) && Sane(s')
  {
    if active == [] then s else Step(Wait(s, active[..|active| - 1]), Alarm(active[|active| - 1]))
  }

  /** The writer's next step leads nowhere. */
  predicate Stuck(t: State)
    requires Sane(t)
  {
    ThreadStep(t) == t
  }

  /** Its next two steps leave the wait and return. */
  predicate Leaves(t: State)
    requires Sane(t)
  {
    var u := ThreadStep(t);
    Sane(u) && ThreadStep(u) == Return(u)
  }

  predicate StuckAfter(s: State, active: seq<bool>)
    requires Sane(s)
  {
    Stuck(Wait(s, active))
  }

  predicate LeavesAfter(s: State, active: seq<bool>)
    requires Sane(s)
  {
    Leaves(Wait(s, active))
  }

  /** As long as the host is active now and then the writer goes on waiting: it is released exactly when the
      last `timeout` alarms have found no activity. */
  lemma BlockedWriterWaitsForHost(s: State, active: seq<bool>)
    requires Sane(s) && s.host <= LIMIT && 0 < s.timeout <= LIMIT && s.pc.Spin? && s.pc.out == s.ring.out
    ensures LeavesAfter(s, active) <==> SilentFor(s.host, active, s.timeout)
    ensures StuckAfter(s, active) <==> !SilentFor(s.host, active, s.timeout)
  {
    ReachedIffSilent(s.host, active, s.timeout);
  }

  /** A woken writer gives up exactly if the counter it then looks at is not zero; otherwise it tries again. */
  lemma WokenGivesUpIff(s: State)
    requires Sane(s) && s.pc.Spin? && (s.pc.out != s.ring.out || s.host >= s.timeout)
    ensures var t := ThreadStep(s);
            && Sane(t) && t.ring == s.ring && t.log == s.log
            && (ThreadStep(t).log != s.log <==> s.host > 0) && (ThreadStep(t).pc.Fill? <==> s.host == 0)
  {}

  /** A writer blocked on a full ring that nothing drains is released by the alarm exactly if the
      timeout is in the counter's range; it then returns at once. */
  lemma BlockedWriterGivesUpIff(s: State)
    requires Sane(s) && s.host <= LIMIT && s.pc.Spin? && s.pc.out == s.ring.out && s.timeout > 0
    ensures (exists active :: !StuckAfter(s, active)) <==> s.timeout <= LIMIT
    ensures forall active :: StuckAfter(s, active) || LeavesAfter(s, active)
  {
    forall active ensures StuckAfter(s, active) || LeavesAfter(s, active) {}
    AbsenceIsNoticedIff(s.host, s.timeout);
    if s.timeout <= LIMIT {
      var active :| AfterAlarms(s.host, active) >= s.timeout;
      assert !StuckAfter(s, active);
    } else {
      forall active ensures StuckAfter(s, active) {
        assert !(AfterAlarms(s.host, active) >= s.timeout);
      }
    }
  }
}
