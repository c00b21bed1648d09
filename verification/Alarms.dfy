/** The tick counter and the alarm list of the HAL: a 32-bit counter that wraps, alarms with a 32-bit
    time and one rollover flag. They are proved to implement a schedule on an unbounded clock. */
module Alarms {
  import opened Words

  datatype Alarm = Alarm(id: nat, time: u32, rollover: bool)

  /** What the callbacks of one tick return, by alarm; zero (also the default) deactivates. */
  type Returns = map<nat, u32>

  function ReturnOf(ret: Returns, id: nat): u32 {
    if id in ret then ret[id] else 0
  }

  // ----- the driver's view

  /** The rollover flag after the check at the top of the loop body. */
  function Cleared(a: Alarm, nticks: u32): Alarm {
    if a.rollover && nticks == 0 then a.(rollover := false) else a
  }

  predicate Expired(a: Alarm, nticks: u32) {
    a.time <= nticks && !a.rollover
  }

  function Rearmed(a: Alarm, nticks: u32, period: u32): Alarm {
    var t: u32 := (a.time + period) % U32;
    Alarm(a.id, t, if t < nticks then true else a.rollover)
  }

  /** The alarm list after one tick, in list order. */
  function Serve(alarms: seq<Alarm>, nticks: u32, ret: Returns): seq<Alarm> {
    if alarms == [] then []
    else
      ServeOne(alarms[0], nticks, ret) + Serve(alarms[1..], nticks, ret)
  }

  function ServeOne(a: Alarm, nticks: u32, ret: Returns): seq<Alarm> {
    var c := Cleared(a, nticks);
    if !Expired(c, nticks) then [c]
    else if ReturnOf(ret, c.id) == 0 then []
    else [Rearmed(c, nticks, ReturnOf(ret, c.id))]
  }

  /** The callbacks made, in order. */
  function Fired(alarms: seq<Alarm>, nticks: u32): seq<nat> {
    if alarms == [] then []
    else (if Expired(Cleared(alarms[0], nticks), nticks) then [alarms[0].id] else [])
         + Fired(alarms[1..], nticks)
  }

  function NewAlarm(id: nat, nticks: u32, period: u32): Alarm {
    var t: u32 := (period + nticks + 1) % U32;
    Alarm(id, t, t < nticks)
  }

  function Without(alarms: seq<Alarm>, id: nat): seq<Alarm> {
    if alarms == [] then []
    else if alarms[0].id == id then alarms[1..]
    else [alarms[0]] + Without(alarms[1..], id)
  }

  /** With `done` walked over and `fired` called, `rest` is still to be served. */
  predicate Walked(all: seq<Alarm>, done: seq<Alarm>, fired: seq<nat>, rest: seq<Alarm>, nticks: u32, ret: Returns) {
    done + Serve(rest, nticks, ret) == Serve(all, nticks, ret) && fired + Fired(rest, nticks) == Fired(all, nticks)
  }

  lemma WalkOn(all: seq<Alarm>, done: seq<Alarm>, fired: seq<nat>, rest: seq<Alarm>, nticks: u32, ret: Returns)
    requires rest != [] && Walked(all, done, fired, rest, nticks, ret)
    ensures var now := if Expired(Cleared(rest[0], nticks), nticks) then [rest[0].id] else [];
            Walked(all, done + ServeOne(rest[0], nticks, ret), fired + now, rest[1..], nticks, ret)
  {
    var now := if Expired(Cleared(rest[0], nticks), nticks) then [rest[0].id] else [];
    Regroup(done, ServeOne(rest[0], nticks, ret), Serve(rest[1..], nticks, ret));
    Regroup(fired, now, Fired(rest[1..], nticks));
  }

  const EINVAL: int := 22
  const ENOTSUP: int := 134

  class AlarmClock {
    var tickRate: u32
    var nticks: u32
    var alarms: seq<Alarm>

    constructor (tickRate: u32)
      ensures this.tickRate == tickRate && nticks == 0 && alarms == []
    {
      this.tickRate, nticks, alarms := tickRate, 0, [];
    }

    /** `present` tells whether the caller passed an alarm structure at all. */
    method Start(present: bool, id: nat, period: u32) returns (rc: int)
      modifies this`alarms
      ensures tickRate == 0 ==> rc == -134 && alarms == old(alarms)
      ensures tickRate != 0 && !present ==> rc == -22 && alarms == old(alarms)
      ensures tickRate != 0 && present ==> rc == 0 && alarms == [NewAlarm(id, nticks, period)] + old(alarms)
    {
      if tickRate == 0 {
        return -ENOTSUP;
      }
      if !present {
        return -EINVAL;
      }
      var time: u32 := (period + nticks + 1) % U32;
      var rollover := time < nticks;
      alarms := [Alarm(id, time, rollover)] + alarms;
      rc := 0;
    }

    method Stop(id: nat)
      modifies this`alarms
      ensures alarms == Without(old(alarms), id)
    {
      var i := 0;
      while i < |alarms| && alarms[i].id != id
        invariant i <= |alarms| && alarms == old(alarms)
        invariant Without(alarms, id) == alarms[..i] + Without(alarms[i..], id)
      {
        assert alarms[i..][1..] == alarms[i + 1..];
        Regroup(alarms[..i], [alarms[i]], Without(alarms[i + 1..], id));
        assert alarms[..i + 1] == alarms[..i] + [alarms[i]];
        i := i + 1;
      }
      if i < |alarms| {
        assert alarms[i..][1..] == alarms[i + 1..];
        alarms := alarms[..i] + alarms[i + 1..];
      } else {
        assert alarms[..i] + [] == alarms;
      }
    }

    /** The loop body: the alarm at position `i` may expire, leave the list, or move its time. */
    method ServeAt(i: nat, ghost done: seq<Alarm>, ghost rest: seq<Alarm>, ret: Returns)
      returns (expired: bool, removed: bool)
      requires i == |done| && rest != [] && alarms == done + rest
      modifies this`alarms
      ensures expired == Expired(Cleared(rest[0], nticks), nticks)
      ensures removed == (ServeOne(rest[0], nticks, ret) == [])
      ensures alarms == done + ServeOne(rest[0], nticks, ret) + rest[1..]
    {
      assert alarms[..i] == done && alarms[i + 1..] == rest[1..];
      var a := Cleared(alarms[i], nticks);
      expired, removed := Expired(a, nticks), false;
      if expired {
        var next := ReturnOf(ret, a.id);
        if next == 0 {
          removed := true;
          alarms := alarms[..i] + alarms[i + 1..];
          return;
        }
        a := Rearmed(a, nticks, next);
      }
      alarms := alarms[..i] + [a] + alarms[i + 1..];
    }

    /** One turn of the loop over the list; `done` is walked over and `rest` still to be served. */
    method Visit(i: nat, ghost all: seq<Alarm>, ghost done: seq<Alarm>, ghost rest: seq<Alarm>,
                 fired: seq<nat>, ret: Returns)
      returns (i': nat, ghost done': seq<Alarm>, fired': seq<nat>)
      requires i == |done| && rest != [] && alarms == done + rest && Walked(all, done, fired, rest, nticks, ret)
      modifies this`alarms
      ensures i' == |done'| && alarms == done' + rest[1..] && Walked(all, done', fired', rest[1..], nticks, ret)
    {
      WalkOn(all, done, fired, rest, nticks, ret);
      var id := alarms[i].id;
      var expired, removed := ServeAt(i, done, rest, ret);
      done' := done + ServeOne(rest[0], nticks, ret);
      fired' := if expired then fired + [id] else fired;
      i' := if removed then i else i + 1;
      assert fired + [] == fired;
    }

    /** One clock tick. The loop walks the list while expired alarms leave it or move their time. */
    method Tick(ret: Returns) returns (fired: seq<nat>)
      modifies this`nticks, this`alarms
      ensures nticks == (old(nticks) + 1) % U32
      ensures alarms == Serve(old(alarms), nticks, ret)
      ensures fired == Fired(old(alarms), nticks)
    {
      nticks := (nticks + 1) % U32;
      fired := [];
      var i := 0;
      ghost var done: seq<Alarm>, rest := [], alarms;
      while i < |alarms|
        invariant alarms == done + rest && |done| == i
        invariant nticks == (old(nticks) + 1) % U32
        invariant Walked(old(alarms), done, fired, rest, nticks, ret)
        decreases |rest|
      {
        i, done, fired := Visit(i, old(alarms), done, rest, fired, ret);
        rest := rest[1..];
      }
      assert rest == [];
    }
  }

  // ----- the schedule on an unbounded clock

  /** An alarm and the tick at which it is due. */
  datatype Due = Due(id: nat, at: nat)

  function ServeDue(dues: seq<Due>, now: nat, ret: Returns): seq<Due> {
    if dues == [] then []
    else ServeOneDue(dues[0], now, ret) + ServeDue(dues[1..], now, ret)
  }

  function ServeOneDue(d: Due, now: nat, ret: Returns): seq<Due> {
    if d.at != now then [d]
    else if ReturnOf(ret, d.id) == 0 then []
    else [Due(d.id, now + ReturnOf(ret, d.id))]
  }

  function FiredDue(dues: seq<Due>, now: nat): seq<nat> {
    if dues == [] then []
    else (if dues[0].at == now then [dues[0].id] else []) + FiredDue(dues[1..], now)
  }

  function WithoutDue(dues: seq<Due>, id: nat): seq<Due> {
    if dues == [] then []
    else if dues[0].id == id then dues[1..]
    else [dues[0]] + WithoutDue(dues[1..], id)
  }

  // ----- refinement

  /** `a` stands for an alarm due at `at`, seen after tick `now`. A full 2^32 ticks ahead is
      representable only from the last count before a wrap. */
  predicate Stands(a: Alarm, d: Due, now: nat) {
    && a.id == d.id && a.time == d.at % U32 && now < d.at <= now + U32
    && (d.at < now + U32 ==> a.rollover == (d.at / U32 > now / U32))
    && (d.at == now + U32 ==> now % U32 == U32 - 1 && !a.rollover)
  }

  predicate AllStand(alarms: seq<Alarm>, dues: seq<Due>, now: nat) {
    |alarms| == |dues| && forall i :: 0 <= i < |alarms| ==> Stands(alarms[i], dues[i], now)
  }

  /** The alarm expires on the next tick exactly if it is due then. */
  lemma ExpiresWhenDue(a: Alarm, d: Due, now: nat)
    requires Stands(a, d, now)
    ensures var c := Cleared(a, (now + 1) % U32);
            && (Expired(c, (now + 1) % U32) <==> d.at == now + 1)
            && (d.at != now + 1 ==> Stands(c, d, now + 1))
  {}

  lemma TimeWrapsIff(now: nat, period: u32)
    ensures (now % U32 + period) % U32 == (now + period) % U32
    ensures (now + period) / U32 > now / U32 <==> (now % U32 + period) % U32 < now % U32
  {
    var q, c := now / U32, now % U32;
    if c + period < U32 {
      ModIsUnique(now + period, q, c + period, U32);
    } else {
      ModIsUnique(now + period, q + 1, c + period - U32, U32);
    }
  }

  lemma RearmStands(a: Alarm, d: Due, now: nat, period: u32)
    requires Stands(a, d, now) && d.at == now + 1 && period > 0
    ensures Stands(Rearmed(Cleared(a, (now + 1) % U32), (now + 1) % U32, period), Due(d.id, d.at + period), now + 1)
  {
    ExpiresWhenDue(a, d, now);
    TimeWrapsIff(now + 1, period);
  }

  lemma {:induction false} TickRefines(alarms: seq<Alarm>, dues: seq<Due>, now: nat, nticks: u32, ret: Returns)
    requires AllStand(alarms, dues, now) && nticks == (now + 1) % U32
    ensures AllStand(Serve(alarms, nticks, ret), ServeDue(dues, now + 1, ret), now + 1)
    ensures Fired(alarms, nticks) == FiredDue(dues, now + 1)
    decreases |alarms|
  {
    if alarms != [] {
      assert Stands(alarms[0], dues[0], now);
      TickRefines(alarms[1..], dues[1..], now, nticks, ret);
      OneServed(alarms[0], dues[0], now, nticks, ret);
      StandTogether(ServeOne(alarms[0], nticks, ret), ServeOneDue(dues[0], now + 1, ret),
                    Serve(alarms[1..], nticks, ret), ServeDue(dues[1..], now + 1, ret), now + 1);
    }
  }

  lemma StandTogether(a1: seq<Alarm>, d1: seq<Due>, a2: seq<Alarm>, d2: seq<Due>, now: nat)
    requires AllStand(a1, d1, now) && AllStand(a2, d2, now)
    ensures AllStand(a1 + a2, d1 + d2, now)
  {}

  lemma OneServed(a: Alarm, d: Due, now: nat, nticks: u32, ret: Returns)
    requires Stands(a, d, now) && nticks == (now + 1) % U32
    ensures AllStand(ServeOne(a, nticks, ret), ServeOneDue(d, now + 1, ret), now + 1)
    ensures Expired(Cleared(a, nticks), nticks) <==> d.at == now + 1
    ensures a.id == d.id
  {
    ExpiresWhenDue(a, d, now);
    if d.at == now + 1 && ReturnOf(ret, d.id) != 0 {
      RearmStands(a, d, now, ReturnOf(ret, d.id));
    }
  }

  /** The condition on a start: not the longest possible delay, unless the counter is about to wrap. */
  predicate StartOk(now: nat, period: u32) {
    period < U32 - 1 || now % U32 == U32 - 1
  }

  lemma StartRefinesIff(id: nat, now: nat, period: u32)
    ensures Stands(NewAlarm(id, now % U32, period), Due(id, now + period + 1), now) <==> StartOk(now, period)
  {}

  lemma StartRefines(alarms: seq<Alarm>, dues: seq<Due>, id: nat, now: nat, period: u32)
    requires AllStand(alarms, dues, now) && StartOk(now, period)
    ensures AllStand([NewAlarm(id, now % U32, period)] + alarms, [Due(id, now + period + 1)] + dues, now)
  {
    StartRefinesIff(id, now, period);
  }

  /** Otherwise the alarm goes off on the very next tick, 2^32 - 1 ticks too early. */
  lemma LongestDelayFiresAtOnce(id: nat, now: nat, period: u32)
    requires !StartOk(now, period)
    ensures var a, t := NewAlarm(id, now % U32, period), (now + 1) % U32;
            Expired(Cleared(a, t), t) && now + period + 1 == now + U32
  {}

  lemma {:induction false} StopRefines(alarms: seq<Alarm>, dues: seq<Due>, now: nat, id: nat)
    requires AllStand(alarms, dues, now)
    ensures AllStand(Without(alarms, id), WithoutDue(dues, id), now)
    decreases |alarms|
  {
    if alarms != [] {
      assert Stands(alarms[0], dues[0], now);
      StopRefines(alarms[1..], dues[1..], now, id);
    }
  }

  // ----- whole runs

  datatype Event = Tick(ret: Returns) | Start(id: nat, period: u32) | Stop(id: nat)

  /** Counter, list, and the callbacks made so far. */
  datatype Concrete = Concrete(nticks: u32, alarms: seq<Alarm>, log: seq<nat>)
  datatype Abstract = Abstract(now: nat, dues: seq<Due>, log: seq<nat>)

  function StepC(c: Concrete, e: Event): Concrete {
    match e
    case Tick(ret) =>
      var t: u32 := (c.nticks + 1) % U32;
      Concrete(t, Serve(c.alarms, t, ret), c.log + Fired(c.alarms, t))
    case Start(id, period) => c.(alarms := [NewAlarm(id, c.nticks, period)] + c.alarms)
    case Stop(id) => c.(alarms := Without(c.alarms, id))
  }

  function StepA(m: Abstract, e: Event): Abstract {
    match e
    case Tick(ret) => Abstract(m.now + 1, ServeDue(m.dues, m.now + 1, ret), m.log + FiredDue(m.dues, m.now + 1))
    case Start(id, period) => m.(dues := [Due(id, m.now + period + 1)] + m.dues)
    case Stop(id) => m.(dues := WithoutDue(m.dues, id))
  }

  function RunC(es: seq<Event>): Concrete {
    if es == [] then Concrete(0, [], []) else StepC(RunC(es[..|es| - 1]), es[|es| - 1])
  }

  function RunA(es: seq<Event>): Abstract {
    if es == [] then Abstract(0, [], []) else StepA(RunA(es[..|es| - 1]), es[|es| - 1])
  }

  predicate StartsOk(es: seq<Event>) {
    es != [] ==>
      && StartsOk(es[..|es| - 1])
      && (es[|es| - 1].Start? ==> StartOk(RunA(es[..|es| - 1]).now, es[|es| - 1].period))
  }

  /** Same callbacks so far; the counter is the clock modulo 2^32; every alarm stands for its due time. */
  predicate Refines(c: Concrete, m: Abstract) {
    c.nticks == m.now % U32 && AllStand(c.alarms, m.dues, m.now) && c.log == m.log
  }

  lemma NextCount(now: nat)
    ensures (now % U32 + 1) % U32 == (now + 1) % U32
  {}

  lemma StepRefines(c: Concrete, m: Abstract, e: Event)
    requires Refines(c, m) && (e.Start? ==> StartOk(m.now, e.period))
    ensures Refines(StepC(c, e), StepA(m, e))
  {
    match e
    case Tick(ret) =>
      NextCount(m.now);
      TickRefines(c.alarms, m.dues, m.now, (c.nticks + 1) % U32, ret);
    case Start(id, period) => StartRefines(c.alarms, m.dues, id, m.now, period);
    case Stop(id) => StopRefines(c.alarms, m.dues, m.now, id);
  }

  /** For every run of starts, stops and ticks, across any number of counter wraps: the callbacks made
      are exactly those of the schedule, in order, and every alarm stands for its due time. */
  lemma {:induction false} AlarmsImplementSchedule(es: seq<Event>)
    requires StartsOk(es)
    ensures Refines(RunC(es), RunA(es))
  {
    if es != [] {
      var before, e := es[..|es| - 1], es[|es| - 1];
      AlarmsImplementSchedule(before);
      StepRefines(RunC(before), RunA(before), e);
    }
  }

  // ----- what this means for one alarm

  predicate Absent(dues: seq<Due>, id: nat) {
    forall j :: 0 <= j < |dues| ==> dues[j].id != id
  }

  /** The alarm is in the schedule, once, due at `at`. */
  ghost predicate Once(dues: seq<Due>, id: nat, at: nat) {
    exists i :: OnceAt(dues, id, at, i)
  }

  predicate OnceAt(dues: seq<Due>, id: nat, at: nat, i: int) {
    0 <= i < |dues| && dues[i] == Due(id, at) && forall j :: 0 <= j < |dues| && j != i ==> dues[j].id != id
  }

  lemma OnceInFront(d: Due, tail: seq<Due>)
    requires Absent(tail, d.id)
    ensures Once([d] + tail, d.id, d.at)
  {
    assert OnceAt([d] + tail, d.id, d.at, 0);
  }

  lemma OnceBehind(d: Due, tail: seq<Due>, id: nat, at: nat)
    requires Once(tail, id, at) && d.id != id
    ensures Once([d] + tail, id, at)
  {
    var i :| OnceAt(tail, id, at, i);
    assert OnceAt([d] + tail, id, at, i + 1);
  }

  /** Either the first of the schedule is the alarm and the rest does not have it, or the other way round. */
  lemma OnceSplits(dues: seq<Due>, id: nat, at: nat)
    requires Once(dues, id, at)
    ensures dues != [] && dues == [dues[0]] + dues[1..]
    ensures if dues[0].id == id then dues[0].at == at && Absent(dues[1..], id) else Once(dues[1..], id, at)
  {
    var i :| OnceAt(dues, id, at, i);
    if i > 0 {
      assert OnceAt(dues[1..], id, at, i - 1);
    }
  }

  /** How often the alarm occurs in a list of callbacks. */
  function Count(log: seq<nat>, id: nat): nat {
    if log == [] then 0 else Count(log[..|log| - 1], id) + if log[|log| - 1] == id then 1 else 0
  }

  lemma {:induction false} CountOf(a: seq<nat>, b: seq<nat>, id: nat)
    ensures Count(a + b, id) == Count(a, id) + Count(b, id)
    decreases |b|
  {
    if b == [] {
      assert a + b == a;
    } else {
      CountOf(a, b[..|b| - 1], id);
      assert (a + b)[..|a + b| - 1] == a + b[..|b| - 1];
    }
  }

  lemma CountOne(id: nat, other: nat)
    ensures Count([other], id) == (if other == id then 1 else 0) && Count([], id) == 0
  {
    assert [other][..0] == [];
  }

  lemma {:induction false} ServedFrame(dues: seq<Due>, now: nat, ret: Returns, id: nat)
    requires Absent(dues, id)
    ensures Absent(ServeDue(dues, now, ret), id)
    ensures Count(FiredDue(dues, now), id) == 0
    decreases |dues|
  {
    if dues != [] {
      ServedFrame(dues[1..], now, ret, id);
      CountOf(if dues[0].at == now then [dues[0].id] else [], FiredDue(dues[1..], now), id);
      CountOne(id, dues[0].id);
    }
  }

  /** What one tick makes of the alarm. */
  ghost predicate Served(dues': seq<Due>, now: nat, ret: Returns, id: nat, at: nat) {
    if at != now then Once(dues', id, at)
    else if ReturnOf(ret, id) == 0 then Absent(dues', id)
    else Once(dues', id, at + ReturnOf(ret, id))
  }

  /** How often it is called back on that tick. */
  function CallsAt(at: nat, now: nat): nat {
    if at == now then 1 else 0
  }

  lemma OthersInFront(first: seq<Due>, tail: seq<Due>, id: nat)
    requires |first| <= 1 && Absent(first, id)
    ensures Absent(tail, id) ==> Absent(first + tail, id)
    ensures forall at :: Once(tail, id, at) ==> Once(first + tail, id, at)
  {
    if first == [] {
      assert first + tail == tail;
    } else {
      forall at | Once(tail, id, at) ensures Once(first + tail, id, at) {
        OnceBehind(first[0], tail, id, at);
        assert [first[0]] == first;
      }
    }
  }

  lemma ServedFirst(d: Due, rest: seq<Due>, now: nat, ret: Returns)
    requires Absent(rest, d.id)
    ensures Served(ServeOneDue(d, now, ret) + rest, now, ret, d.id, d.at)
  {
    var first := ServeOneDue(d, now, ret);
    if first == [] {
      assert first + rest == rest;
    } else {
      assert first == [first[0]];
      OnceInFront(first[0], rest);
    }
  }

  lemma OneOther(d: Due, now: nat, ret: Returns, id: nat)
    requires d.id != id
    ensures |ServeOneDue(d, now, ret)| <= 1 && Absent(ServeOneDue(d, now, ret), id)
  {}

  lemma FirstFires(dues: seq<Due>, now: nat, id: nat)
    requires dues != []
    ensures Count(FiredDue(dues, now), id)
         == (if dues[0].at == now && dues[0].id == id then 1 else 0) + Count(FiredDue(dues[1..], now), id)
  {
    CountOf(if dues[0].at == now then [dues[0].id] else [], FiredDue(dues[1..], now), id);
    CountOne(id, dues[0].id);
  }

  lemma {:induction false} ServedAlarm(dues: seq<Due>, now: nat, ret: Returns, id: nat, at: nat)
    requires Once(dues, id, at)
    ensures Served(ServeDue(dues, now, ret), now, ret, id, at)
    ensures Count(FiredDue(dues, now), id) == CallsAt(at, now)
    decreases |dues|
  {
    OnceSplits(dues, id, at);
    FirstFires(dues, now, id);
    if dues[0].id == id {
      ServedFrame(dues[1..], now, ret, id);
      ServedFirst(dues[0], ServeDue(dues[1..], now, ret), now, ret);
    } else {
      ServedAlarm(dues[1..], now, ret, id, at);
      OneOther(dues[0], now, ret, id);
      OthersInFront(ServeOneDue(dues[0], now, ret), ServeDue(dues[1..], now, ret), id);
    }
  }

  lemma {:induction false} StopOther(dues: seq<Due>, other: nat, id: nat, at: nat)
    requires Once(dues, id, at) && other != id
    ensures Once(WithoutDue(dues, other), id, at)
    decreases |dues|
  {
    OnceSplits(dues, id, at);
    if dues[0].id == id {
      AbsentWithout(dues[1..], other, id);
      OnceInFront(dues[0], WithoutDue(dues[1..], other));
    } else if dues[0].id != other {
      StopOther(dues[1..], other, id, at);
      OnceBehind(dues[0], WithoutDue(dues[1..], other), id, at);
    }
  }

  lemma {:induction false} AbsentWithout(dues: seq<Due>, other: nat, id: nat)
    requires Absent(dues, id)
    ensures Absent(WithoutDue(dues, other), id)
    decreases |dues|
  {
    if dues != [] && dues[0].id != other {
      AbsentWithout(dues[1..], other, id);
    }
  }

  /** What one tick makes of the schedule. */
  lemma TickServes(m: Abstract, ret: Returns, id: nat, at: nat)
    requires Once(m.dues, id, at)
    ensures var m' := StepA(m, Tick(ret));
            && Served(m'.dues, m.now + 1, ret, id, at)
            && Count(m'.log, id) == Count(m.log, id) + CallsAt(at, m.now + 1)
  {
    ServedAlarm(m.dues, m.now + 1, ret, id, at);
    CountOf(m.log, FiredDue(m.dues, m.now + 1), id);
  }

  /** Events that neither start nor stop the alarm. */
  predicate Others(es: seq<Event>, id: nat) {
    forall i :: 0 <= i < |es| && !es[i].Tick? ==> es[i].id != id
  }

  function Ticks(es: seq<Event>): nat {
    if es == [] then 0 else Ticks(es[..|es| - 1]) + if es[|es| - 1].Tick? then 1 else 0
  }

  lemma OtherEvent(m: Abstract, e: Event, id: nat, at: nat)
    requires Once(m.dues, id, at) && Others([e], id) && (e.Tick? ==> m.now + 1 < at)
    ensures Once(StepA(m, e).dues, id, at) && Count(StepA(m, e).log, id) == Count(m.log, id)
  {
    assert [e][0] == e;
    match e
    case Tick(ret) => TickServes(m, ret, id, at);
    case Start(other, period) => OnceBehind(Due(other, m.now + period + 1), m.dues, id, at);
    case Stop(other) => StopOther(m.dues, other, id, at);
  }

  /** The two machines after further events. */
  function FromC(c: Concrete, es: seq<Event>): Concrete {
    if es == [] then c else StepC(FromC(c, es[..|es| - 1]), es[|es| - 1])
  }

  function FromA(m: Abstract, es: seq<Event>): Abstract {
    if es == [] then m else StepA(FromA(m, es[..|es| - 1]), es[|es| - 1])
  }

  predicate StartsOkFrom(m: Abstract, es: seq<Event>) {
    es != [] ==>
      && StartsOkFrom(m, es[..|es| - 1])
      && (es[|es| - 1].Start? ==> StartOk(FromA(m, es[..|es| - 1]).now, es[|es| - 1].period))
  }

  lemma {:induction false} StaysRefined(c: Concrete, m: Abstract, es: seq<Event>)
    requires Refines(c, m) && StartsOkFrom(m, es)
    ensures Refines(FromC(c, es), FromA(m, es))
  {
    if es != [] {
      var before, e := es[..|es| - 1], es[|es| - 1];
      StaysRefined(c, m, before);
      StepRefines(FromC(c, before), FromA(m, before), e);
    }
  }

  /** While earlier ticks pass and other alarms are started and stopped, the alarm stays as it is. */
  lemma {:induction false} StaysDue(m: Abstract, es: seq<Event>, id: nat, at: nat)
    requires Once(m.dues, id, at) && Others(es, id) && m.now + Ticks(es) < at
    ensures var m' := FromA(m, es);
            && m'.now == m.now + Ticks(es) && Once(m'.dues, id, at)
            && Count(m'.log, id) == Count(m.log, id)
  {
    if es != [] {
      var before, e := es[..|es| - 1], es[|es| - 1];
      StaysDue(m, before, id, at);
      OtherEvent(FromA(m, before), e, id, at);
    }
  }

  /** How often the alarm's callback has been made. */
  function Calls(c: Concrete, id: nat): nat {
    Count(c.log, id)
  }

  /** For every state of the driver that stands for a state of the schedule, as all states of its runs do:
      an alarm due at tick `at` is not called back while earlier ticks pass, whatever other alarms are
      started and stopped meanwhile. On the next tick it is called exactly if that is tick `at`, and is
      then due again after the interval its callback returns, if any; and the driver still stands for
      the schedule, so that the same can be said of what follows. */
  lemma FiresExactlyWhenDue(c: Concrete, m: Abstract, es: seq<Event>, id: nat, at: nat, ret: Returns)
    requires Refines(c, m) && StartsOkFrom(m, es)
    requires Once(m.dues, id, at) && Others(es, id) && m.now + Ticks(es) < at
    ensures Calls(FromC(c, es), id) == Calls(c, id)
    ensures Calls(StepC(FromC(c, es), Tick(ret)), id) == Calls(c, id) + CallsAt(at, m.now + Ticks(es) + 1)
    ensures var m' := StepA(FromA(m, es), Tick(ret));
            && Refines(StepC(FromC(c, es), Tick(ret)), m')
            && m'.now == m.now + Ticks(es) + 1 && Served(m'.dues, m'.now, ret, id, at)
  {
    StaysRefined(c, m, es);
    StaysDue(m, es, id, at);
    StepRefines(FromC(c, es), FromA(m, es), Tick(ret));
    TickServes(FromA(m, es), ret, id, at);
  }

  lemma Started(c: Concrete, m: Abstract, id: nat, period: u32)
    requires Refines(c, m) && StartOk(m.now, period) && Absent(m.dues, id)
    ensures var c', m' := StepC(c, Start(id, period)), StepA(m, Start(id, period));
            && Refines(c', m') && c'.log == c.log && m'.now == m.now && Once(m'.dues, id, m.now + period + 1)
  {
    StepRefines(c, m, Start(id, period));
    OnceInFront(Due(id, m.now + period + 1), m.dues);
  }

  /** In particular an alarm that is started with `period` is called back on tick `period` + 1 after that and
      not before. */
  lemma StartedAlarmFires(c: Concrete, m: Abstract, id: nat, period: u32, es: seq<Event>, ret: Returns)
    requires Refines(c, m) && StartOk(m.now, period) && Absent(m.dues, id)
    requires StartsOkFrom(StepA(m, Start(id, period)), es) && Others(es, id) && Ticks(es) <= period
    ensures var c' := FromC(StepC(c, Start(id, period)), es);
            && Calls(c', id) == Calls(c, id)
            && Calls(StepC(c', Tick(ret)), id) == Calls(c, id) + CallsAt(period, Ticks(es))
  {
    var c1, m1 := StepC(c, Start(id, period)), StepA(m, Start(id, period));
    Started(c, m, id, period);
    assert m1.now == m.now && Calls(c1, id) == Calls(c, id);
    FiresExactlyWhenDue(c1, m1, es, id, m.now + period + 1, ret);
  }

  // ----- a stopped alarm, and the order of the calls

  lemma {:induction false} WithoutOnce(dues: seq<Due>, id: nat, at: nat)
    requires Once(dues, id, at)
    ensures Absent(WithoutDue(dues, id), id)
    decreases |dues|
  {
    OnceSplits(dues, id, at);
    if dues[0].id != id {
      WithoutOnce(dues[1..], id, at);
    }
  }

  lemma AbsentEvent(m: Abstract, e: Event, id: nat)
    requires Absent(m.dues, id) && Others([e], id)
    ensures Absent(StepA(m, e).dues, id) && Count(StepA(m, e).log, id) == Count(m.log, id)
  {
    assert [e][0] == e;
    match e
    case Tick(ret) =>
      ServedFrame(m.dues, m.now + 1, ret, id);
      CountOf(m.log, FiredDue(m.dues, m.now + 1), id);
    case Start(other, period) =>
    case Stop(other) => AbsentWithout(m.dues, other, id);
  }

  lemma {:induction false} StaysAbsent(m: Abstract, es: seq<Event>, id: nat)
    requires Absent(m.dues, id) && Others(es, id)
    ensures Absent(FromA(m, es).dues, id) && Count(FromA(m, es).log, id) == Count(m.log, id)
  {
    if es != [] {
      var before, e := es[..|es| - 1], es[|es| - 1];
      StaysAbsent(m, before, id);
      AbsentEvent(FromA(m, before), e, id);
    }
  }

  /** A stopped alarm is not called back any more, whatever passes, until it is started again. */
  lemma StoppedAlarmIsSilent(c: Concrete, m: Abstract, id: nat, at: nat, es: seq<Event>)
    requires Refines(c, m) && Once(m.dues, id, at)
    requires StartsOkFrom(StepA(m, Stop(id)), es) && Others(es, id)
    ensures Calls(FromC(StepC(c, Stop(id)), es), id) == Calls(c, id)
  {
    StepRefines(c, m, Stop(id));
    WithoutOnce(m.dues, id, at);
    StaysRefined(StepC(c, Stop(id)), StepA(m, Stop(id)), es);
    StaysAbsent(StepA(m, Stop(id)), es, id);
  }

  /** So is one whose callback returns zero. */
  lemma ZeroReturnIsSilent(c: Concrete, m: Abstract, id: nat, ret: Returns, es: seq<Event>)
    requires Refines(c, m) && Once(m.dues, id, m.now + 1) && ReturnOf(ret, id) == 0
    requires StartsOkFrom(StepA(m, Tick(ret)), es) && Others(es, id)
    ensures Calls(FromC(StepC(c, Tick(ret)), es), id) == Calls(c, id) + 1
  {
    StepRefines(c, m, Tick(ret));
    TickServes(m, ret, id, m.now + 1);
    StaysRefined(StepC(c, Tick(ret)), StepA(m, Tick(ret)), es);
    StaysAbsent(StepA(m, Tick(ret)), es, id);
  }

  /** Of the alarms that are due on the same tick the one started last is called first. */
  lemma LastStartedIsCalledFirst(c: Concrete, id: nat, ret: Returns)
    ensures var log := StepC(StepC(c, Start(id, 0)), Tick(ret)).log;
            |log| > |c.log| && log[..|c.log|] == c.log && log[|c.log|] == id
  {}

  function Ids(alarms: seq<Alarm>): seq<nat> {
    if alarms == [] then [] else [alarms[0].id] + Ids(alarms[1..])
  }

  /** `part` is what stands in `whole` at these positions, in this order. */
  predicate StandsAt(part: seq<nat>, whole: seq<nat>, at: seq<nat>) {
    && |at| == |part| && (forall k :: 0 <= k < |at| ==> at[k] < |whole| && whole[at[k]] == part[k])
    && forall k, l :: 0 <= k < l < |at| ==> at[k] < at[l]
  }

  ghost predicate InOrderOf(part: seq<nat>, whole: seq<nat>) {
    exists at :: StandsAt(part, whole, at)
  }

  lemma OneInFront(part: seq<nat>, whole: seq<nat>, id: nat)
    requires InOrderOf(part, whole)
    ensures InOrderOf(part, [id] + whole) && InOrderOf([id] + part, [id] + whole)
  {
    var at :| StandsAt(part, whole, at);
    var shifted := seq(|at|, k requires 0 <= k < |at| => at[k] + 1);
    assert StandsAt(part, [id] + whole, shifted);
    assert StandsAt([id] + part, [id] + whole, [0] + shifted);
  }

  /** A tick keeps the list in order, and makes its callbacks in list order. */
  lemma {:induction false} TickKeepsOrder(alarms: seq<Alarm>, nticks: u32, ret: Returns)
    ensures InOrderOf(Ids(Serve(alarms, nticks, ret)), Ids(alarms))
    ensures InOrderOf(Fired(alarms, nticks), Ids(alarms))
    decreases |alarms|
  {
    if alarms == [] {
      assert StandsAt([], [], []);
    } else {
      var id, rest := alarms[0].id, alarms[1..];
      TickKeepsOrder(rest, nticks, ret);
      OneInFront(Ids(Serve(rest, nticks, ret)), Ids(rest), id);
      OneInFront(Fired(rest, nticks), Ids(rest), id);
      ServedIds(alarms, nticks, ret);
      assert [] + Fired(rest, nticks) == Fired(rest, nticks);
    }
  }

  lemma ServedIds(alarms: seq<Alarm>, nticks: u32, ret: Returns)
    requires alarms != []
    ensures var rest, here := Ids(Serve(alarms[1..], nticks, ret)), ServeOne(alarms[0], nticks, ret);
            Ids(Serve(alarms, nticks, ret)) == if here == [] then rest else [alarms[0].id] + rest
  {
    var here, rest := ServeOne(alarms[0], nticks, ret), Serve(alarms[1..], nticks, ret);
    if here == [] {
      assert here + rest == rest;
    } else {
      assert (here + rest)[1..] == rest;
    }
  }
}
