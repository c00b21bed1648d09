/** Enumeration: the main loop, the interrupt handler that moves the task state under it, the bus
    probe, the task itself and the HID probes. Everything that comes from the bus or the clock is an
    input of the iteration. */
module UsbStack {
  import opened Words
  import opened HidWalk

  // ----- task states, by their values in the source
  const DETACHED: byte := 0x00
  const INITIALIZE: byte := 0x01
  const WAIT_FOR_DEVICE: byte := 0x03
  const ILLEGAL: byte := 0x04
  const ATTACHED: byte := 0x10
  const SETTLE: byte := 0x11
  const RESET_DEVICE: byte := 0x12
  const WAIT_RESET_COMPLETE: byte := 0x13
  const WAIT_SOF: byte := 0x14
  const GET_DESCRIPTOR: byte := 0x15
  const ADDRESSING: byte := 0x20
  const CONFIGURING: byte := 0x30
  const RUNNING: byte := 0x40
  const ERROR: byte := 0xff

  predicate Named(t: byte) {
    t in {DETACHED, INITIALIZE, WAIT_FOR_DEVICE, ILLEGAL, ATTACHED, SETTLE, RESET_DEVICE,
          WAIT_RESET_COMPLETE, WAIT_SOF, GET_DESCRIPTOR, ADDRESSING, CONFIGURING, RUNNING, ERROR}
  }

  /** The states in which counting a bus event leads to another named state. */
  predicate CountsUp(t: byte) {
    t in {DETACHED, WAIT_FOR_DEVICE, ATTACHED, SETTLE, RESET_DEVICE, WAIT_RESET_COMPLETE, WAIT_SOF, ERROR}
  }

  const NUM_DEVICES: nat := 8
  const HID_K: byte := 1
  const HID_M: byte := 2
  const PROTOCOL_KEYBOARD: byte := 1
  const PROTOCOL_MOUSE: byte := 2
  const NO_DEVICE: byte := 0xff

  /** Which endpoint record a device table entry points to. */
  datatype EpPtr = Null | Dev0Ep | HidEp
  datatype DevRecord = DevRecord(epinfo: EpPtr, devclass: byte)

  datatype State = State(
    task: byte, dev: seq<DevRecord>, tmpAddr: byte,
    hidAddr: byte, hidIntf: byte,
    dev0Max: byte, hidMax0: byte,    // MaxPktSize of dev0ep and of hid_ep[0]
    ep1: EndpointFields,             // hid_ep[1]
    runningFlag: bool, device: byte,
    hung: bool)                      // a probe is inside a walk that never returns

  // ----- inputs

  datatype Sample = J | K | SE1 | SE0
  datatype Interrupt = NoInterrupt | Interrupt(condet: bool, busEvent: bool, sample: Sample)

  /** What the two fetches leave in the buffer and the bytes behind it, and how the requests end. */
  datatype ProbeIn = ProbeIn(rcode1: byte, mem1: seq<byte>, rcode2: byte, mem2: seq<byte>, rcConf: byte, rcProto: byte)

  predicate Buffers(p: ProbeIn) {
    |p.mem1| == MEMORY && |p.mem2| == MEMORY
  }

  datatype TaskIn = TaskIn(settled: bool, resetDone: bool, rcDescr: byte, maxPkt0: byte, rcAddr: byte,
                           mouse: ProbeIn, keyboard: ProbeIn)

  datatype Input = Input(irq: Interrupt, task: TaskIn, reinit: Sample)

  predicate Proper(i: Input) {
    Buffers(i.task.mouse) && Buffers(i.task.keyboard)
  }

  // ----- the steps as functions

  /** The upper half of the state byte, which selects the case. */
  function Masked(t: byte): byte {
    t - t % 16
  }

  function BusProbe(s: State, sample: Sample): State {
    match sample
    case J => if s.task != WAIT_RESET_COMPLETE then s.(task := ATTACHED) else s
    case K => if s.task != WAIT_RESET_COMPLETE then s.(task := ATTACHED) else s
    case SE1 => s.(task := ILLEGAL)
    case SE0 => s.(task := if Masked(s.task) != DETACHED then INITIALIZE else WAIT_FOR_DEVICE)
  }

  /** The state in which the handler is about to look at the bus-event bit. */
  function BeforeBusEvent(s: State, irq: Interrupt): State {
    if irq.Interrupt? && irq.condet then BusProbe(s, irq.sample) else s
  }

  function Handle(s: State, irq: Interrupt): (s': State)
    ensures s' == s.(task := s'.task)
  {
    var s1 := BeforeBusEvent(s, irq);
    if irq.Interrupt? && irq.busEvent then s1.(task := (s1.task + 1) % 256) else s1
  }

  function Cleared(n: nat): (d: seq<DevRecord>)
    ensures |d| == n && forall i :: 0 <= i < n ==> d[i] == DevRecord(Null, 0)
  {
    if n == 0 then [] else [DevRecord(Null, 0)] + Cleared(n - 1)
  }

  function UsbInit(s: State): State {
    s.(dev := [DevRecord(Dev0Ep, 0)] + Cleared(NUM_DEVICES), dev0Max := 0)
  }

  /** The lowest address from `i` on without an endpoint record; 8 if all are taken. */
  function FreeAddress(dev: seq<DevRecord>, i: nat): (a: nat)
    requires 1 <= i <= NUM_DEVICES < |dev|
    ensures i <= a <= NUM_DEVICES
    ensures forall k :: i <= k < a ==> dev[k].epinfo != Null
    ensures a < NUM_DEVICES ==> dev[a].epinfo == Null
    decreases NUM_DEVICES - i
  {
    if i == NUM_DEVICES || dev[i].epinfo == Null then i else FreeAddress(dev, i + 1)
  }

  function TotalLength(mem: seq<byte>): nat
    requires |mem| == MEMORY
  {
    var t := mem[2] as int + 256 * (mem[3] as int);
    if t > 256 then 256 else t
  }

  /** The state changes on a matching interface. */
  function Switched(s: State, addr: byte, devclass: byte, intf: byte): State
    requires addr < |s.dev|
  {
    var max := if s.dev[addr].epinfo == HidEp then s.hidMax0 else s.dev0Max;
    s.(dev := s.dev[addr := DevRecord(HidEp, devclass)], hidMax0 := max, hidAddr := addr, hidIntf := intf)
  }

  function ProbeState(s: State, addr: byte, devclass: byte, protocol: byte, p: ProbeIn): (s': State)
    requires addr < |s.dev| && Buffers(p)
    ensures s'.task == s.task && |s'.dev| == |s.dev| && s'.tmpAddr == s.tmpAddr
  {
    if p.rcode1 != 0 || p.rcode2 != 0 then s
    else match WalkOf(p.mem2, TotalLength(p.mem1), protocol)
      case NoInterface => s
      case WrongClass => s
      case NoEndpoint(i) => Switched(s, addr, devclass, p.mem2[i + 2])
      case Endpoint(i, e) => Switched(s, addr, devclass, p.mem2[i + 2]).(ep1 := FieldsAt(p.mem2, e))
      case Stuck => s.(hung := true)
  }

  /** The probe answers TRUE exactly when both fetches succeed, the walk finds its target and both set
      requests succeed. */
  predicate ProbeAnswer(protocol: byte, p: ProbeIn)
    requires Buffers(p)
  {
    && p.rcode1 == 0 && p.rcode2 == 0
    && WalkOf(p.mem2, TotalLength(p.mem1), protocol).Endpoint?
    && p.rcConf == 0 && p.rcProto == 0
  }

  /** The class drivers in table order: mass storage (never), mouse, keyboard, dummy (never). */
  function Configure(s: State, t: TaskIn): (s': State)
    requires Sized(s) && Buffers(t.mouse) && Buffers(t.keyboard)
    ensures Sized(s')
  {
    var s1 := ProbeState(s, s.tmpAddr, HID_M, PROTOCOL_MOUSE, t.mouse);
    if s1.hung then s1
    else if ProbeAnswer(PROTOCOL_MOUSE, t.mouse) then s1.(task := RUNNING)
    else
      var s2 := ProbeState(s1, s.tmpAddr, HID_K, PROTOCOL_KEYBOARD, t.keyboard);
      if s2.hung then s2
      else if ProbeAnswer(PROTOCOL_KEYBOARD, t.keyboard) then s2.(task := RUNNING)
      else if s2.task == CONFIGURING then s2.(task := ERROR) else s2
  }

  predicate Sized(s: State) {
    |s.dev| == NUM_DEVICES + 1 && s.tmpAddr < NUM_DEVICES
  }

  function Address(s: State, t: TaskIn): (s': State)
    requires Sized(s)
    ensures Sized(s')
  {
    var a := FreeAddress(s.dev, 1);
    if a < NUM_DEVICES then
      var s1 := s.(dev := s.dev[a := s.dev[a].(epinfo := s.dev[0].epinfo)]);
      if t.rcAddr == 0 then s1.(tmpAddr := a, task := CONFIGURING) else s1.(task := ERROR)
    else if s.task == ADDRESSING then s.(task := ERROR) else s
  }

  function UsbTask(s: State, t: TaskIn): (s': State)
    requires Sized(s) && Buffers(t.mouse) && Buffers(t.keyboard)
    ensures Sized(s')
  {
    if Masked(s.task) == DETACHED then
      if s.task == INITIALIZE then UsbInit(s).(task := WAIT_FOR_DEVICE) else s
    else if Masked(s.task) == ATTACHED then
      if s.task == ATTACHED then s.(task := SETTLE)
      else if s.task == SETTLE then if t.settled then s.(task := RESET_DEVICE) else s
      else if s.task == RESET_DEVICE then s.(task := WAIT_RESET_COMPLETE)
      else if s.task == WAIT_RESET_COMPLETE then if t.resetDone then s.(task := WAIT_SOF) else s
      else if s.task == WAIT_SOF then s.(task := GET_DESCRIPTOR)
      else if s.task == GET_DESCRIPTOR then
        if t.rcDescr == 0 then s.(dev0Max := t.maxPkt0, task := ADDRESSING)
        else s.(dev0Max := 8, task := ERROR)
      else s
    else if Masked(s.task) == ADDRESSING then Address(s, t)
    else if Masked(s.task) == CONFIGURING then Configure(s, t)
    else s
  }

  /** The class of the last device that has an endpoint record. */
  function Report(dev: seq<DevRecord>, n: nat): byte
    requires n <= |dev|
  {
    if n <= 1 then NO_DEVICE
    else if dev[n - 1].epinfo != Null then dev[n - 1].devclass
    else Report(dev, n - 1)
  }

  function Reinit(s: State, sample: Sample): State {
    UsbInit(BusProbe(s.(runningFlag := false), sample))
  }

  /** The second half of the loop body. */
  function Supervise(s: State, sample: Sample): State
    requires Sized(s)
  {
    if s.task == RUNNING then
      if !s.runningFlag then s.(runningFlag := true, device := Report(s.dev, NUM_DEVICES)) else s
    else if s.task == ERROR then s
    else if s.runningFlag then Reinit(s, sample)
    else s
  }

  function Iterate(s: State, i: Input): State
    requires Sized(s) && Proper(i)
  {
    if s.hung then s
    else Finish(UsbTask(Handle(s, i.irq), i.task), i.reinit)
  }

  /** The rest of the loop body, if the task returned. */
  function Finish(s: State, sample: Sample): State
    requires Sized(s)
  {
    if s.hung then s else Supervise(s, sample)
  }

  /** After MAX3421E_init and USB_init. */
  function Boot(sample: Sample): State {
    UsbInit(BusProbe(State(INITIALIZE, [], 0, 0, 0, 0, 0, EndpointFields(0, 0, 0, 0), false, NO_DEVICE, false), sample))
  }

  // ----- the invariant

  /** The address being configured or used is the highest one taken, and all below it are taken. */
  predicate Highest(s: State)
    requires |s.dev| == NUM_DEVICES + 1
  {
    && 1 <= s.tmpAddr < NUM_DEVICES && s.dev[s.tmpAddr].epinfo != Null
    && forall a :: s.tmpAddr < a < NUM_DEVICES ==> s.dev[a].epinfo == Null
  }

  predicate Inv(s: State) {
    && Sized(s) && Named(s.task)
    && s.dev[0].epinfo == Dev0Ep
    && (forall a, b :: 1 <= a < b < NUM_DEVICES && s.dev[a].epinfo == Null ==> s.dev[b].epinfo == Null)
    && (s.task == CONFIGURING && !s.hung ==> Highest(s) && s.dev[s.tmpAddr].epinfo == Dev0Ep)
    && (s.task == RUNNING ==>
          && Highest(s) && s.dev[s.tmpAddr].epinfo == HidEp
          && s.dev[s.tmpAddr].devclass in {HID_K, HID_M}
          && s.hidAddr == s.tmpAddr && s.hidMax0 == s.dev0Max)
    && (s.runningFlag ==> s.task == RUNNING && s.device == s.dev[s.tmpAddr].devclass)
  }

  /** The bus event of this iteration, if one is counted, meets a state it may be counted in. */
  predicate Orderly(s: State, i: Input) {
    !s.hung && i.irq.Interrupt? && i.irq.busEvent ==> CountsUp(BeforeBusEvent(s, i.irq).task)
  }

  lemma BusProbeNamed(s: State, sample: Sample)
    requires Named(s.task)
    ensures Named(BusProbe(s, sample).task)
    ensures BusProbe(s, sample).(task := s.task) == s
    ensures BusProbe(s, sample).task == s.task ||
            BusProbe(s, sample).task in {ATTACHED, ILLEGAL, INITIALIZE, WAIT_FOR_DEVICE}
  {}

  /** After the handler the state byte is named exactly when the bus event was orderly. */
  lemma NamedIffOrderly(s: State, i: Input)
    requires Named(s.task) && !s.hung
    ensures Named(Handle(s, i.irq).task) <==> Orderly(s, i)
    ensures Handle(s, i.irq).(task := s.task) == s
  {
    if i.irq.Interrupt? {
      BusProbeNamed(s, i.irq.sample);
    }
  }

  /** What holds between the handler and the task: as the loop invariant, but the running flag may
      still be set in a state the handler jumped to. */
  predicate AfterHandler(s: State) {
    && Inv(s.(runningFlag := false))
    && FlagIn(s, {INITIALIZE, ILLEGAL, ATTACHED, SETTLE})
  }

  predicate AfterTask(s: State) {
    && Inv(s.(runningFlag := false))
    && FlagIn(s, {WAIT_FOR_DEVICE, ILLEGAL, SETTLE, RESET_DEVICE})
  }

  predicate FlagIn(s: State, tasks: set<byte>)
    requires Inv(s.(runningFlag := false))
  {
    s.runningFlag ==> if s.task == RUNNING then s.device == s.dev[s.tmpAddr].devclass else s.task in tasks
  }

  lemma HandlerKeeps(s: State, i: Input)
    requires Inv(s) && !s.hung && Orderly(s, i)
    ensures AfterHandler(Handle(s, i.irq))
  {
    NamedIffOrderly(s, i);
    if i.irq.Interrupt? {
      BusProbeNamed(s, i.irq.sample);
    }
  }

  /** A probe leaves the state alone, or hangs, or switches the device to the HID endpoint records; it
      answers TRUE only in the last case. */
  lemma ProbeEffect(s: State, addr: byte, devclass: byte, protocol: byte, p: ProbeIn)
    requires addr < |s.dev| && Buffers(p)
    ensures var s' := ProbeState(s, addr, devclass, protocol, p);
            || (s' == s && !ProbeAnswer(protocol, p))
            || (s' == s.(hung := true) && !ProbeAnswer(protocol, p))
            || s' == Switched(s, addr, devclass, s'.hidIntf).(ep1 := s'.ep1)
  {}

  /** Bytes 2 and 3 of a configuration hold its length, low byte first; 256 bytes are fetched at most. */
  function Fetched(p: ProbeIn): (total: nat)
    requires Buffers(p)
  {
    Min(256, p.mem1[2] as int + 256 * (p.mem1[3] as int))
  }

  /** The first interface descriptor (type 4) is of class 3, subclass 1 and this protocol, and an endpoint
      descriptor (type 5) comes after it. */
  predicate IsBoot(ds: seq<Descriptor>, protocol: byte) {
    exists i, j :: 0 <= i < j < |ds| && BootAt(ds, protocol, i) && ds[j][1] == 5
  }

  predicate BootAt(ds: seq<Descriptor>, protocol: byte, i: nat)
    requires i < |ds|
  {
    && ds[i][1] == 4 && (forall k :: 0 <= k < i ==> ds[k][1] != 4)
    && ds[i][5] == 3 && ds[i][6] == 1 && ds[i][7] == protocol
  }

  lemma BootIsTarget(ds: seq<Descriptor>, protocol: byte)
    ensures IsBoot(ds, protocol) <==> Target(ds, protocol).Endpoint?
  {
    var i := FirstOf(ds, INTERFACE, 0);
    if IsBoot(ds, protocol) {
      var i', j :| 0 <= i' < j < |ds| && BootAt(ds, protocol, i') && ds[j][1] == 5;
      assert i == i';
    }
    if Target(ds, protocol).Endpoint? {
      assert BootAt(ds, protocol, i) && ds[FirstOf(ds, ENDPOINT, i + 1)][1] == 5;
    }
  }

  /** On a well-formed configuration a probe never hangs or reads outside the buffer. It answers TRUE exactly
      when both fetches succeed, the first interface is of the wanted boot class with an endpoint descriptor
      after it, and both set requests succeed; endpoint 1 is then filled from that descriptor. */
  lemma ProbeOnWellFormed(s: State, addr: byte, devclass: byte, protocol: byte, p: ProbeIn, ds: seq<Descriptor>)
    requires addr < |s.dev| && Buffers(p) && Holds(p.mem2, Fetched(p), ds)
    ensures WalkInside(p.mem2, Fetched(p), protocol)
    ensures ProbeAnswer(protocol, p) <==>
              p.rcode1 == 0 && p.rcode2 == 0 && IsBoot(ds, protocol) && p.rcConf == 0 && p.rcProto == 0
    ensures var s' := ProbeState(s, addr, devclass, protocol, p);
            && s'.hung == s.hung
            && (p.rcode1 == 0 && p.rcode2 == 0 && IsBoot(ds, protocol) ==>
                  var i := FirstOf(ds, 4, 0); var j := FirstOf(ds, 5, i + 1);
                  && i < j < |ds| && Copied(s'.ep1, ds[j]) && s'.hidIntf == ds[i][2]
                  && s'.dev[addr] == DevRecord(HidEp, devclass) && s'.hidAddr == addr
                  && s'.hidMax0 == if s.dev[addr].epinfo == HidEp then s.hidMax0 else s.dev0Max)
  {
    BootIsTarget(ds, protocol);
    WalkOnWellFormed(p.mem2, Fetched(p), ds, protocol);
    if Target(ds, protocol).Endpoint? {
      FieldsAreTheDescriptors(p.mem2, Fetched(p), ds, protocol);
    }
  }

  lemma WalkOnWellFormed(buf: seq<byte>, total: nat, ds: seq<Descriptor>, protocol: byte)
    requires Holds(buf, total, ds)
    ensures WalkInside(buf, total, protocol) && WalkOf(buf, total, protocol) == Target(ds, protocol)
  {
    WalkIsTarget(buf, total, ds, protocol);
  }

  lemma ConfigureKeeps(s: State, t: TaskIn)
    requires AfterHandler(s) && !s.hung && s.task == CONFIGURING && Buffers(t.mouse) && Buffers(t.keyboard)
    ensures AfterTask(Configure(s, t)) && !Configure(s, t).runningFlag
  {
    ProbeEffect(s, s.tmpAddr, HID_M, PROTOCOL_MOUSE, t.mouse);
    var s1 := ProbeState(s, s.tmpAddr, HID_M, PROTOCOL_MOUSE, t.mouse);
    ProbeEffect(s1, s.tmpAddr, HID_K, PROTOCOL_KEYBOARD, t.keyboard);
  }

  lemma AddressKeeps(s: State, t: TaskIn)
    requires AfterHandler(s) && s.task == ADDRESSING
    ensures AfterTask(Address(s, t)) && !Address(s, t).runningFlag
  {
    var a := FreeAddress(s.dev, 1);
    if a < NUM_DEVICES {
      forall b | a < b < NUM_DEVICES ensures s.dev[b].epinfo == Null {}
    }
  }

  lemma TaskKeeps(s: State, t: TaskIn)
    requires AfterHandler(s) && !s.hung && Buffers(t.mouse) && Buffers(t.keyboard)
    ensures AfterTask(UsbTask(s, t))
    ensures UsbTask(s, t).hung ==> !UsbTask(s, t).runningFlag
  {
    if s.task == CONFIGURING {
      ConfigureKeeps(s, t);
    } else if s.task == ADDRESSING {
      AddressKeeps(s, t);
    }
  }

  lemma {:induction false} ReportIsHighest(s: State, n: nat)
    requires Sized(s) && Highest(s) && s.tmpAddr < n <= NUM_DEVICES
    ensures Report(s.dev, n) == s.dev[s.tmpAddr].devclass
    decreases n
  {
    if n > s.tmpAddr + 1 {
      ReportIsHighest(s, n - 1);
    }
  }

  lemma SuperviseKeeps(s: State, sample: Sample)
    requires AfterTask(s)
    ensures Inv(Supervise(s, sample))
  {
    if s.task == RUNNING {
      ReportIsHighest(s, NUM_DEVICES);
    } else if s.runningFlag && s.task != ERROR {
      BusProbeNamed(s.(runningFlag := false), sample);
    }
  }

  lemma IterateKeeps(s: State, i: Input)
    requires Inv(s) && Proper(i) && Orderly(s, i)
    ensures Inv(Iterate(s, i))
  {
    if !s.hung {
      HandlerKeeps(s, i);
      BodyKeeps(Handle(s, i.irq), i.task, i.reinit);
    }
  }

  lemma BodyKeeps(s1: State, t: TaskIn, sample: Sample)
    requires AfterHandler(s1) && !s1.hung && Buffers(t.mouse) && Buffers(t.keyboard)
    ensures Inv(Finish(UsbTask(s1, t), sample))
  {
    TaskKeeps(s1, t);
    FinishKeeps(UsbTask(s1, t), sample);
  }

  lemma FinishKeeps(s2: State, sample: Sample)
    requires AfterTask(s2) && (s2.hung ==> !s2.runningFlag)
    ensures Inv(Finish(s2, sample))
  {
    if s2.hung {
      assert s2 == s2.(runningFlag := false);
    } else {
      SuperviseKeeps(s2, sample);
    }
  }

  // ----- whole runs

  ghost function Run(sample: Sample, inputs: seq<Input>): (s: State)
    requires forall k :: 0 <= k < |inputs| ==> Proper(inputs[k])
    ensures Sized(s)
  {
    if inputs == [] then Boot(sample)
    else Iterate(Run(sample, inputs[..|inputs| - 1]), inputs[|inputs| - 1])
  }

  /** Every bus event of the run is counted in a state it may be counted in. */
  ghost predicate OrderlyRun(sample: Sample, inputs: seq<Input>)
    requires forall k :: 0 <= k < |inputs| ==> Proper(inputs[k])
  {
    inputs != [] ==>
      && OrderlyRun(sample, inputs[..|inputs| - 1])
      && Orderly(Run(sample, inputs[..|inputs| - 1]), inputs[|inputs| - 1])
  }

  /** The state byte is named after the handler of every iteration. */
  ghost predicate NamedRun(sample: Sample, inputs: seq<Input>)
    requires forall k :: 0 <= k < |inputs| ==> Proper(inputs[k])
  {
    inputs != [] ==>
      var before := Run(sample, inputs[..|inputs| - 1]);
      && NamedRun(sample, inputs[..|inputs| - 1])
      && (!before.hung ==> Named(Handle(before, inputs[|inputs| - 1].irq).task))
  }

  /** Enumeration over every run of the main loop. The invariant holds at the top of the loop as long as
      the bus events are orderly, and the task state keeps to the named values exactly as long. */
  lemma {:induction false} EnumerationInvariant(sample: Sample, inputs: seq<Input>)
    requires forall k :: 0 <= k < |inputs| ==> Proper(inputs[k])
    ensures OrderlyRun(sample, inputs) ==> Inv(Run(sample, inputs))
    ensures OrderlyRun(sample, inputs) <==> NamedRun(sample, inputs)
  {
    if inputs == [] {
      BusProbeNamed(State(INITIALIZE, [], 0, 0, 0, 0, 0, EndpointFields(0, 0, 0, 0), false, NO_DEVICE, false), sample);
    } else {
      var n := |inputs| - 1;
      EnumerationInvariant(sample, inputs[..n]);
      if OrderlyRun(sample, inputs[..n]) {
        var s := Run(sample, inputs[..n]);
        if !s.hung {
          NamedIffOrderly(s, inputs[n]);
        }
        if Orderly(s, inputs[n]) {
          IterateKeeps(s, inputs[n]);
        }
      }
    }
  }

  /** What polling needs: in the running state the polled device has an address, its record points to
      the HID endpoints, its class is known and is the one the loop polls for, and its control endpoint
      kept the packet size learned during enumeration. */
  lemma {:induction false} RunningIsSafe(sample: Sample, inputs: seq<Input>)
    requires forall k :: 0 <= k < |inputs| ==> Proper(inputs[k])
    ensures OrderlyRun(sample, inputs) && Run(sample, inputs).task == RUNNING ==> CanPoll(Run(sample, inputs))
  {
    EnumerationInvariant(sample, inputs);
    if OrderlyRun(sample, inputs) && Run(sample, inputs).task == RUNNING {
      PollingIsSafe(Run(sample, inputs));
    }
  }

  predicate CanPoll(s: State)
    requires Sized(s)
  {
    && 1 <= s.hidAddr < NUM_DEVICES && s.hidAddr == s.tmpAddr
    && s.dev[s.hidAddr].epinfo == HidEp && s.dev[1].epinfo != Null
    && (s.runningFlag ==> s.device in {HID_K, HID_M} && s.device == s.dev[s.hidAddr].devclass)
    && s.hidMax0 == s.dev0Max
  }

  lemma PollingIsSafe(s: State)
    requires Inv(s) && s.task == RUNNING
    ensures CanPoll(s)
  {}

  // ----- the order of enumeration

  /** The stages from attachment to operation, in the order they have to be passed. */
  function Stages(): seq<byte> {
    [ATTACHED, SETTLE, RESET_DEVICE, WAIT_RESET_COMPLETE, WAIT_SOF, GET_DESCRIPTOR, ADDRESSING, CONFIGURING, RUNNING]
  }

  /** The stages seen since the device was last attached. */
  function Mark(seen: set<byte>, t: byte): set<byte> {
    if t == ATTACHED then {t} else seen + {t}
  }

  /** If `t` is a stage, it and all earlier ones have been seen. */
  predicate InOrder(seen: set<byte>, t: byte) {
    forall k :: 0 <= k < |Stages()| && Stages()[k] == t ==> forall j :: 0 <= j <= k ==> Stages()[j] in seen
  }

  /** A move that enters the stages at the front or advances by one, or leaves them. */
  predicate Advances(t: byte, t': byte) {
    || t' == t || t' == ATTACHED || t' !in Stages()
    || exists k :: 0 <= k < |Stages()| - 1 && Stages()[k] == t && Stages()[k + 1] == t'
  }

  lemma AdvanceKeepsOrder(seen: set<byte>, t: byte, t': byte)
    requires InOrder(seen, t) && Advances(t, t')
    ensures InOrder(Mark(seen, t'), t')
  {
    if t' != t && t' != ATTACHED && t' in Stages() {
      var k :| 0 <= k < |Stages()| - 1 && Stages()[k] == t && Stages()[k + 1] == t';
      forall i, j | 0 <= i < |Stages()| && Stages()[i] == t' && 0 <= j <= i
        ensures Stages()[j] in Mark(seen, t')
      {
        assert i == k + 1;
        if j <= k {
          assert Stages()[j] in seen;
        }
      }
    }
  }

  lemma HandlerAdvances(s: State, i: Input)
    requires Named(s.task) && Orderly(s, i) && !s.hung
    ensures Advances(s.task, BeforeBusEvent(s, i.irq).task)
    ensures Advances(BeforeBusEvent(s, i.irq).task, Handle(s, i.irq).task)
  {
    var t := BeforeBusEvent(s, i.irq).task;
    assert Stages()[0] == ATTACHED && Stages()[1] == SETTLE && Stages()[2] == RESET_DEVICE;
    assert Stages()[3] == WAIT_RESET_COMPLETE && Stages()[4] == WAIT_SOF && Stages()[5] == GET_DESCRIPTOR;
  }

  lemma TaskAdvances(s: State, t: TaskIn)
    requires Sized(s) && Named(s.task) && Buffers(t.mouse) && Buffers(t.keyboard)
    ensures Advances(s.task, UsbTask(s, t).task)
  {
    assert Stages()[0] == ATTACHED && Stages()[1] == SETTLE && Stages()[2] == RESET_DEVICE;
    assert Stages()[3] == WAIT_RESET_COMPLETE && Stages()[4] == WAIT_SOF && Stages()[5] == GET_DESCRIPTOR;
    assert Stages()[6] == ADDRESSING && Stages()[7] == CONFIGURING && Stages()[8] == RUNNING;
    TaskMoves(s, t);
  }

  /** The moves of the task, by state. */
  lemma TaskMoves(s: State, t: TaskIn)
    requires Sized(s) && Named(s.task) && Buffers(t.mouse) && Buffers(t.keyboard)
    ensures var t' := UsbTask(s, t).task;
            || t' == s.task || t' == ERROR
            || (s.task == INITIALIZE && t' == WAIT_FOR_DEVICE)
            || (s.task == ATTACHED && t' == SETTLE) || (s.task == SETTLE && t' == RESET_DEVICE)
            || (s.task == RESET_DEVICE && t' == WAIT_RESET_COMPLETE)
            || (s.task == WAIT_RESET_COMPLETE && t' == WAIT_SOF)
            || (s.task == WAIT_SOF && t' == GET_DESCRIPTOR) || (s.task == GET_DESCRIPTOR && t' == ADDRESSING)
            || (s.task == ADDRESSING && t' == CONFIGURING) || (s.task == CONFIGURING && t' == RUNNING)
  {}

  /** The stages seen after one iteration, marking every value the state byte takes. */
  function SeenAfter(seen: set<byte>, s: State, i: Input): set<byte>
    requires Sized(s) && Proper(i)
  {
    if s.hung then seen
    else
      var s0 := BeforeBusEvent(s, i.irq);
      var s1 := Handle(s, i.irq);
      var s2 := UsbTask(s1, i.task);
      Mark(Mark(Mark(Mark(seen, s0.task), s1.task), s2.task), Iterate(s, i).task)
  }

  ghost function Seen(sample: Sample, inputs: seq<Input>): set<byte>
    requires forall k :: 0 <= k < |inputs| ==> Proper(inputs[k])
  {
    if inputs == [] then {Boot(sample).task}
    else SeenAfter(Seen(sample, inputs[..|inputs| - 1]), Run(sample, inputs[..|inputs| - 1]), inputs[|inputs| - 1])
  }

  lemma SuperviseAdvances(s: State, sample: Sample)
    requires Sized(s) && Named(s.task)
    ensures Advances(s.task, Finish(s, sample).task)
  {
    BusProbeNamed(s.(runningFlag := false), sample);
  }

  lemma IterationKeepsOrder(seen: set<byte>, s: State, i: Input)
    requires Inv(s) && Proper(i) && Orderly(s, i) && InOrder(seen, s.task)
    ensures InOrder(SeenAfter(seen, s, i), Iterate(s, i).task)
  {
    if !s.hung {
      var s0, s1 := BeforeBusEvent(s, i.irq), Handle(s, i.irq);
      var s2 := UsbTask(s1, i.task);
      HandlerAdvances(s, i);
      AdvanceKeepsOrder(seen, s.task, s0.task);
      AdvanceKeepsOrder(Mark(seen, s0.task), s0.task, s1.task);
      HandlerKeeps(s, i);
      TaskAdvances(s1, i.task);
      AdvanceKeepsOrder(Mark(Mark(seen, s0.task), s1.task), s1.task, s2.task);
      TaskKeeps(s1, i.task);
      SuperviseAdvances(s2, i.reinit);
      AdvanceKeepsOrder(Mark(Mark(Mark(seen, s0.task), s1.task), s2.task), s2.task, Iterate(s, i).task);
    }
  }

  /** No stage is skipped: in the running state every stage has been passed since the attachment. */
  lemma {:induction false} EnumerationOrder(sample: Sample, inputs: seq<Input>)
    requires forall k :: 0 <= k < |inputs| ==> Proper(inputs[k])
    requires OrderlyRun(sample, inputs)
    ensures InOrder(Seen(sample, inputs), Run(sample, inputs).task)
    ensures Run(sample, inputs).task == RUNNING ==> forall t :: t in Stages() ==> t in Seen(sample, inputs)
  {
    if inputs == [] {
      var t := Boot(sample).task;
      assert t == ATTACHED || t == ILLEGAL || t == WAIT_FOR_DEVICE;
      assert Stages()[0] == ATTACHED;
    } else {
      var n := |inputs| - 1;
      EnumerationOrder(sample, inputs[..n]);
      EnumerationInvariant(sample, inputs[..n]);
      IterationKeepsOrder(Seen(sample, inputs[..n]), Run(sample, inputs[..n]), inputs[n]);
    }
    if Run(sample, inputs).task == RUNNING {
      LastStage(Seen(sample, inputs));
    }
  }

  lemma LastStage(seen: set<byte>)
    requires InOrder(seen, RUNNING)
    ensures forall t :: t in Stages() ==> t in seen
  {
    assert Stages()[8] == RUNNING;
    forall t | t in Stages() ensures t in seen {
      var j :| 0 <= j < |Stages()| && Stages()[j] == t;
    }
  }

  /** A disconnect and a bus event served by one interrupt lead out of the named states. */
  lemma DisconnectWithBusEvent(s: State)
    requires Named(s.task) && Masked(s.task) != DETACHED
    ensures Handle(s, Interrupt(true, true, SE0)).task == 0x02 && !Named(0x02)
    ensures !CountsUp(BeforeBusEvent(s, Interrupt(true, true, SE0)).task)
  {}
}
