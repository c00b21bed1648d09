/** What enumeration makes of a device: which class it is run as, how a healthy one comes to be polled, and what
    failures and the cable do. States, classes and descriptor bytes are written as numbers here. */
module UsbDevices {
  import opened Words
  import opened HidWalk
  import opened UsbStack

  // ----- the configuring state

  /** If both fetches succeed they leave this configuration in the buffer. */
  predicate Holding(p: ProbeIn, ds: seq<Descriptor>) {
    Buffers(p) && (p.rcode1 == 0 && p.rcode2 == 0 ==> Holds(p.mem2, Fetched(p), ds))
  }

  /** Every request of the probe succeeds, and the configuration is that of a boot device of this protocol. */
  predicate Accepts(p: ProbeIn, ds: seq<Descriptor>, protocol: byte) {
    p.rcode1 == 0 && p.rcode2 == 0 && IsBoot(ds, protocol) && p.rcConf == 0 && p.rcProto == 0
  }

  lemma ProbeDecides(s: State, addr: byte, devclass: byte, protocol: byte, p: ProbeIn, ds: seq<Descriptor>)
    requires addr < |s.dev| && Holding(p, ds)
    ensures ProbeAnswer(protocol, p) <==> Accepts(p, ds, protocol)
    ensures var s' := ProbeState(s, addr, devclass, protocol, p);
            && s'.hung == s.hung && s'.task == s.task && s'.tmpAddr == s.tmpAddr && s'.dev0Max == s.dev0Max
            && (Accepts(p, ds, protocol) ==>
                  && s'.dev[addr] == DevRecord(HidEp, devclass) && s'.hidAddr == addr
                  && s'.hidMax0 == (if s.dev[addr].epinfo == HidEp then s.hidMax0 else s.dev0Max))
  {
    if p.rcode1 == 0 && p.rcode2 == 0 {
      ProbeOnWellFormed(s, addr, devclass, protocol, p, ds);
    }
  }

  /** The configuring state (0x30) on well-formed configurations, fetched afresh by either probe. It ends running
      (0x40) with class 2 exactly if the mouse probe's requests succeed and its configuration is that of a boot
      mouse (class 3, subclass 1, protocol 2, then an endpoint); otherwise with class 1 exactly if the same
      holds of the keyboard probe and protocol 1; and otherwise in the error state (0xff). */
  lemma ConfiguringDecides(s: State, t: TaskIn, mouse: seq<Descriptor>, keyboard: seq<Descriptor>)
    requires Sized(s) && !s.hung && s.task == 0x30 && Holding(t.mouse, mouse) && Buffers(t.keyboard)
    requires Accepts(t.mouse, mouse, 2) || Holding(t.keyboard, keyboard)
    ensures var s' := UsbTask(s, t);
            && !s'.hung
            && s'.task == (if Accepts(t.mouse, mouse, 2) || Accepts(t.keyboard, keyboard, 1) then 0x40 else 0xff)
            && (s'.task == 0x40 ==>
                  && s'.tmpAddr == s.tmpAddr == s'.hidAddr && s'.dev[s.tmpAddr].epinfo == HidEp
                  && s'.dev[s.tmpAddr].devclass == if Accepts(t.mouse, mouse, 2) then 2 else 1)
  {
    ProbeDecides(s, s.tmpAddr, HID_M, PROTOCOL_MOUSE, t.mouse, mouse);
    var s1 := ProbeState(s, s.tmpAddr, HID_M, PROTOCOL_MOUSE, t.mouse);
    if !Accepts(t.mouse, mouse, 2) {
      ProbeDecides(s1, s.tmpAddr, HID_K, PROTOCOL_KEYBOARD, t.keyboard, keyboard);
    }
  }

  // ----- the addressing state

  /** The lowest address without a record. */
  predicate IsFree(dev: seq<DevRecord>, a: nat)
    requires |dev| == NUM_DEVICES + 1
  {
    1 <= a < 8 && dev[a].epinfo == Null && forall k :: 1 <= k < a ==> dev[k].epinfo != Null
  }

  /** The addressing state (0x20) gives the lowest free address the endpoint record of device 0. It ends configuring
      (0x30) with that address if the device accepts it, and in the error state if it does not, the address
      being used up; or if no address is free. */
  lemma AddressingDecides(s: State, t: TaskIn)
    requires Sized(s) && s.task == 0x20 && Buffers(t.mouse) && Buffers(t.keyboard)
    ensures var s' := UsbTask(s, t);
            && (forall a: byte :: IsFree(s.dev, a) ==>
                  && s'.dev == s.dev[a := DevRecord(s.dev[0].epinfo, s.dev[a].devclass)]
                  && if t.rcAddr == 0 then s'.task == 0x30 && s'.tmpAddr == a else s'.task == 0xff)
            && ((forall a: byte :: !IsFree(s.dev, a)) ==> s' == s.(task := 0xff))
  {
    var a := FreeAddress(s.dev, 1);
    if a < NUM_DEVICES {
      var b: byte := a;
      assert IsFree(s.dev, b);
    }
  }

  // ----- a device that answers

  /** The state byte at each place of the way from attachment to operation. */
  function StageAt(n: nat): (t: byte)
    requires n <= 8
  {
    [0x10, 0x11, 0x12, 0x13, 0x14, 0x15, 0x20, 0x30, 0x40][n]
  }

  /** No interrupt that moves the state: no bus event, and no change of connection except the one that the bus
      reset causes itself. */
  predicate Harmless(irq: Interrupt, n: nat) {
    irq.Interrupt? ==> !irq.busEvent && (irq.condet ==> n == 3 && (irq.sample == J || irq.sample == K))
  }

  /** The device answers what it is asked at this place: the packet size `size` of its control endpoint, its
      address, or the configuration `ds` of a boot device of this class to the probes that ask. */
  predicate Answering(t: TaskIn, n: nat, devclass: byte, size: byte, ds: seq<Descriptor>) {
    && (n == 5 ==> t.rcDescr == 0 && t.maxPkt0 == size)
    && (n == 6 ==> t.rcAddr == 0)
    && (n == 7 ==> AllWell(t.mouse, ds) && (devclass == 1 ==> AllWell(t.keyboard, ds)))
  }

  predicate AllWell(p: ProbeIn, ds: seq<Descriptor>) {
    && Holding(p, ds)
    && p.rcode1 == 0 && p.rcode2 == 0 && p.rcConf == 0 && p.rcProto == 0
  }

  /** The place after one more iteration: the next one, but the settling time and the bus reset are waited for. */
  function NextPlace(n: nat, t: TaskIn): nat {
    if n == 8 || (n == 1 && !t.settled) || (n == 3 && !t.resetDone) then n else n + 1
  }

  /** At place `n`, with address `a` being given or given to a device of this class and packet size. */
  ghost predicate At(s: State, n: nat, a: nat, devclass: byte, size: byte) {
    && n <= 8 && Inv(s) && !s.hung && s.task == StageAt(n) && 1 <= a < 8
    && (n <= 6 ==> IsFree(s.dev, a))
    && (n >= 6 ==> s.dev0Max == size)
    && (n >= 7 ==> s.tmpAddr == a)
    && (n == 8 ==> Polled(s, a, devclass, size))
  }

  /** The main loop polls this address for reports of this class. */
  predicate Polled(s: State, a: nat, devclass: byte, size: byte)
    requires Sized(s) && 1 <= a < 8
  {
    && s.task == 0x40 && s.runningFlag && s.device == devclass && s.hidAddr == a && s.hidMax0 == size
    && s.dev[a] == DevRecord(HidEp, devclass)
  }

  lemma HarmlessIsOrderly(s: State, i: Input, n: nat)
    requires n <= 8 && s.task == StageAt(n) && Harmless(i.irq, n)
    ensures Handle(s, i.irq) == s && Orderly(s, i)
  {}

  lemma OneProtocolOnly(ds: seq<Descriptor>)
    requires IsBoot(ds, 1)
    ensures !IsBoot(ds, 2)
  {}

  /** A boot device: class 1 is a keyboard and class 2 a mouse, by the protocol numbers of their interfaces. */
  predicate IsDevice(devclass: byte, ds: seq<Descriptor>) {
    devclass in {1, 2} && IsBoot(ds, devclass)
  }

  /** The iteration that finds the driver also starts the polling. */
  lemma HealthyProbe(s: State, i: Input, a: nat, devclass: byte, size: byte, ds: seq<Descriptor>)
    requires At(s, 7, a, devclass, size) && Proper(i) && Harmless(i.irq, 7)
    requires Answering(i.task, 7, devclass, size, ds) && IsDevice(devclass, ds)
    ensures At(Iterate(s, i), 8, a, devclass, size)
  {
    HarmlessIsOrderly(s, i, 7);
    IterateKeeps(s, i);
    if devclass == 1 {
      OneProtocolOnly(ds);
    }
    ConfiguringDecides(s, i.task, ds, ds);
    var s1 := UsbTask(s, i.task);
    assert Iterate(s, i) == s1.(runningFlag := true, device := Report(s1.dev, NUM_DEVICES));
  }

  lemma HealthyAddress(s: State, i: Input, a: nat, devclass: byte, size: byte)
    requires At(s, 6, a, devclass, size) && Proper(i) && Harmless(i.irq, 6) && i.task.rcAddr == 0
    ensures At(Iterate(s, i), 7, a, devclass, size)
  {
    HarmlessIsOrderly(s, i, 6);
    IterateKeeps(s, i);
    AddressingDecides(s, i.task);
    var b: byte := a;
    assert IsFree(s.dev, b);
  }

  lemma HealthyStep(s: State, i: Input, n: nat, a: nat, devclass: byte, size: byte, ds: seq<Descriptor>)
    requires At(s, n, a, devclass, size) && Proper(i) && Harmless(i.irq, n)
    requires Answering(i.task, n, devclass, size, ds) && IsDevice(devclass, ds)
    ensures At(Iterate(s, i), NextPlace(n, i.task), a, devclass, size)
  {
    if n == 6 {
      HealthyAddress(s, i, a, devclass, size);
    } else if n == 7 {
      HealthyProbe(s, i, a, devclass, size, ds);
    } else {
      HarmlessIsOrderly(s, i, n);
      IterateKeeps(s, i);
    }
  }

  // ----- runs of it

  /** Further iterations. */
  function After(s: State, inputs: seq<Input>): (s': State)
    requires Sized(s) && forall k :: 0 <= k < |inputs| ==> Proper(inputs[k])
    ensures Sized(s')
  {
    if inputs == [] then s else Iterate(After(s, inputs[..|inputs| - 1]), inputs[|inputs| - 1])
  }

  /** The place reached from place `n`. */
  function Place(n: nat, inputs: seq<Input>): (m: nat)
    requires n <= 8
    ensures n <= m <= 8
  {
    if inputs == [] then n else NextPlace(Place(n, inputs[..|inputs| - 1]), inputs[|inputs| - 1].task)
  }

  /** Nothing disturbs the way, and the device answers whatever it is asked on it. */
  predicate Healthy(n: nat, inputs: seq<Input>, devclass: byte, size: byte, ds: seq<Descriptor>)
    requires n <= 8
  {
    inputs != [] ==>
      var before, last := inputs[..|inputs| - 1], inputs[|inputs| - 1];
      && Healthy(n, before, devclass, size, ds)
      && Harmless(last.irq, Place(n, before)) && Answering(last.task, Place(n, before), devclass, size, ds)
  }

  /** In how many of these iterations neither the settling time nor the bus reset is still running. */
  function Ready(inputs: seq<Input>): nat {
    if inputs == [] then 0
    else
      var t := inputs[|inputs| - 1].task;
      Ready(inputs[..|inputs| - 1]) + if t.settled && t.resetDone then 1 else 0
  }

  lemma {:induction false} ReadyMovesOn(n: nat, inputs: seq<Input>)
    requires n <= 8
    ensures Place(n, inputs) >= Min(8, n + Ready(inputs))
  {
    if inputs != [] {
      ReadyMovesOn(n, inputs[..|inputs| - 1]);
    }
  }

  lemma NextAfter(s: State, inputs: seq<Input>)
    requires Sized(s) && inputs != [] && forall k :: 0 <= k < |inputs| ==> Proper(inputs[k])
    ensures After(s, inputs) == Iterate(After(s, inputs[..|inputs| - 1]), inputs[|inputs| - 1])
  {}

  /** From any place on the way, the state after any further iterations is at the place the waits allow. */
  lemma {:induction false} StaysOnTheWay(s: State, n: nat, a: nat, devclass: byte, size: byte,
                                         ds: seq<Descriptor>, inputs: seq<Input>)
    requires At(s, n, a, devclass, size) && Healthy(n, inputs, devclass, size, ds) && IsDevice(devclass, ds)
    requires forall k :: 0 <= k < |inputs| ==> Proper(inputs[k])
    ensures At(After(s, inputs), Place(n, inputs), a, devclass, size)
    ensures Place(n, inputs) == 8 ==> Polled(After(s, inputs), a, devclass, size)
  {
    if inputs != [] {
      var before, last := inputs[..|inputs| - 1], inputs[|inputs| - 1];
      StaysOnTheWay(s, n, a, devclass, size, ds, before);
      HealthyStep(After(s, before), last, Place(n, before), a, devclass, size, ds);
      NextAfter(s, inputs);
    }
  }

  /** A healthy device gets there: after as many iterations without a wait as there are places left, the main loop
      polls the device, by its class, at the address it was given, with the packet size it has named. */
  lemma HealthyDeviceRuns(s: State, n: nat, a: nat, devclass: byte, size: byte, ds: seq<Descriptor>,
                          inputs: seq<Input>)
    requires At(s, n, a, devclass, size) && Healthy(n, inputs, devclass, size, ds) && IsDevice(devclass, ds)
    requires forall k :: 0 <= k < |inputs| ==> Proper(inputs[k])
    ensures n + Ready(inputs) >= 8 ==> Polled(After(s, inputs), a, devclass, size)
  {
    if n + Ready(inputs) >= 8 {
      ReadyMovesOn(n, inputs);
      assert Place(n, inputs) == 8;
      StaysOnTheWay(s, n, a, devclass, size, ds, inputs);
    }
  }

  /** In particular one that is there at start-up, at address 1. */
  lemma DeviceAtStartRuns(sample: Sample, devclass: byte, size: byte, ds: seq<Descriptor>, inputs: seq<Input>)
    requires sample == J || sample == K
    requires Healthy(0, inputs, devclass, size, ds) && IsDevice(devclass, ds)
    requires forall k :: 0 <= k < |inputs| ==> Proper(inputs[k])
    ensures Ready(inputs) >= 8 ==> Polled(After(Boot(sample), inputs), 1, devclass, size)
  {
    HealthyDeviceRuns(Boot(sample), 0, 1, devclass, size, ds, inputs);
  }

  // ----- the cable

  predicate Change(i: Input, sample: Sample) {
    Proper(i) && i.irq == Interrupt(true, false, sample) && i.reinit == sample
  }

  /** Unplugging, from whatever attached state: one iteration later nothing is left of the device. */
  lemma UnpluggingForgets(s: State, i: Input)
    requires Inv(s) && !s.hung && s.task >= 0x10 && Change(i, SE0)
    ensures var t := Iterate(s, i);
            && Inv(t) && !t.hung && t.task == 0x03 && !t.runningFlag
            && t.dev0Max == 0 && forall a :: 1 <= a <= 8 ==> t.dev[a] == DevRecord(Null, 0)
  {
    IterateKeeps(s, i);
  }

  /** And plugging in starts the way to operation. */
  lemma PluggingInStarts(s: State, i: Input, a: nat, devclass: byte, size: byte)
    requires Inv(s) && !s.hung && s.task in {0x03, 0x04} && 1 <= a < 8 && IsFree(s.dev, a)
    requires Change(i, J) || Change(i, K)
    ensures At(Iterate(s, i), 1, a, devclass, size)
  {
    IterateKeeps(s, i);
  }

  /** A connection seen while a device is being polled means that it has been exchanged unnoticed: the program starts
      afresh, with every address free. */
  lemma ExchangeStartsAfresh(s: State, i: Input, devclass: byte, size: byte)
    requires Inv(s) && !s.hung && s.runningFlag && (Change(i, J) || Change(i, K))
    ensures var t := Iterate(s, i);
            && At(t, 0, 1, devclass, size)
            && t.dev0Max == 0 && forall a :: 1 <= a <= 8 ==> t.dev[a] == DevRecord(Null, 0)
  {
    IterateKeeps(s, i);
  }

  /** However the last device was left, running, in error or half way: after it is unplugged, the next one, of
      either class, comes to be polled as what it is, at address 1. */
  lemma ReplacedDeviceRuns(s: State, unplug: Input, plug: Input, devclass: byte, size: byte, ds: seq<Descriptor>,
                           inputs: seq<Input>)
    requires Inv(s) && !s.hung && s.task >= 0x10 && Change(unplug, SE0) && (Change(plug, J) || Change(plug, K))
    requires Healthy(1, inputs, devclass, size, ds) && IsDevice(devclass, ds)
    requires forall k :: 0 <= k < |inputs| ==> Proper(inputs[k])
    ensures Sized(Iterate(s, unplug)) && Sized(Iterate(Iterate(s, unplug), plug))
    ensures Ready(inputs) >= 7 ==> Polled(After(Iterate(Iterate(s, unplug), plug), inputs), 1, devclass, size)
  {
    UnpluggingForgets(s, unplug);
    PluggingInStarts(Iterate(s, unplug), plug, 1, devclass, size);
    HealthyDeviceRuns(Iterate(Iterate(s, unplug), plug), 1, 1, devclass, size, ds, inputs);
  }

  /** A bus in the illegal state is waited out: the state byte is 0x04 and nothing but an interrupt changes it; the
      same holds of the wait for a device and of the error state. */
  lemma IllegalBusIsWaitedOut(s: State, i: Input)
    requires Inv(s) && !s.hung && Change(i, SE1)
    ensures var t := Iterate(s, i);
            && Inv(t) && !t.hung && t.task == 0x04 && !t.runningFlag
            && (s.runningFlag ==> forall a :: 1 <= a <= 8 ==> t.dev[a] == DevRecord(Null, 0))
  {
    IterateKeeps(s, i);
  }

  lemma RestsWithoutInterrupt(s: State, i: Input)
    requires Inv(s) && Proper(i) && Harmless(i.irq, 0) && s.task in {0x03, 0x04, 0xff}
    ensures Iterate(s, i) == s
  {}

  /** A failed request on the way leads to the error state: the descriptor's, the address's, or, with no probe
      accepting, those of the probes; so does a table without a free address. */
  lemma FailureIsAnError(s: State, i: Input, mouse: seq<Descriptor>, keyboard: seq<Descriptor>)
    requires Inv(s) && !s.hung && Proper(i) && Harmless(i.irq, 0)
    requires Holding(i.task.mouse, mouse) && Holding(i.task.keyboard, keyboard)
    requires || (s.task == 0x15 && i.task.rcDescr != 0)
             || (s.task == 0x20 && (i.task.rcAddr != 0 || forall a: byte :: !IsFree(s.dev, a)))
             || (s.task == 0x30 && !Accepts(i.task.mouse, mouse, 2) && !Accepts(i.task.keyboard, keyboard, 1))
    ensures Iterate(s, i).task == 0xff && !Iterate(s, i).hung
  {
    if s.task == 0x20 {
      AddressingDecides(s, i.task);
      var a := FreeAddress(s.dev, 1);
      if a < NUM_DEVICES {
        var b: byte := a;
        assert IsFree(s.dev, b);
      }
    } else if s.task == 0x30 {
      ConfiguringDecides(s, i.task, mouse, keyboard);
    }
  }
}
