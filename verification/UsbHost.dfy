/** The USB host program as an object: its global variables and tables, and the routines that change
    them. Each routine is proved to make the step the enumeration model defines. */
module UsbHost {
  import opened Words
  import opened HidWalk
  import opened UsbStack

  class Host {
    var task: byte
    const devtable: array<DevRecord>
    var tmpAddr: byte
    var hidAddr: byte
    var hidIntf: byte
    var dev0Max: byte
    var hidMax0: byte
    var ep1: EndpointFields
    var runningFlag: bool
    var device: byte
    var hung: bool
    const memory: array<byte>   // bigbuf and the bytes behind it

    ghost predicate Valid()
      reads this
    {
      devtable.Length == NUM_DEVICES + 1 && memory.Length == MEMORY && tmpAddr < NUM_DEVICES
    }

    ghost function View(): State
      reads this, devtable
    {
      State(task, devtable[..], tmpAddr, hidAddr, hidIntf, dev0Max, hidMax0, ep1, runningFlag, device, hung)
    }

    /** Start-up: static initial values, controller initialisation, table initialisation. */
    constructor (sample: Sample)
      ensures Valid() && fresh(devtable) && fresh(memory) && View() == Boot(sample)
    {
      task, tmpAddr, hidAddr, hidIntf, dev0Max, hidMax0 := INITIALIZE, 0, 0, 0, 0, 0;
      ep1 := EndpointFields(0, 0, 0, 0);
      runningFlag, device, hung := false, NO_DEVICE, false;
      devtable := new DevRecord[NUM_DEVICES + 1](_ => DevRecord(Null, 0));
      memory := new byte[MEMORY](_ => 0);
      new;
      MaxBusprobe(sample);
      InitTables();
    }

    method MaxBusprobe(sample: Sample)
      modifies this`task
      ensures View() == BusProbe(old(View()), sample)
    {
      match sample
      case J => if task != WAIT_RESET_COMPLETE { task := ATTACHED; }
      case K => if task != WAIT_RESET_COMPLETE { task := ATTACHED; }
      case SE1 => task := ILLEGAL;
      case SE0 => task := if Masked(task) != DETACHED then INITIALIZE else WAIT_FOR_DEVICE;
    }

    method MaxIntHandler(irq: Interrupt)
      modifies this`task
      ensures View() == Handle(old(View()), irq)
    {
      if irq.Interrupt? {
        if irq.condet {
          MaxBusprobe(irq.sample);
        }
        if irq.busEvent {
          task := (task + 1) % 256;
        }
      }
    }

    method InitTables()
      requires Valid()
      modifies this`dev0Max, devtable
      ensures View() == UsbInit(old(View()))
    {
      var i := 0;
      while i < NUM_DEVICES + 1
        invariant 0 <= i <= NUM_DEVICES + 1
        invariant forall k :: 0 <= k < i ==> devtable[k] == DevRecord(Null, 0)
      {
        devtable[i] := DevRecord(Null, 0);
        i := i + 1;
      }
      devtable[0] := DevRecord(Dev0Ep, 0);
      dev0Max := 0;
      assert devtable[..] == [DevRecord(Dev0Ep, 0)] + Cleared(NUM_DEVICES);
    }

    method Fetch(bytes: seq<byte>)
      requires Valid() && |bytes| == MEMORY
      modifies memory
      ensures memory[..] == bytes
    {
      forall k | 0 <= k < MEMORY {
        memory[k] := bytes[k];
      }
    }

    /** The two fetches and the walk of a HID probe. */
    method ReadConfiguration(protocol: byte, p: ProbeIn) returns (fetched: bool, walk: Walk)
      requires Valid() && Buffers(p)
      modifies memory
      ensures fetched == (p.rcode1 == 0 && p.rcode2 == 0)
      ensures fetched ==> memory[..] == p.mem2 && walk == WalkOf(p.mem2, TotalLength(p.mem1), protocol)
    {
      walk := NoInterface;
      if p.rcode1 != 0 {
        return false, walk;
      }
      Fetch(p.mem1);
      assert memory[2] == p.mem1[2] && memory[3] == p.mem1[3];
      var wTotalLength := memory[2] as int + 256 * (memory[3] as int);
      var total := if wTotalLength > 256 then 256 else wTotalLength;
      if p.rcode2 != 0 {
        return false, walk;
      }
      Fetch(p.mem2);
      ghost var inside;
      walk, inside := WalkConfiguration(memory, total, protocol);
      fetched := true;
    }

    /** The assignments on a matching interface. */
    method SwitchDevice(addr: byte, devclass: byte, intf: byte)
      requires Valid() && addr < NUM_DEVICES
      modifies this`hidMax0, this`hidAddr, this`hidIntf, devtable
      ensures View() == Switched(old(View()), addr, devclass, intf)
    {
      hidMax0 := if devtable[addr].epinfo == HidEp then hidMax0 else dev0Max;
      devtable[addr] := DevRecord(HidEp, devclass);
      hidIntf := intf;
      hidAddr := addr;
    }

    /** Either HID probe. */
    method HidProbe(addr: byte, devclass: byte, protocol: byte, p: ProbeIn) returns (answer: bool)
      requires Valid() && addr < NUM_DEVICES && Buffers(p)
      modifies this`hidMax0, this`hidAddr, this`hidIntf, this`ep1, this`hung, devtable, memory
      ensures View() == ProbeState(old(View()), addr, devclass, protocol, p)
      ensures answer == ProbeAnswer(protocol, p)
    {
      var fetched, walk := ReadConfiguration(protocol, p);
      if !fetched || walk.NoInterface? || walk.WrongClass? {
        return false;
      }
      if walk.Stuck? {
        hung := true;
        return false;
      }
      SwitchDevice(addr, devclass, memory[walk.intf + 2]);
      if walk.NoEndpoint? {
        return false;
      }
      ep1 := FieldsAt(memory[..], walk.endp);
      return p.rcConf == 0 && p.rcProto == 0;
    }

    /** The configuring case: the class drivers in table order. */
    method ConfigureDevice(t: TaskIn)
      requires Valid() && Buffers(t.mouse) && Buffers(t.keyboard)
      modifies this`task, this`hidMax0, this`hidAddr, this`hidIntf, this`ep1, this`hung, devtable, memory
      ensures View() == Configure(old(View()), t)
    {
      var answer := HidProbe(tmpAddr, HID_M, PROTOCOL_MOUSE, t.mouse);
      if hung {
        return;
      }
      if answer {
        task := RUNNING;
        return;
      }
      answer := HidProbe(tmpAddr, HID_K, PROTOCOL_KEYBOARD, t.keyboard);
      if hung {
        return;
      }
      if answer {
        task := RUNNING;
      } else if task == CONFIGURING {
        task := ERROR;
      }
    }

    /** The addressing case: the first free address is tried once. */
    method AssignAddress(t: TaskIn)
      requires Valid()
      modifies this`task, this`tmpAddr, devtable
      ensures View() == Address(old(View()), t)
    {
      ghost var s := View();
      var i := 1;
      while i < NUM_DEVICES
        invariant 1 <= i <= NUM_DEVICES && View() == s
        invariant FreeAddress(s.dev, 1) == FreeAddress(s.dev, i)
      {
        if devtable[i].epinfo == Null {
          devtable[i] := devtable[i].(epinfo := devtable[0].epinfo);
          if t.rcAddr == 0 {
            tmpAddr := i;
            task := CONFIGURING;
          } else {
            task := ERROR;
          }
          return;
        }
        i := i + 1;
      }
      if task == ADDRESSING {
        task := ERROR;
      }
    }

    method RunTask(t: TaskIn)
      requires Valid() && Buffers(t.mouse) && Buffers(t.keyboard)
      modifies this, devtable, memory
      ensures Valid() && View() == UsbTask(old(View()), t)
    {
      if Masked(task) == DETACHED {
        if task == INITIALIZE {
          InitTables();
          task := WAIT_FOR_DEVICE;
        }
      } else if Masked(task) == ATTACHED {
        AttachedTask(t);
      } else if Masked(task) == ADDRESSING {
        AssignAddress(t);
      } else if Masked(task) == CONFIGURING {
        ConfigureDevice(t);
      }
    }

    method AttachedTask(t: TaskIn)
      requires Valid() && Masked(task) == ATTACHED && Buffers(t.mouse) && Buffers(t.keyboard)
      modifies this`task, this`dev0Max
      ensures View() == UsbTask(old(View()), t)
    {
      if task == ATTACHED {
        task := SETTLE;
      } else if task == SETTLE {
        if t.settled { task := RESET_DEVICE; }
      } else if task == RESET_DEVICE {
        task := WAIT_RESET_COMPLETE;
      } else if task == WAIT_RESET_COMPLETE {
        if t.resetDone { task := WAIT_SOF; }
      } else if task == WAIT_SOF {
        task := GET_DESCRIPTOR;
      } else if task == GET_DESCRIPTOR {
        dev0Max := 8;
        if t.rcDescr == 0 {
          dev0Max := t.maxPkt0;
          task := ADDRESSING;
        } else {
          task := ERROR;
        }
      }
    }

    /** The loop over the device table when the running state is first seen. */
    method GetDriver() returns (devclass: byte)
      requires Valid()
      ensures devclass == Report(devtable[..], NUM_DEVICES)
    {
      devclass := NO_DEVICE;
      var i := 1;
      while i < NUM_DEVICES
        invariant 1 <= i <= NUM_DEVICES && devclass == Report(devtable[..], i)
      {
        if devtable[i].epinfo != Null {
          devclass := devtable[i].devclass;
        }
        i := i + 1;
      }
    }

    /** The body of the endless loop. From a state that meets the invariant, with an orderly bus event,
        it comes back to one. */
    method MainIteration(i: Input)
      requires Valid() && Proper(i)
      modifies this, devtable, memory
      ensures Valid() && View() == Iterate(old(View()), i)
      ensures old(Inv(View()) && Orderly(View(), i)) ==> Inv(View())
    {
      ghost var s := View();
      if Inv(s) && Orderly(s, i) {
        IterateKeeps(s, i);
      }
      if hung {
        return;
      }
      MaxIntHandler(i.irq);
      RunTask(i.task);
      if hung {
        return;
      }
      if task == RUNNING {
        if !runningFlag {
          runningFlag := true;
          device := GetDriver();
        }
      } else if task != ERROR && runningFlag {
        runningFlag := false;
        MaxBusprobe(i.reinit);
        InitTables();
      }
    }
  }
}
