/** IN transfers and control transfers of the USB host, above the packet dispatcher. The device and the
    bus are a list of outcomes, one for each dispatched packet. */
module UsbTransfer {
  import opened Words

  /** What the host controller shows after one dispatched packet: the dispatcher's return code, the
      data-available bit, the received bytes and the toggle the controller now expects. */
  datatype Outcome = Outcome(rcode: byte, available: bool, packet: seq<byte>, tog1: bool)

  datatype Token = Setup | In | OutHS | InHS

  /** What the host does on its side of the bus. */
  datatype Action =
    | PeripheralAddress(addr: nat)
    | SetToggle(data1: bool)
    | Launch(token: Token, ep: nat)

  const NO_ANSWER: byte := 0xff   // dispatcher deadline
  const RECEIVE_ERROR: byte := 0xf0

  /** Packets fit the byte-wide receive counter. */
  predicate Packets(world: seq<Outcome>) {
    forall i :: 0 <= i < |world| ==> |world[i].packet| < 256
  }

  function Head(world: seq<Outcome>): Outcome {
    if world == [] then Outcome(NO_ANSWER, false, [], false) else world[0]
  }

  function Rest(world: seq<Outcome>, n: nat): seq<Outcome> {
    if n <= |world| then world[n..] else []
  }

  lemma RestRest(world: seq<Outcome>, m: nat, n: nat)
    ensures Rest(Rest(world, m), n) == Rest(world, m + n)
  {}

  // ----- the IN transfer

  /** What happens to the toggle of an endpoint record. */
  datatype Toggle = Keep | Save(data1: bool)

  /** Return code, packets used, bytes stored, and what is saved. */
  datatype InResult = InResult(rcode: byte, used: nat, data: seq<byte>, toggle: Toggle)

  /** The transfer loop. It stops at the first failed packet, the first packet shorter than the
      maximum, or once the 16-bit running length reaches `nbytes`. */
  function InRun(world: seq<Outcome>, nbytes: word, maxPkt: byte, xfrlen: word): (r: InResult)
    ensures 1 <= r.used <= |world| + 1
    ensures r.rcode == 0 ==> r.used <= |world| && r.toggle.Save?
    ensures r.rcode != 0 ==> r.toggle.Keep?
    decreases |world|
  {
    if world == [] then InResult(NO_ANSWER, 1, [], Keep)
    else
      var o := world[0];
      if o.rcode != 0 then InResult(o.rcode, 1, [], Keep)
      else if !o.available then InResult(RECEIVE_ERROR, 1, [], Keep)
      else
        var len := (xfrlen + |o.packet|) % U16;
        if |o.packet| < maxPkt || len >= nbytes then InResult(0, 1, o.packet, Save(o.tog1))
        else
          var rest := InRun(world[1..], nbytes, maxPkt, len);
          InResult(rest.rcode, rest.used + 1, o.packet + rest.data, rest.toggle)
  }

  function Launches(token: Token, ep: nat, n: nat): (s: seq<Action>)
    ensures |s| == n && forall i :: 0 <= i < n ==> s[i] == Launch(token, ep)
  {
    if n == 0 then [] else [Launch(token, ep)] + Launches(token, ep, n - 1)
  }

  lemma {:induction false} LaunchesSnoc(token: Token, ep: nat, n: nat)
    ensures Launches(token, ep, n) + [Launch(token, ep)] == Launches(token, ep, n + 1)
  {
    if n > 0 { LaunchesSnoc(token, ep, n - 1); }
  }

  lemma NextLaunch(log: seq<Action>, ep: nat, n: nat)
    ensures log + Launches(In, ep, n) + [Launch(In, ep)] == log + Launches(In, ep, n + 1)
  {
    LaunchesSnoc(In, ep, n);
    Regroup(log, Launches(In, ep, n), [Launch(In, ep)]);
  }

  /** What the first good packet contributes. */
  lemma InRunUnfold(world: seq<Outcome>, nbytes: word, maxPkt: byte, xfrlen: word)
    requires world != [] && world[0].rcode == 0 && world[0].available
    ensures var r := InRun(world, nbytes, maxPkt, xfrlen);
            var len := (xfrlen + |world[0].packet|) % U16;
            if |world[0].packet| < maxPkt || len >= nbytes
            then r == InResult(0, 1, world[0].packet, Save(world[0].tog1))
            else
              var rest := InRun(world[1..], nbytes, maxPkt, len);
              r == InResult(rest.rcode, rest.used + 1, world[0].packet + rest.data, rest.toggle)
  {}

  /** `r` is the result of a transfer that has used `n` packets, stored `data`, and goes on with `rest`. */
  predicate Resumes(r: InResult, n: nat, data: seq<byte>, rest: InResult) {
    r == InResult(rest.rcode, n + rest.used, data + rest.data, rest.toggle)
  }

  /** What the next packet contributes. */
  lemma NextPacket(r: InResult, n: nat, data: seq<byte>, w0: seq<Outcome>, nbytes: word, maxPkt: byte, xfrlen: word)
    requires Resumes(r, n, data, InRun(Rest(w0, n), nbytes, maxPkt, xfrlen))
    ensures Rest(Rest(w0, n), 1) == Rest(w0, n + 1)
    ensures var o := Head(Rest(w0, n));
            var len := (xfrlen + |o.packet|) % U16;
            if o.rcode != 0 then r == InResult(o.rcode, n + 1, data, Keep)
            else if !o.available then r == InResult(RECEIVE_ERROR, n + 1, data, Keep)
            else if |o.packet| < maxPkt || len >= nbytes then r == InResult(0, n + 1, data + o.packet, Save(o.tog1))
            else n < |w0| && Resumes(r, n + 1, data + o.packet, InRun(Rest(w0, n + 1), nbytes, maxPkt, len))
  {
    var world := Rest(w0, n);
    RestRest(w0, n, 1);
    if world != [] && world[0].rcode == 0 && world[0].available {
      InRunUnfold(world, nbytes, maxPkt, xfrlen);
      var o := world[0];
      Regroup(data, o.packet, InRun(world[1..], nbytes, maxPkt, (xfrlen + |o.packet|) % U16).data);
    }
  }

  /** The endpoint records the transfer routines use. The maximum packet size is a 16-bit field that
      the transfer routine receives as a byte. */
  datatype Endpoint = Endpoint(maxPktSize: word, rcvToggle: bool)

  type Epid = (nat, nat)   // record, endpoint number

  /** Return code, packets used, data, and the toggle value endpoint record is left with. */
  datatype CtrlResult = CtrlResult(rcode: byte, used: nat, data: seq<byte>, toggle: Toggle, dataStage: nat)

  /** The control transfer over a list of outcomes; `dataStage` counts its IN packets. */
  function CtrlRun(world: seq<Outcome>, toHost: bool, nbytes: word, maxPkt: byte, buffer: bool): CtrlResult {
    if Head(world).rcode != 0 then CtrlResult(Head(world).rcode, 1, [], Keep, 0)
    else if !buffer then CtrlResult(Head(Rest(world, 1)).rcode, 2, [], Keep, 0)
    else if !toHost then CtrlResult(0xff, 1, [], Keep, 0)
    else
      var r := InRun(Rest(world, 1), nbytes, maxPkt, 0);
      if r.rcode != 0 then CtrlResult(r.rcode, 1 + r.used, r.data, Save(true), r.used)
      else CtrlResult(Head(Rest(world, 1 + r.used)).rcode, 2 + r.used, r.data, r.toggle, r.used)
  }

  /** The bus actions of a control transfer with the given result. */
  function CtrlTrace(ep: nat, toHost: bool, buffer: bool, r: CtrlResult): seq<Action> {
    if r.used == 1 then [Launch(Setup, ep)]
    else if !buffer then [Launch(Setup, ep)] + [Launch(if toHost then OutHS else InHS, ep)]
    else
      var stage := [Launch(Setup, ep), SetToggle(true)] + Launches(In, ep, r.dataStage);
      if r.used == 1 + r.dataStage then stage else stage + [Launch(OutHS, ep)]
  }

  lemma DataStageLog(log0: seq<Action>, log: seq<Action>, ep: nat, r: InResult)
    requires log == if r.rcode != 0
                    then log0 + [Launch(Setup, ep)] + [SetToggle(true)] + Launches(In, ep, r.used)
                    else log0 + [Launch(Setup, ep)] + [SetToggle(true)] + Launches(In, ep, r.used) + [Launch(OutHS, ep)]
    ensures var stage := [Launch(Setup, ep), SetToggle(true)] + Launches(In, ep, r.used);
            log == log0 + if r.rcode != 0 then stage else stage + [Launch(OutHS, ep)]
  {
    var stage := [Launch(Setup, ep), SetToggle(true)] + Launches(In, ep, r.used);
    assert log0 + [Launch(Setup, ep)] + [SetToggle(true)] + Launches(In, ep, r.used) == log0 + stage;
    Regroup(log0, stage, [Launch(OutHS, ep)]);
  }

  function SaveToggle(epinfo: map<Epid, Endpoint>, id: Epid, toggle: Toggle): map<Epid, Endpoint>
    requires id in epinfo
  {
    match toggle
    case Keep => epinfo
    case Save(data1) => epinfo[id := epinfo[id].(rcvToggle := data1)]
  }

  /** The device table points to endpoint records, and several devices may share one: a device that is
      being addressed uses the record of device 0. */
  class Host {
    const devtable: map<nat, nat>
    var epinfo: map<Epid, Endpoint>
    var world: seq<Outcome>
    var log: seq<Action>

    constructor (devtable: map<nat, nat>, epinfo: map<Epid, Endpoint>, world: seq<Outcome>)
      ensures this.devtable == devtable && this.epinfo == epinfo && this.world == world && log == []
    {
      this.devtable, this.epinfo, this.world, log := devtable, epinfo, world, [];
    }

    function At(addr: nat, ep: nat): Epid
      requires addr in devtable
    {
      (devtable[addr], ep)
    }

    /** One packet through the dispatcher. */
    method Dispatch(token: Token, ep: nat) returns (o: Outcome)
      modifies this`world, this`log
      ensures log == old(log) + [Launch(token, ep)]
      ensures o == Head(old(world)) && world == Rest(old(world), 1)
    {
      log := log + [Launch(token, ep)];
      o := Head(world);
      world := Rest(world, 1);
    }

    /** IN packet number `n` of a transfer. */
    method NextIn(ep: nat, ghost w0: seq<Outcome>, ghost log1: seq<Action>, ghost n: nat) returns (o: Outcome)
      requires world == Rest(w0, n) && log == log1 + Launches(In, ep, n)
      modifies this`world, this`log
      ensures o == Head(Rest(w0, n)) && world == Rest(w0, n + 1) && log == log1 + Launches(In, ep, n + 1)
    {
      NextLaunch(log1, ep, n);
      RestRest(w0, n, 1);
      o := Dispatch(In, ep);
    }

    method XferInTransfer(addr: nat, ep: nat, nbytes: word, maxPktSize: byte)
      returns (rcode: byte, data: seq<byte>)
      requires addr in devtable && At(addr, ep) in epinfo
      modifies this
      ensures var r := InRun(old(world), nbytes, maxPktSize, 0);
              && rcode == r.rcode && data == r.data && world == Rest(old(world), r.used)
              && log == old(log) + [SetToggle(old(epinfo)[At(addr, ep)].rcvToggle)] + Launches(In, ep, r.used)
              && epinfo == SaveToggle(old(epinfo), At(addr, ep), r.toggle)
    {
      ghost var w0, r, n := world, InRun(world, nbytes, maxPktSize, 0), 0;
      log := log + [SetToggle(epinfo[At(addr, ep)].rcvToggle)];
      ghost var log1 := log;
      var xfrlen: word := 0;
      data := [];
      while true
        invariant world == Rest(w0, n) && epinfo == old(epinfo)
        invariant log == log1 + Launches(In, ep, n)
        invariant Resumes(r, n, data, InRun(Rest(w0, n), nbytes, maxPktSize, xfrlen))
        decreases |w0| + 1 - n
      {
        NextPacket(r, n, data, w0, nbytes, maxPktSize, xfrlen);
        var o := NextIn(ep, w0, log1, n);
        n := n + 1;
        if o.rcode != 0 {
          return o.rcode, data;
        }
        if !o.available {
          return RECEIVE_ERROR, data;
        }
        data := data + o.packet;
        xfrlen := (xfrlen + |o.packet|) % U16;
        if |o.packet| < maxPktSize || xfrlen >= nbytes {
          epinfo := epinfo[At(addr, ep) := epinfo[At(addr, ep)].(rcvToggle := o.tog1)];
          return 0, data;
        }
      }
    }

    /** The keyboard and mouse polls: one 8-byte transfer from endpoint 1. */
    method PollReport(addr: nat) returns (rcode: byte, data: seq<byte>)
      requires addr in devtable && At(addr, 1) in epinfo
      modifies this
      ensures rcode != 0 ==> epinfo == old(epinfo)
      ensures epinfo - {At(addr, 1)} == old(epinfo) - {At(addr, 1)}
      ensures var r := InRun(old(world), 8, old(epinfo)[At(addr, 1)].maxPktSize % 256, 0);
              && (rcode == 0 ==> At(addr, 1) in epinfo && Save(epinfo[At(addr, 1)].rcvToggle) == r.toggle)
              && rcode == r.rcode && data == r.data && world == Rest(old(world), r.used)
              && log == old(log) + [PeripheralAddress(addr), SetToggle(old(epinfo)[At(addr, 1)].rcvToggle)]
                        + Launches(In, 1, r.used)
              && epinfo == SaveToggle(old(epinfo), At(addr, 1), r.toggle)
    {
      ghost var log0 := log;
      log := log + [PeripheralAddress(addr)];
      ghost var toggle := epinfo[At(addr, 1)].rcvToggle;
      rcode, data := XferInTransfer(addr, 1, 8, epinfo[At(addr, 1)].maxPktSize % 256);
      assert log0 + [PeripheralAddress(addr), SetToggle(toggle)]
          == log0 + [PeripheralAddress(addr)] + [SetToggle(toggle)];
    }

    /** A control request: SETUP, then the data stage if there is a buffer, then the status stage. A
        data stage towards the device is not implemented. */
    method XferCtrlReq(addr: nat, ep: nat, toHost: bool, nbytes: word, buffer: bool)
      returns (rcode: byte, data: seq<byte>)
      requires addr in devtable && At(addr, ep) in epinfo
      modifies this
      ensures var r := CtrlRun(old(world), toHost, nbytes, old(epinfo)[At(addr, ep)].maxPktSize % 256, buffer);
              && rcode == r.rcode && data == r.data && world == Rest(old(world), r.used)
              && log == old(log) + [PeripheralAddress(addr)] + CtrlTrace(ep, toHost, buffer, r)
              && epinfo == SaveToggle(old(epinfo), At(addr, ep), r.toggle)
    {
      data := [];
      log := log + [PeripheralAddress(addr)];
      ghost var log0, w0 := log, world;
      var o := Dispatch(Setup, ep);
      if o.rcode != 0 {
        return o.rcode, data;
      }
      if !buffer {
        o := Dispatch(if toHost then OutHS else InHS, ep);
        Regroup(log0, [Launch(Setup, ep)], [Launch(if toHost then OutHS else InHS, ep)]);
        return o.rcode, data;
      }
      if !toHost {
        return 0xff, data;
      }
      rcode, data := DataStage(addr, ep, nbytes);
      ghost var r := InRun(Rest(w0, 1), nbytes, old(epinfo)[At(addr, ep)].maxPktSize % 256, 0);
      DataStageLog(log0, log, ep, r);
      RestRest(w0, 1, r.used);
      RestRest(w0, 1 + r.used, 1);
    }

    /** The data stage towards the host, starting with DATA1, and its status packet. */
    method DataStage(addr: nat, ep: nat, nbytes: word) returns (rcode: byte, data: seq<byte>)
      requires addr in devtable && At(addr, ep) in epinfo
      modifies this
      ensures var r := InRun(old(world), nbytes, old(epinfo)[At(addr, ep)].maxPktSize % 256, 0);
              && data == r.data
              && epinfo == SaveToggle(old(epinfo), At(addr, ep), if r.rcode == 0 then r.toggle else Save(true))
              && (r.rcode != 0 ==>
                    && rcode == r.rcode && world == Rest(old(world), r.used)
                    && log == old(log) + [SetToggle(true)] + Launches(In, ep, r.used))
              && (r.rcode == 0 ==>
                    && rcode == Head(Rest(old(world), r.used)).rcode && world == Rest(Rest(old(world), r.used), 1)
                    && log == old(log) + [SetToggle(true)] + Launches(In, ep, r.used) + [Launch(OutHS, ep)])
    {
      epinfo := epinfo[At(addr, ep) := epinfo[At(addr, ep)].(rcvToggle := true)];
      rcode, data := XferInTransfer(addr, ep, nbytes, epinfo[At(addr, ep)].maxPktSize % 256);
      if rcode != 0 {
        return;
      }
      var o := Dispatch(OutHS, ep);
      rcode := o.rcode;
    }
  }

  /** Section 8.5.3 of the USB 2.0 specification: a control transfer is SETUP, optionally a data stage that starts
      with DATA1, and a status packet in the direction opposite to the data. */
  predicate WellFormed(trace: seq<Action>, ep: nat, k: nat) {
    || trace == [Launch(Setup, ep), Launch(InHS, ep)]
    || trace == [Launch(Setup, ep), Launch(OutHS, ep)]
    || (k > 0 && trace == [Launch(Setup, ep), SetToggle(true)] + Launches(In, ep, k) + [Launch(OutHS, ep)])
  }

  /** A failed request ends with the packet that failed, and returns its code, the receive error of a packet without
      data, or 0xff for the data stage that is not implemented. */
  lemma FailureEndsRequest(world: seq<Outcome>, toHost: bool, nbytes: word, maxPkt: byte, buffer: bool)
    ensures var r := CtrlRun(world, toHost, nbytes, maxPkt, buffer);
            && 1 <= r.used <= |world| + 1
            && (forall i :: 0 <= i < r.used - 1 ==> world[i].rcode == 0)
            && (r.rcode != 0 ==>
                  || (r.used > |world| && r.rcode == 0xff)
                  || (r.used <= |world| && r.rcode == world[r.used - 1].rcode)
                  || (r.used <= |world| && r.rcode == 0xf0 && r.used == 1 + r.dataStage && !world[r.used - 1].available)
                  || (r.used == 1 && buffer && !toHost && r.rcode == 0xff))
            && (buffer && !toHost ==> r.rcode != 0 && r.used == 1)
            && (r.toggle.Keep? <==> r.dataStage == 0)
            && (0 < r.dataStage == r.used - 1 ==> r.rcode != 0 && r.toggle == Save(true))
            && (0 < r.dataStage < r.used - 1 ==> r.toggle == Save(world[r.dataStage].tog1))
  {
    if Head(world).rcode == 0 && buffer && toHost {
      InRunEnds(Rest(world, 1), nbytes, maxPkt, 0);
      var k := InRun(Rest(world, 1), nbytes, maxPkt, 0).used - 1;
      forall i | 0 < i < k + 1 ensures world[i].rcode == 0 {
        assert GoesOn(Rest(world, 1), nbytes, maxPkt, 0, i - 1);
      }
    }
  }

  lemma SuccessIsWellFormed(world: seq<Outcome>, ep: nat, toHost: bool, nbytes: word, maxPkt: byte, buffer: bool)
    ensures var r := CtrlRun(world, toHost, nbytes, maxPkt, buffer);
            r.rcode == 0 ==>
              && WellFormed(CtrlTrace(ep, toHost, buffer, r), ep, r.dataStage)
              && (buffer ==> toHost && r.dataStage > 0)
              && (!buffer ==>
                    CtrlTrace(ep, toHost, buffer, r) == [Launch(Setup, ep), Launch(if toHost then OutHS else InHS, ep)])
              && r.used <= |world|
              && forall i :: 0 <= i < r.used ==> world[i].rcode == 0
  {
    var r := CtrlRun(world, toHost, nbytes, maxPkt, buffer);
    if r.rcode == 0 && buffer {
      InRunAllGood(Rest(world, 1), nbytes, maxPkt, 0);
      forall i | 0 <= i < r.used ensures world[i].rcode == 0 {
        if 0 < i < r.used - 1 {
          assert Rest(world, 1)[i - 1] == world[i];
        }
      }
    }
  }

  function Concat(world: seq<Outcome>, n: nat): seq<byte>
    requires n <= |world|
  {
    if n == 0 then [] else Concat(world, n - 1) + world[n - 1].packet
  }

  lemma {:induction false} ConcatCons(world: seq<Outcome>, n: nat)
    requires 0 < n <= |world|
    ensures Concat(world, n) == world[0].packet + Concat(world[1..], n - 1)
    decreases n
  {
    if n > 1 {
      ConcatCons(world, n - 1);
      Regroup(world[0].packet, Concat(world[1..], n - 2), world[n - 1].packet);
    }
  }

  /** A successful transfer accepted every packet, and its buffer is their concatenation. */
  lemma {:induction false} InRunAllGood(world: seq<Outcome>, nbytes: word, maxPkt: byte, xfrlen: word)
    ensures var r := InRun(world, nbytes, maxPkt, xfrlen);
            r.rcode == 0 ==>
              && r.used <= |world| && r.data == Concat(world, r.used)
              && (forall i :: 0 <= i < r.used ==> world[i].rcode == 0 && world[i].available)
              && r.toggle == Save(world[r.used - 1].tog1)
    decreases |world|
  {
    var r := InRun(world, nbytes, maxPkt, xfrlen);
    if r.rcode == 0 {
      InRunUnfold(world, nbytes, maxPkt, xfrlen);
      if r.used == 1 {
        assert Concat(world, 1) == Concat(world, 0) + world[0].packet;
      } else {
        InRunAllGood(world[1..], nbytes, maxPkt, (xfrlen + |world[0].packet|) % U16);
        ConcatCons(world, r.used);
        assert world[r.used - 1] == world[1..][r.used - 2];
        forall i | 1 <= i < r.used ensures world[i].rcode == 0 && world[i].available {
          assert world[i] == world[1..][i - 1];
        }
      }
    }
  }

  /** How every transfer ends, failed ones included. All packets but the last are good, full, and leave the 16-bit
      length below what was asked for. The last one fails with the dispatcher's code (0xff if nothing answers any
      more), or brings no data (0xf0), or is short or completes the request (0). Exactly the good packets are
      stored, and the toggle is saved only on success. */
  lemma {:induction false} InRunEnds(world: seq<Outcome>, nbytes: word, maxPkt: byte, xfrlen: word)
    ensures var r := InRun(world, nbytes, maxPkt, xfrlen); var k := r.used - 1;
            && 0 <= k <= |world|
            && (forall i :: 0 <= i < k ==> GoesOn(world, nbytes, maxPkt, xfrlen, i))
            && (if k == |world| then r == InResult(0xff, k + 1, Concat(world, k), Keep)
                else if world[k].rcode != 0 then r == InResult(world[k].rcode, k + 1, Concat(world, k), Keep)
                else if !world[k].available then r == InResult(0xf0, k + 1, Concat(world, k), Keep)
                else !GoesOn(world, nbytes, maxPkt, xfrlen, k)
                     && r == InResult(0, k + 1, Concat(world, k + 1), Save(world[k].tog1)))
    decreases |world|
  {
    if world == [] {
    } else if world[0].rcode != 0 || !world[0].available {
      assert Concat(world, 0) == [];
    } else {
      InRunUnfold(world, nbytes, maxPkt, xfrlen);
      assert Concat(world, 1) == Concat(world, 0) + world[0].packet;
      if GoesOn(world, nbytes, maxPkt, xfrlen, 0) {
        var len := (xfrlen + |world[0].packet|) % U16;
        var k := InRun(world[1..], nbytes, maxPkt, len).used - 1;
        InRunEnds(world[1..], nbytes, maxPkt, len);
        forall i | 0 < i <= k ensures GoesOn(world, nbytes, maxPkt, xfrlen, i) {
          GoesOnLater(world, nbytes, maxPkt, xfrlen, i - 1);
        }
        ConcatCons(world, k + 1);
        if k < |world| - 1 {
          GoesOnLater(world, nbytes, maxPkt, xfrlen, k);
          ConcatCons(world, k + 2);
        }
      }
    }
  }

  /** Packet `i` is good and full, and what has been received with it is less than was asked for. */
  predicate GoesOn(world: seq<Outcome>, nbytes: word, maxPkt: byte, xfrlen: word, i: nat)
    requires i < |world|
  {
    && world[i].rcode == 0 && world[i].available && |world[i].packet| >= maxPkt
    && (xfrlen + |Concat(world, i + 1)|) % 0x1_0000 < nbytes
  }

  lemma GoesOnLater(world: seq<Outcome>, nbytes: word, maxPkt: byte, xfrlen: word, i: nat)
    requires i < |world| - 1
    ensures GoesOn(world, nbytes, maxPkt, xfrlen, i + 1)
         == GoesOn(world[1..], nbytes, maxPkt, (xfrlen + |world[0].packet|) % U16, i)
  {
    ConcatCons(world, i + 2);
    SumTruncated(xfrlen + |world[0].packet|, |Concat(world[1..], i + 1)|);
  }

  lemma SumTruncated(a: nat, b: nat)
    ensures (a % U16 + b) % U16 == (a + b) % U16
  {
    DivMod(a, U16);
    DivMod(a % U16 + b, U16);
    ModIsUnique(a + b, a / U16 + (a % U16 + b) / U16, (a % U16 + b) % U16, U16);
  }

  /** A full packet cannot make the 16-bit length wrap. */
  predicate CannotWrap(nbytes: word, maxPkt: byte) {
    nbytes <= U16 - 255 || maxPkt == 255
  }

  /** Termination: with a positive packet size and a running length that cannot wrap, every packet but
      the last is full, so their number is bounded by the bytes asked for, whatever the device does. */
  lemma {:induction false} InRunIsBounded(world: seq<Outcome>, nbytes: word, maxPkt: byte, xfrlen: word)
    requires maxPkt > 0 && CannotWrap(nbytes, maxPkt) && Packets(world)
    requires xfrlen < nbytes || xfrlen == 0
    requires maxPkt == 255 ==> xfrlen % 255 == 0
    ensures (InRun(world, nbytes, maxPkt, xfrlen).used - 1) * maxPkt + xfrlen <= Max(nbytes, xfrlen)
    decreases |world|
  {
    var r := InRun(world, nbytes, maxPkt, xfrlen);
    if r.used > 1 {
      InRunUnfold(world, nbytes, maxPkt, xfrlen);
      var size := |world[0].packet|;
      NoWrap(nbytes, maxPkt, xfrlen, size);
      InRunIsBounded(world[1..], nbytes, maxPkt, xfrlen + size);
      assert (r.used - 2 + 1) * maxPkt == (r.used - 2) * maxPkt + maxPkt;
    }
  }

  lemma NoWrap(nbytes: word, maxPkt: byte, xfrlen: word, size: nat)
    requires maxPkt > 0 && CannotWrap(nbytes, maxPkt) && maxPkt <= size < 256
    requires xfrlen < nbytes || xfrlen == 0
    requires maxPkt == 255 ==> xfrlen % 255 == 0
    ensures (xfrlen + size) % U16 == xfrlen + size < U16
    ensures maxPkt == 255 ==> (xfrlen + size) % 255 == 0
  {}

  function Max(a: int, b: int): int {
    if a >= b then a else b
  }

  /** With packet size 0 and empty packets the loop uses up every answer there is. */
  lemma {:induction false} ZeroPacketSizeNeverEnds(world: seq<Outcome>, nbytes: word)
    requires nbytes > 0
    requires forall i :: 0 <= i < |world| ==> world[i].rcode == 0 && world[i].available && world[i].packet == []
    ensures InRun(world, nbytes, 0, 0).used == |world| + 1
    decreases |world|
  {
    if world != [] {
      ZeroPacketSizeNeverEnds(world[1..], nbytes);
    }
  }

  // 254 packets of 254 bytes and four of 255 make exactly 2^16 bytes.
  const CYCLE: nat := 258

  function NextOf(phase: nat): nat {
    if phase == CYCLE - 1 then 0 else phase + 1
  }

  function PhaseLength(phase: nat): nat {
    if phase <= 254 then 254 * phase else 64516 + 255 * (phase - 254)
  }

  /** A device that fills the 16-bit length exactly, over and over. */
  function Endless(n: nat, phase: nat): (w: seq<Outcome>)
    requires phase < CYCLE
    ensures |w| == n && Packets(w)
  {
    if n == 0 then []
    else [Outcome(0, true, Zeros(if phase < 254 then 254 else 255), false)] + Endless(n - 1, NextOf(phase))
  }

  lemma NextPhase(phase: nat)
    requires phase < CYCLE
    ensures var size := if phase < 254 then 254 else 255;
            (PhaseLength(phase) + size) % U16 == PhaseLength(NextOf(phase)) <= U16 - 255
  {
    if phase == CYCLE - 1 {
      assert PhaseLength(phase) + 255 == U16;
    } else {
      assert PhaseLength(phase) + (if phase < 254 then 254 else 255) == PhaseLength(phase + 1) < U16;
    }
  }

  /** Against it the loop uses up every answer there is. */
  lemma {:induction false} WrappedLengthNeverEnds(n: nat, phase: nat, nbytes: word, maxPkt: byte)
    requires phase < CYCLE && nbytes > U16 - 255 && maxPkt < 255
    ensures InRun(Endless(n, phase), nbytes, maxPkt, PhaseLength(phase)).used == n + 1
  {
    if n > 0 {
      var w, next := Endless(n, phase), NextOf(phase);
      NextPhase(phase);
      assert w[0].available && w[1..] == Endless(n - 1, next);
      InRunUnfold(w, nbytes, maxPkt, PhaseLength(phase));
      WrappedLengthNeverEnds(n - 1, next, nbytes, maxPkt);
    }
  }

  /** With packet size 0 a device that sends empty packets. */
  function Nothings(n: nat): (w: seq<Outcome>)
    ensures |w| == n && forall i :: 0 <= i < n ==> w[i] == Outcome(0, true, [], false)
  {
    if n == 0 then [] else [Outcome(0, true, [], false)] + Nothings(n - 1)
  }

  /** No device can make the transfer use more than `bound` packets. */
  ghost predicate EndsWithin(nbytes: word, maxPkt: byte, bound: nat) {
    forall world :: Packets(world) ==> InRun(world, nbytes, maxPkt, 0).used <= bound
  }

  lemma UsedAtMost(world: seq<Outcome>, nbytes: word, maxPkt: byte)
    requires Packets(world) && (nbytes == 0 || (maxPkt > 0 && CannotWrap(nbytes, maxPkt)))
    ensures InRun(world, nbytes, maxPkt, 0).used <= nbytes + 1
  {
    if nbytes > 0 {
      InRunIsBounded(world, nbytes, maxPkt, 0);
      MulMono(1, maxPkt, InRun(world, nbytes, maxPkt, 0).used - 1);
    }
  }

  /** A device that makes the transfer go on for any number of packets, when one exists. */
  lemma EndlessDevice(nbytes: word, maxPkt: byte, n: nat) returns (world: seq<Outcome>)
    requires nbytes > 0 && (maxPkt == 0 || !CannotWrap(nbytes, maxPkt))
    ensures Packets(world) && InRun(world, nbytes, maxPkt, 0).used == n + 1
  {
    if maxPkt == 0 {
      world := Nothings(n);
      ZeroPacketSizeNeverEnds(world, nbytes);
    } else {
      world := Endless(n, 0);
      WrappedLengthNeverEnds(n, 0, nbytes, maxPkt);
    }
  }

  /** The loop ends within some bound that does not depend on the device exactly when nothing is asked for, or
      the packet size is positive and the length cannot wrap; `nbytes` + 1 is then such a bound. */
  lemma InTransferEndsIff(nbytes: word, maxPkt: byte)
    ensures (exists b: nat :: EndsWithin(nbytes, maxPkt, b))
       <==> nbytes == 0 || (maxPkt > 0 && CannotWrap(nbytes, maxPkt))
    ensures (exists b: nat :: EndsWithin(nbytes, maxPkt, b)) ==> EndsWithin(nbytes, maxPkt, nbytes + 1)
  {
    if nbytes == 0 || (maxPkt > 0 && CannotWrap(nbytes, maxPkt)) {
      forall world | Packets(world) ensures InRun(world, nbytes, maxPkt, 0).used <= nbytes + 1 {
        UsedAtMost(world, nbytes, maxPkt);
      }
      assert EndsWithin(nbytes, maxPkt, nbytes + 1);
    } else {
      forall b: nat ensures !EndsWithin(nbytes, maxPkt, b) {
        var world := EndlessDevice(nbytes, maxPkt, b);
      }
    }
  }

  // ----- what is stored beyond the bytes asked for

  /** A device, with the controller, whose packets have at most `most` bytes. */
  predicate AtMost(world: seq<Outcome>, most: byte) {
    forall i :: 0 <= i < |world| ==> |world[i].packet| <= most
  }

  /** When no such device can make the loop store more than was asked for. A packet is stored whole, so either
      the first one ends the transfer and has room, or full packets fill the buffer exactly. */
  predicate HasRoom(nbytes: word, maxPkt: byte, most: byte) {
    || most == 0
    || (most < maxPkt && most <= nbytes)
    || (nbytes > 0 && most == maxPkt && nbytes % most == 0)
    || (nbytes > 0 && most == 1 && maxPkt == 0)
  }

  lemma MissingIsAtLeast(x: nat, m: nat)
    requires x > 0 && m > 0 && x % m == 0
    ensures x >= m
  {}

  lemma LessMissing(x: nat, m: nat)
    requires m > 0 && x % m == 0 && x >= m
    ensures (x - m) % m == 0
  {
    DivMod(x, m);
    ModIsUnique(x - m, x / m - 1, 0, m);
  }

  /** How much a transfer stores, by its next outcome. */
  lemma DataLength(world: seq<Outcome>, nbytes: word, maxPkt: byte, xfrlen: word)
    requires world != []
    ensures var o, r := world[0], InRun(world, nbytes, maxPkt, xfrlen); var len := (xfrlen + |o.packet|) % U16;
            |r.data| ==
              if o.rcode != 0 || !o.available then 0
              else if |o.packet| < maxPkt || len >= nbytes then |o.packet|
              else |o.packet| + |InRun(world[1..], nbytes, maxPkt, len).data|
  {
    if world[0].rcode == 0 && world[0].available {
      InRunUnfold(world, nbytes, maxPkt, xfrlen);
    }
  }

  lemma FirstAtMost(world: seq<Outcome>, most: byte)
    requires AtMost(world, most) && world != []
    ensures |world[0].packet| <= most && AtMost(world[1..], most)
  {}

  lemma NoWordWrap(x: nat)
    requires x < U16
    ensures x % U16 == x
  {}

  /** With packets of at most one packet size, which divides what is missing, the buffer is never overrun. */
  lemma {:induction false} FullPacketsFit(world: seq<Outcome>, nbytes: word, maxPkt: byte, most: byte, xfrlen: word)
    requires AtMost(world, most) && most > 0 && xfrlen < nbytes && (nbytes - xfrlen) % most == 0
    requires most == maxPkt || (most == 1 && maxPkt == 0)
    ensures |InRun(world, nbytes, maxPkt, xfrlen).data| <= nbytes - xfrlen
    decreases |world|
  {
    if world != [] {
      var size := |world[0].packet|;
      FirstAtMost(world, most);
      MissingIsAtLeast(nbytes - xfrlen, most);
      NoWordWrap(xfrlen + size);
      DataLength(world, nbytes, maxPkt, xfrlen);
      if size >= maxPkt && xfrlen + size < nbytes {
        LessMissing(nbytes - xfrlen, most);
        FullPacketsFit(world[1..], nbytes, maxPkt, most, xfrlen + size);
      }
    }
  }

  /** A packet of `n` bytes. */
  function Sends(n: nat): (o: Outcome)
    ensures |o.packet| == n
  {
    Outcome(0, true, Zeros(n), false)
  }

  lemma StoresFirst(world: seq<Outcome>, n: nat, nbytes: word, maxPkt: byte, xfrlen: word)
    ensures var r := |InRun([Sends(n)] + world, nbytes, maxPkt, xfrlen).data|;
            && r >= n
            && (n >= maxPkt && xfrlen + n < nbytes ==> r == n + |InRun(world, nbytes, maxPkt, xfrlen + n).data|)
  {
    var w := [Sends(n)] + world;
    assert w[0] == Sends(n) && w[1..] == world;
    DataLength(w, nbytes, maxPkt, xfrlen);
    if xfrlen + n < nbytes {
      NoWordWrap(xfrlen + n);
    }
  }

  lemma OneMorePacket(world: seq<Outcome>, n: nat, most: byte)
    requires AtMost(world, most) && n <= most
    ensures AtMost([Sends(n)] + world, most)
  {}

  lemma StillMissing(x: nat, m: nat)
    requires m > 0 && x % m != 0 && x >= m
    ensures (x - m) % m != 0
  {
    DivMod(x - m, m);
    if (x - m) % m == 0 {
      ModIsUnique(x, (x - m) / m + 1, 0, m);
    }
  }

  /** With `x` bytes missing, the largest packet does not fill the buffer exactly, unless a shorter one is a full
      packet too; and neither does what comes after it. */
  lemma NotExactly(x: nat, maxPkt: byte, most: byte)
    requires x > 0 && most > 0 && if most == maxPkt then x % most != 0 else most > 1
    ensures most == maxPkt ==> x != most && (x >= most ==> (x - most) % most != 0)
  {
    if most == maxPkt {
      if x == most {
        ModIsUnique(x, 1, 0, most);
      }
      if x >= most {
        StillMissing(x, most);
      }
    }
  }

  lemma OverrunWith(world: seq<Outcome>, n: nat, nbytes: word, maxPkt: byte, most: byte, xfrlen: word)
    requires AtMost(world, most) && n <= most && xfrlen < nbytes
    requires if xfrlen + n < nbytes
             then n >= maxPkt && |InRun(world, nbytes, maxPkt, xfrlen + n).data| > nbytes - xfrlen - n
             else n > nbytes - xfrlen
    ensures AtMost([Sends(n)] + world, most)
    ensures |InRun([Sends(n)] + world, nbytes, maxPkt, xfrlen).data| > nbytes - xfrlen
  {
    StoresFirst(world, n, nbytes, maxPkt, xfrlen);
    OneMorePacket(world, n, most);
  }

  /** Otherwise some device overruns the buffer: full packets up to the last one, which does not fit; if they
      would fit exactly, one of them a byte shorter. */
  lemma {:induction false} Overrun(nbytes: word, maxPkt: byte, most: byte, xfrlen: word) returns (world: seq<Outcome>)
    requires xfrlen < nbytes && most >= maxPkt && most > 0
    requires if most == maxPkt then (nbytes - xfrlen) % most != 0 else most > 1
    ensures AtMost(world, most) && |InRun(world, nbytes, maxPkt, xfrlen).data| > nbytes - xfrlen
    decreases nbytes - xfrlen
  {
    world := [];
    var n: nat := if xfrlen + most == nbytes then most - 1 else most;
    NotExactly(nbytes - xfrlen, maxPkt, most);
    if xfrlen + n < nbytes {
      world := Overrun(nbytes, maxPkt, most, xfrlen + n);
    }
    OverrunWith(world, n, nbytes, maxPkt, most, xfrlen);
    world := [Sends(n)] + world;
  }

  ghost predicate NeverOverruns(nbytes: word, maxPkt: byte, most: byte) {
    forall world :: AtMost(world, most) ==> |InRun(world, nbytes, maxPkt, 0).data| <= nbytes
  }

  lemma {:induction false} NothingStored(world: seq<Outcome>, nbytes: word, maxPkt: byte, xfrlen: word)
    requires AtMost(world, 0)
    ensures InRun(world, nbytes, maxPkt, xfrlen).data == []
    decreases |world|
  {
    if world != [] && world[0].rcode == 0 && world[0].available {
      InRunUnfold(world, nbytes, maxPkt, xfrlen);
      NothingStored(world[1..], nbytes, maxPkt, (xfrlen + |world[0].packet|) % U16);
    }
  }

  lemma RoomIsEnough(world: seq<Outcome>, nbytes: word, maxPkt: byte, most: byte)
    requires AtMost(world, most) && HasRoom(nbytes, maxPkt, most)
    ensures |InRun(world, nbytes, maxPkt, 0).data| <= nbytes
  {
    if most == 0 {
      NothingStored(world, nbytes, maxPkt, 0);
    } else if most < maxPkt {
      if world != [] && world[0].rcode == 0 && world[0].available {
        InRunUnfold(world, nbytes, maxPkt, 0);
      }
    } else {
      FullPacketsFit(world, nbytes, maxPkt, most, 0);
    }
  }

  /** For every request, packet size and largest packet: the loop never stores more than the bytes asked for
      exactly under that condition. */
  lemma StoresAtMostIff(nbytes: word, maxPkt: byte, most: byte)
    ensures NeverOverruns(nbytes, maxPkt, most) <==> HasRoom(nbytes, maxPkt, most)
  {
    if HasRoom(nbytes, maxPkt, most) {
      forall world | AtMost(world, most) ensures |InRun(world, nbytes, maxPkt, 0).data| <= nbytes {
        RoomIsEnough(world, nbytes, maxPkt, most);
      }
    } else if nbytes == 0 || most < maxPkt {
      StoresFirst([], most, nbytes, maxPkt, 0);
      OneMorePacket([], most, most);
      assert !NeverOverruns(nbytes, maxPkt, most);
    } else {
      var world := Overrun(nbytes, maxPkt, most, 0);
    }
  }

  /** A poll asks for the 8 bytes of a report: its buffer is safe from packets of at most 8 bytes exactly if the
      endpoint's packet size is at least 8, and from longer ones, up to the packet size or not, never. */
  lemma ReportBufferIsSafeIff(maxPkt: byte, most: byte)
    requires most >= 8
    ensures NeverOverruns(8, maxPkt, most) <==> most == 8 && maxPkt >= 8
  {
    StoresAtMostIff(8, maxPkt, most);
  }

  /** A device sending `source` in packets of `m` bytes, ended by a short one. */
  function Sending(source: seq<byte>, m: nat, tog1: bool): seq<Outcome>
    requires m > 0
    decreases |source|
  {
    if |source| < m then [Outcome(0, true, source, tog1)]
    else [Outcome(0, true, source[..m], tog1)] + Sending(source[m..], m, !tog1)
  }

  /** What such a device offers is what arrives: at most `nbytes` as section 9.3.5 of the USB 2.0
      specification asks of it, and then exactly that, whatever else the bus would do later. */
  lemma {:induction false} InTransferDelivers(source: seq<byte>, m: byte, tog1: bool, later: seq<Outcome>,
                                              nbytes: word, xfrlen: word)
    requires m > 0 && xfrlen + |source| <= nbytes
    ensures var r := InRun(Sending(source, m, tog1) + later, nbytes, m, xfrlen);
            r.rcode == 0 && r.data == source
    decreases |source|
  {
    var world := Sending(source, m, tog1) + later;
    FirstSent(source, m, tog1, later);
    InRunUnfold(world, nbytes, m, xfrlen);
    if |source| < m {
      return;
    }
    assert (xfrlen + m) % U16 == xfrlen + m;
    assert source == source[..m] + source[m..];
    if xfrlen + m < nbytes {
      InTransferDelivers(source[m..], m, !tog1, later, nbytes, xfrlen + m);
    } else {
      assert source[..m] == source;
    }
  }

  lemma FirstSent(source: seq<byte>, m: byte, tog1: bool, later: seq<Outcome>)
    requires m > 0
    ensures var world := Sending(source, m, tog1) + later;
            && world != []
            && world[0] == Outcome(0, true, if |source| < m then source else source[..m], tog1)
            && (|source| >= m ==> world[1..] == Sending(source[m..], m, !tog1) + later)
  {}
}
