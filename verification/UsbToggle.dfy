/** Data-toggle agreement on the interrupt endpoint (section 8.6 of the USB 2.0 specification): the
    host's saved toggle against the toggle the device will use next. */
module UsbToggle {
  import opened Words
  import opened UsbTransfer

  const REPORT_LENGTH: word := 8
  const HR_NAK: byte := 4
  const HR_TOGERR: byte := 6

  /** What the bus makes of one IN token: the device's packet arrives, or the dispatcher reports a
      non-zero code and the device keeps its packet. */
  datatype Act = Arrives(packet: seq<byte>) | Fails(rcode: byte)

  predicate Sensible(acts: seq<Act>) {
    forall i :: 0 <= i < |acts| ==>
      match acts[i]
      case Arrives(p) => |p| < 256
      case Fails(c) => c != 0
  }

  /** The outcomes the host sees when the controller expects `chip` and the device would send `dev`.
      The controller takes a packet with the expected toggle and both sides flip; it reports any
      other as a toggle error. */
  function Seen(acts: seq<Act>, chip: bool, dev: bool): (w: seq<Outcome>)
    ensures |w| == |acts|
    decreases |acts|
  {
    if acts == [] then []
    else match acts[0]
      case Fails(c) => [Outcome(c, false, [], chip)] + Seen(acts[1..], chip, dev)
      case Arrives(p) =>
        if chip == dev then [Outcome(0, true, p, !chip)] + Seen(acts[1..], !chip, !dev)
        else [Outcome(HR_TOGERR, false, [], chip)] + Seen(acts[1..], chip, dev)
  }

  /** How many of the first `n` outcomes were accepted packets. */
  function Accepted(world: seq<Outcome>, n: nat): nat {
    if n == 0 then 0
    else Accepted(world, n - 1) + if n <= |world| && world[n - 1].rcode == 0 then 1 else 0
  }

  function Flip(b: bool, n: nat): bool {
    if n % 2 == 0 then b else !b
  }

  /** One poll of the endpoint: the host's and the device's toggle before, and both after. */
  datatype Ends = Ends(host: bool, dev: bool)

  function Poll(e: Ends, acts: seq<Act>, maxPkt: byte): Ends {
    var world := Seen(acts, e.host, e.dev);
    var r := InRun(world, REPORT_LENGTH, maxPkt, 0);
    Ends(if r.toggle.Keep? then e.host else r.toggle.data1,
         Flip(e.dev, Accepted(world, r.used)))
  }

  function PollResult(e: Ends, acts: seq<Act>, maxPkt: byte): InResult {
    InRun(Seen(acts, e.host, e.dev), REPORT_LENGTH, maxPkt, 0)
  }

  lemma {:induction false} AcceptedCons(world: seq<Outcome>, n: nat)
    requires world != []
    ensures Accepted(world, n + 1) == (if world[0].rcode == 0 then 1 else 0) + Accepted(world[1..], n)
  {
    if n > 0 {
      AcceptedCons(world, n - 1);
    }
  }

  lemma SeenFirst(acts: seq<Act>, t: bool)
    requires acts != [] && Sensible(acts)
    ensures var w := Seen(acts, t, t);
            && (w[0].rcode == 0 <==> acts[0].Arrives?)
            && (w[0].rcode == 0 ==> w[0].available)
            && (acts[0].Arrives? ==> w[0].tog1 == !t && w[1..] == Seen(acts[1..], !t, !t))
  {}

  lemma FlipNext(t: bool, n: nat)
    ensures Flip(t, n + 1) == Flip(!t, n)
  {}

  /** From agreeing toggles, a transfer that succeeds after `a` accepted packets saves the toggle
      flipped `a` times. */
  lemma {:induction false} SavedToggle(acts: seq<Act>, t: bool, w: seq<Outcome>, r: InResult,
                                       nbytes: word, maxPkt: byte, xfrlen: word)
    requires Sensible(acts) && w == Seen(acts, t, t) && r == InRun(w, nbytes, maxPkt, xfrlen)
    requires r.rcode == 0
    ensures r.toggle == Save(Flip(t, Accepted(w, r.used)))
    decreases |acts|
  {
    SeenFirst(acts, t);
    InRunUnfold(w, nbytes, maxPkt, xfrlen);
    AcceptedCons(w, r.used - 1);
    FlipNext(t, Accepted(w[1..], r.used - 1));
    if r.used > 1 {
      var len := (xfrlen + |w[0].packet|) % U16;
      SavedToggle(acts[1..], !t, w[1..], InRun(w[1..], nbytes, maxPkt, len), nbytes, maxPkt, len);
    } else {
      assert Accepted(w[1..], 0) == 0;
    }
  }

  /** A poll keeps the two ends in agreement exactly when it succeeds or an even number of packets was
      accepted before it failed. */
  lemma PollKeepsAgreementIff(e: Ends, acts: seq<Act>, maxPkt: byte)
    requires Sensible(acts) && e.host == e.dev
    ensures var e' := Poll(e, acts, maxPkt); var r := PollResult(e, acts, maxPkt);
            e'.host == e'.dev <==>
              r.rcode == 0 || Accepted(Seen(acts, e.host, e.dev), r.used) % 2 == 0
  {
    var w, r := Seen(acts, e.host, e.dev), PollResult(e, acts, maxPkt);
    if r.rcode == 0 {
      SavedToggle(acts, e.host, w, r, REPORT_LENGTH, maxPkt, 0);
    }
  }

  /** The first packet of an endpoint whose packets hold a whole report ends the transfer, either way. */
  lemma FirstPacketDecides(world: seq<Outcome>, maxPkt: byte)
    requires Packets(world) && maxPkt >= REPORT_LENGTH
    ensures var r := InRun(world, REPORT_LENGTH, maxPkt, 0);
            r.used == 1 && (world != [] && world[0].rcode == 0 && world[0].available ==> r.rcode == 0)
  {
    if world != [] && world[0].rcode == 0 && world[0].available {
      InRunUnfold(world, REPORT_LENGTH, maxPkt, 0);
    }
  }

  /** Such an endpoint never loses agreement. */
  lemma WholeReportsNeverDisagree(e: Ends, acts: seq<Act>, maxPkt: byte)
    requires Sensible(acts) && e.host == e.dev && maxPkt >= REPORT_LENGTH
    ensures var e' := Poll(e, acts, maxPkt); e'.host == e'.dev
  {
    var w := Seen(acts, e.host, e.dev);
    SeenFits(acts, e.host, e.dev);
    FirstPacketDecides(w, maxPkt);
    if acts != [] {
      SeenFirst(acts, e.host);
    }
    assert Accepted(w, 1) == Accepted(w, 0) + if w != [] && w[0].rcode == 0 then 1 else 0;
    PollKeepsAgreementIff(e, acts, maxPkt);
  }

  lemma {:induction false} SeenFits(acts: seq<Act>, chip: bool, dev: bool)
    requires Sensible(acts)
    ensures Packets(Seen(acts, chip, dev))
    decreases |acts|
  {
    if acts != [] {
      SeenFits(acts[1..], chip, dev);
      SeenFits(acts[1..], !chip, !dev);
    }
  }

  /** One full packet, then a NAK. */
  function CutShort(maxPkt: byte): seq<Act> {
    [Arrives(Zeros(maxPkt)), Fails(HR_NAK)]
  }

  lemma LostReportBreaksAgreement(maxPkt: byte, t: bool)
    requires maxPkt < 8
    ensures Sensible(CutShort(maxPkt))
    ensures var e' := Poll(Ends(t, t), CutShort(maxPkt), maxPkt); e'.host == t && e'.dev == !t
  {
    var acts := CutShort(maxPkt);
    var w := Seen(acts, t, t);
    assert acts[1..] == [Fails(HR_NAK)] && acts[1..][1..] == [];
    assert Seen(acts[1..], !t, !t) == [Outcome(HR_NAK, false, [], !t)];
    assert w == [Outcome(0, true, Zeros(maxPkt), !t), Outcome(HR_NAK, false, [], !t)];
    assert w[1..] == [Outcome(HR_NAK, false, [], !t)];
    assert InRun(w[1..], REPORT_LENGTH, maxPkt, maxPkt) == InResult(HR_NAK, 1, [], Keep);
    InRunUnfold(w, REPORT_LENGTH, maxPkt, 0);
    assert Accepted(w, 0) == 0;
    assert w[0].rcode == 0 && Accepted(w, 1) == 1;
    assert w[1].rcode == HR_NAK && Accepted(w, 2) == 1;
  }

  /** No poll can lose agreement. */
  ghost predicate Robust(maxPkt: byte) {
    forall t, acts :: Sensible(acts) ==> KeepsAgreement(t, acts, maxPkt)
  }

  predicate KeepsAgreement(t: bool, acts: seq<Act>, maxPkt: byte) {
    var e' := Poll(Ends(t, t), acts, maxPkt);
    e'.host == e'.dev
  }

  /** The condition on the endpoint: no poll of it can lose agreement exactly if a packet holds a whole
      report. */
  lemma RobustIffWholeReports(maxPkt: byte)
    ensures Robust(maxPkt) <==> maxPkt >= 8
  {
    if maxPkt >= REPORT_LENGTH {
      forall t, acts | Sensible(acts) ensures KeepsAgreement(t, acts, maxPkt) {
        WholeReportsNeverDisagree(Ends(t, t), acts, maxPkt);
      }
    } else {
      LostReportBreaksAgreement(maxPkt, false);
      assert !KeepsAgreement(false, CutShort(maxPkt), maxPkt);
    }
  }

  // ----- whole runs

  datatype Event =
    | Configure(maxPktSize: word)  // HID_init, then a successful Set Configuration of such an endpoint
    | PollOnce(acts: seq<Act>)

  /** The two ends and the packet size the polls pass on, which is cut to a byte. */
  datatype Link = Link(ends: Ends, maxPkt: byte)

  function Configured(maxPktSize: word): Link {
    Link(Ends(false, false), maxPktSize % 256)
  }

  function Step(l: Link, ev: Event): Link {
    match ev
    case Configure(maxPktSize) => Configured(maxPktSize)
    case PollOnce(acts) => l.(ends := Poll(l.ends, acts, l.maxPkt))
  }

  /** A run from the first configuration on. */
  function Run(first: word, evs: seq<Event>): Link {
    if evs == [] then Configured(first)
    else Step(Run(first, evs[..|evs| - 1]), evs[|evs| - 1])
  }

  /** No poll of the run fails after an odd number of accepted packets. */
  predicate NoOddFailure(first: word, evs: seq<Event>) {
    evs != [] ==>
      var before, last := evs[..|evs| - 1], evs[|evs| - 1];
      && NoOddFailure(first, before)
      && (last.PollOnce? ==>
            var l := Run(first, before);
            var r := PollResult(l.ends, last.acts, l.maxPkt);
            r.rcode == 0 || Accepted(Seen(last.acts, l.ends.host, l.ends.dev), r.used) % 2 == 0)
  }

  /** The two ends agree after every prefix of the run. */
  predicate AlwaysAgree(first: word, evs: seq<Event>) {
    && Run(first, evs).ends.host == Run(first, evs).ends.dev
    && (evs != [] ==> AlwaysAgree(first, evs[..|evs| - 1]))
  }

  predicate SensibleRun(evs: seq<Event>) {
    forall i :: 0 <= i < |evs| && evs[i].PollOnce? ==> Sensible(evs[i].acts)
  }

  /** Over every run of configurations and polls: the ends agree after every event exactly when no
      poll failed after an odd number of accepted packets. */
  lemma {:induction false} AgreementOverRuns(first: word, evs: seq<Event>)
    requires SensibleRun(evs)
    ensures AlwaysAgree(first, evs) <==> NoOddFailure(first, evs)
  {
    if evs != [] {
      var before, last := evs[..|evs| - 1], evs[|evs| - 1];
      AgreementOverRuns(first, before);
      var l := Run(first, before);
      if AlwaysAgree(first, before) && last.PollOnce? {
        PollKeepsAgreementIff(l.ends, last.acts, l.maxPkt);
      }
    }
  }

  /** Every endpoint configured in the run is of one of these packet sizes. */
  predicate SizesIn(first: word, evs: seq<Event>, sizes: set<word>) {
    first in sizes && forall i :: 0 <= i < |evs| && evs[i].Configure? ==> evs[i].maxPktSize in sizes
  }

  predicate WholeReports(sizes: set<word>) {
    forall m :: m in sizes ==> m % 256 >= 8
  }

  lemma {:induction false} BootDevicesAlwaysAgree(first: word, evs: seq<Event>, sizes: set<word>)
    requires SensibleRun(evs) && SizesIn(first, evs, sizes) && WholeReports(sizes)
    ensures AlwaysAgree(first, evs) && Run(first, evs).maxPkt >= 8
  {
    if evs != [] {
      var before, last := evs[..|evs| - 1], evs[|evs| - 1];
      BootDevicesAlwaysAgree(first, before, sizes);
      if last.PollOnce? {
        WholeReportsNeverDisagree(Run(first, before).ends, last.acts, Run(first, before).maxPkt);
      }
    }
  }

  lemma ShortRunDisagrees(m: word)
    requires m % 256 < REPORT_LENGTH
    ensures var evs := [PollOnce(CutShort(m % 256))]; SensibleRun(evs) && !AlwaysAgree(m, evs)
  {
    var evs := [PollOnce(CutShort(m % 256))];
    LostReportBreaksAgreement(m % 256, false);
    assert evs[..0] == [];
    assert Run(m, evs) == Step(Configured(m), evs[0]);
  }

  /** The ends agree throughout every run over a set of endpoints, whichever tokens fail in it, exactly if the
      packets of each of them, as cut to a byte, hold a whole report. */
  lemma AllRunsAgreeIff(sizes: set<word>)
    ensures (forall first, evs :: SensibleRun(evs) && SizesIn(first, evs, sizes) ==> AlwaysAgree(first, evs))
       <==> WholeReports(sizes)
  {
    if WholeReports(sizes) {
      forall first, evs | SensibleRun(evs) && SizesIn(first, evs, sizes) ensures AlwaysAgree(first, evs) {
        BootDevicesAlwaysAgree(first, evs, sizes);
      }
    } else {
      var m :| m in sizes && m % 256 < REPORT_LENGTH;
      ShortRunDisagrees(m);
      assert SizesIn(m, [PollOnce(CutShort(m % 256))], sizes);
    }
  }
}
