/** The walk of the HID probes over a configuration: byte by byte as the code does it, and descriptor
    by descriptor as section 9.6 of the USB 2.0 specification lays a configuration out. */
module HidWalk {
  import opened Words

  const BUFFER_SIZE: nat := 256
  const INTERFACE: byte := 0x04
  const ENDPOINT: byte := 0x05
  const HID_INTF: byte := 0x03
  const BOOT_INTF_SUBCLASS: byte := 0x01

  /** The walk stops once its pointer has left the configuration, but looks up to seven bytes ahead of it:
      it sees the buffer and the seven bytes that happen to lie behind it. */
  const MEMORY: nat := BUFFER_SIZE + 7

  /** Where a scan for a descriptor type ends. A zero length byte makes the code loop for ever. */
  datatype Seek = Found(ptr: nat) | AtEnd | Hangs

  datatype Walk =
    | NoInterface | WrongClass | NoEndpoint(intf: nat)
    | Endpoint(intf: nat, endp: nat)     // offsets of the two descriptors
    | Stuck

  function SeekType(mem: seq<byte>, total: nat, ptr: nat, kind: byte): (s: Seek)
    requires |mem| == MEMORY && total <= BUFFER_SIZE
    ensures s.Found? ==> ptr <= s.ptr < total && mem[s.ptr + 1] == kind
    decreases total - ptr
  {
    if ptr >= total then AtEnd
    else if mem[ptr + 1] == kind then Found(ptr)
    else if mem[ptr] == 0 then Hangs
    else SeekType(mem, total, ptr + mem[ptr], kind)
  }

  predicate BootClass(mem: seq<byte>, p: nat, protocol: byte)
    requires p + 8 <= |mem|
  {
    mem[p + 5] == HID_INTF && mem[p + 6] == BOOT_INTF_SUBCLASS && mem[p + 7] == protocol
  }

  function EndpointAfter(mem: seq<byte>, total: nat, p: nat): Walk
    requires |mem| == MEMORY && total <= BUFFER_SIZE && p < MEMORY
  {
    match SeekType(mem, total, p + mem[p], ENDPOINT)
    case AtEnd => NoEndpoint(p)
    case Hangs => Stuck
    case Found(q) => Endpoint(p, q)
  }

  function WalkOf(mem: seq<byte>, total: nat, protocol: byte): (w: Walk)
    requires |mem| == MEMORY && total <= BUFFER_SIZE
    ensures w.NoEndpoint? || w.Endpoint? ==> w.intf < BUFFER_SIZE
    ensures w.Endpoint? ==> w.endp < BUFFER_SIZE
  {
    match SeekType(mem, total, 0, INTERFACE)
    case AtEnd => NoInterface
    case Hangs => Stuck
    case Found(p) => if BootClass(mem, p, protocol) then EndpointAfter(mem, total, p) else WrongClass
  }

  // ----- which bytes the walk reads

  /** The scan reads only bytes of the buffer. */
  predicate ScanInside(mem: seq<byte>, total: nat, ptr: nat, kind: byte)
    requires |mem| == MEMORY && total <= BUFFER_SIZE
    decreases total - ptr
  {
    ptr < total ==>
      && ptr + 1 < BUFFER_SIZE
      && (mem[ptr + 1] != kind && mem[ptr] != 0 ==> ScanInside(mem, total, ptr + mem[ptr], kind))
  }

  /** So does the search for the endpoint behind the interface at `p`, the copied fields included. */
  predicate EndpointInside(mem: seq<byte>, total: nat, p: nat)
    requires |mem| == MEMORY && total <= BUFFER_SIZE && p < MEMORY
  {
    var s := SeekType(mem, total, p + mem[p], ENDPOINT);
    ScanInside(mem, total, p + mem[p], ENDPOINT) && (s.Found? ==> s.ptr + 7 <= BUFFER_SIZE)
  }

  /** So does the whole walk. */
  predicate WalkInside(mem: seq<byte>, total: nat, protocol: byte)
    requires |mem| == MEMORY && total <= BUFFER_SIZE
  {
    var s := SeekType(mem, total, 0, INTERFACE);
    && ScanInside(mem, total, 0, INTERFACE)
    && (s.Found? ==>
          && s.ptr + 8 <= BUFFER_SIZE
          && (BootClass(mem, s.ptr, protocol) ==> EndpointInside(mem, total, s.ptr)))
  }

  /** The loop that skips to the next descriptor of a type; both loops of the probe are of this form. */
  method SkipTo(mem: array<byte>, total: nat, start: nat, kind: byte) returns (s: Seek, ghost inside: bool)
    requires mem.Length == MEMORY && total <= BUFFER_SIZE
    ensures s == SeekType(mem[..], total, start, kind)
    ensures inside == ScanInside(mem[..], total, start, kind)
  {
    var ptr := start;
    inside := true;
    while ptr < total
      invariant SeekType(mem[..], total, start, kind) == SeekType(mem[..], total, ptr, kind)
      invariant ScanInside(mem[..], total, start, kind) == (inside && ScanInside(mem[..], total, ptr, kind))
      decreases total - ptr
    {
      inside := inside && ptr + 1 < BUFFER_SIZE;
      if mem[ptr + 1] == kind {
        return Found(ptr), inside;
      }
      if mem[ptr] == 0 {
        return Hangs, inside;
      }
      ptr := ptr + mem[ptr];
    }
    s := AtEnd;
  }

  /** The search for an endpoint behind the interface at `intf`. */
  method FindEndpoint(mem: array<byte>, total: nat, intf: nat) returns (w: Walk, ghost inside: bool)
    requires mem.Length == MEMORY && total <= BUFFER_SIZE && intf < MEMORY
    ensures w == EndpointAfter(mem[..], total, intf)
    ensures inside == EndpointInside(mem[..], total, intf)
  {
    var s;
    s, inside := SkipTo(mem, total, intf + mem[intf], ENDPOINT);
    inside := inside && (s.Found? ==> s.ptr + 6 < BUFFER_SIZE);
    match s
    case AtEnd => w := NoEndpoint(intf);
    case Hangs => w := Stuck;
    case Found(endp) => w := Endpoint(intf, endp);
  }

  /** The walk: to the first interface, its class, then to an endpoint. */
  method WalkConfiguration(mem: array<byte>, total: nat, protocol: byte) returns (w: Walk, ghost inside: bool)
    requires mem.Length == MEMORY && total <= BUFFER_SIZE
    ensures w == WalkOf(mem[..], total, protocol)
    ensures inside == WalkInside(mem[..], total, protocol)
  {
    var s;
    s, inside := SkipTo(mem, total, 0, INTERFACE);
    if !s.Found? {
      return if s.AtEnd? then NoInterface else Stuck, inside;
    }
    var intf := s.ptr;
    inside := inside && intf + 7 < BUFFER_SIZE;
    if !(mem[intf + 5] == HID_INTF && mem[intf + 6] == BOOT_INTF_SUBCLASS && mem[intf + 7] == protocol) {
      return WrongClass, inside;
    }
    ghost var behind;
    w, behind := FindEndpoint(mem, total, intf);
    inside := inside && behind;
  }

  // ----- configurations as the specification defines them

  /** A descriptor: its length, its type, and at least the fields of its kind. */
  predicate IsDescriptor(d: seq<byte>) {
    && |d| >= 2 && d[0] == |d|
    && (d[1] == INTERFACE ==> |d| >= 9)
    && (d[1] == ENDPOINT ==> |d| >= 7)
  }

  type Descriptor = d: seq<byte> | IsDescriptor(d) witness [2, 0]

  function Offset(ds: seq<Descriptor>, k: nat): nat
    requires k <= |ds|
  {
    if k == 0 then 0 else Offset(ds, k - 1) + |ds[k - 1]|
  }

  /** The first `total` bytes are these descriptors, one after the other. */
  predicate Holds(buf: seq<byte>, total: nat, ds: seq<Descriptor>) {
    && |buf| == MEMORY && total <= BUFFER_SIZE && Offset(ds, |ds|) == total
    && forall k {:trigger HoldsAt(buf, Offset(ds, k), ds[k])} :: 0 <= k < |ds| ==>
         HoldsAt(buf, Offset(ds, k), ds[k])
  }

  predicate HoldsAt(buf: seq<byte>, at: nat, d: seq<byte>) {
    at + |d| <= |buf| && forall n :: 0 <= n < |d| ==> buf[at + n] == d[n]
  }

  /** Index of the first descriptor of a type, from index `k` on; |ds| if there is none. */
  function FirstOf(ds: seq<Descriptor>, kind: byte, k: nat): (j: nat)
    requires k <= |ds|
    ensures k <= j <= |ds|
    ensures forall i :: k <= i < j ==> ds[i][1] != kind
    ensures j < |ds| ==> ds[j][1] == kind
    decreases |ds| - k
  {
    if k == |ds| || ds[k][1] == kind then k else FirstOf(ds, kind, k + 1)
  }

  lemma {:induction false} OffsetMonotone(ds: seq<Descriptor>, i: nat, j: nat)
    requires i < j <= |ds|
    ensures Offset(ds, i) + |ds[i]| <= Offset(ds, j)
    decreases j
  {
    if i < j - 1 {
      OffsetMonotone(ds, i, j - 1);
    }
  }

  lemma SeekStep(buf: seq<byte>, total: nat, at: nat, d: Descriptor, kind: byte)
    requires |buf| == MEMORY && HoldsAt(buf, at, d) && at + |d| <= total <= BUFFER_SIZE
    ensures SeekType(buf, total, at, kind)
         == if d[1] == kind then Found(at) else SeekType(buf, total, at + |d|, kind)
    ensures ScanInside(buf, total, at, kind) <==> d[1] == kind || ScanInside(buf, total, at + |d|, kind)
  {
    assert buf[at + 0] == d[0] && buf[at + 1] == d[1];
  }

  /** On a well-formed configuration the byte scan finds exactly the first descriptor of the type. */
  lemma {:induction false} SeekFindsFirst(buf: seq<byte>, total: nat, ds: seq<Descriptor>, k: nat, kind: byte)
    requires Holds(buf, total, ds) && k <= |ds|
    ensures var j := FirstOf(ds, kind, k);
            && SeekType(buf, total, Offset(ds, k), kind) == (if j < |ds| then Found(Offset(ds, j)) else AtEnd)
            && ScanInside(buf, total, Offset(ds, k), kind)
    decreases |ds| - k
  {
    if k < |ds| {
      var at, d := Offset(ds, k), ds[k];
      OffsetMonotone(ds, k, |ds|);
      assert HoldsAt(buf, at, d);
      SeekStep(buf, total, at, d, kind);
      if d[1] != kind {
        SeekFindsFirst(buf, total, ds, k + 1, kind);
      }
    }
  }

  /** What the probe looks for, on the list of descriptors: the first interface is of the boot class
      and some endpoint descriptor follows it. */
  function Target(ds: seq<Descriptor>, protocol: byte): (t: Walk)
  {
    var i := FirstOf(ds, INTERFACE, 0);
    if i == |ds| then NoInterface
    else if !BootClass(ds[i], 0, protocol) then WrongClass
    else
      var j := FirstOf(ds, ENDPOINT, i + 1);
      if j == |ds| then NoEndpoint(Offset(ds, i)) else Endpoint(Offset(ds, i), Offset(ds, j))
  }

  lemma InterfaceAt(buf: seq<byte>, at: nat, d: Descriptor, protocol: byte)
    requires HoldsAt(buf, at, d) && d[1] == INTERFACE
    ensures at + 9 <= |buf| && buf[at] == |d|
    ensures BootClass(buf, at, protocol) <==> BootClass(d, 0, protocol)
  {
    assert buf[at + 5] == d[5] && buf[at + 6] == d[6] && buf[at + 7] == d[7];
    assert buf[at + 0] == d[0];
  }

  /** Each found descriptor lies inside the configuration. */
  lemma FoundFits(buf: seq<byte>, total: nat, ds: seq<Descriptor>, i: nat)
    requires Holds(buf, total, ds) && i < |ds|
    ensures Offset(ds, i) + |ds[i]| <= total && HoldsAt(buf, Offset(ds, i), ds[i])
  {
    OffsetMonotone(ds, i, |ds|);
  }

  lemma EndpointAfterInterface(buf: seq<byte>, total: nat, ds: seq<Descriptor>, i: nat)
    requires Holds(buf, total, ds) && i < |ds| && Offset(ds, i) < BUFFER_SIZE && buf[Offset(ds, i)] == |ds[i]|
    ensures var j := FirstOf(ds, ENDPOINT, i + 1);
            EndpointAfter(buf, total, Offset(ds, i)) ==
            if j == |ds| then NoEndpoint(Offset(ds, i)) else Endpoint(Offset(ds, i), Offset(ds, j))
    ensures EndpointInside(buf, total, Offset(ds, i))
  {
    assert Offset(ds, i + 1) == Offset(ds, i) + |ds[i]|;
    SeekFindsFirst(buf, total, ds, i + 1, ENDPOINT);
    var j := FirstOf(ds, ENDPOINT, i + 1);
    if j < |ds| {
      FoundFits(buf, total, ds, j);
    }
  }

  /** On every well-formed configuration the walk terminates, reads only bytes of the buffer and finds the
      target: the first descriptor of type 4, if its class is 3, its subclass 1 and its protocol the wanted one,
      and the first descriptor of type 5 behind it. */
  lemma WalkIsTarget(buf: seq<byte>, total: nat, ds: seq<Descriptor>, protocol: byte)
    requires Holds(buf, total, ds)
    ensures WalkOf(buf, total, protocol) == Target(ds, protocol)
    ensures WalkInside(buf, total, protocol)
    ensures var i := FirstOf(ds, 4, 0);
            if i == |ds| then WalkOf(buf, total, protocol) == NoInterface
            else if ds[i][5] != 3 || ds[i][6] != 1 || ds[i][7] != protocol
            then WalkOf(buf, total, protocol) == WrongClass
            else
              var j := FirstOf(ds, 5, i + 1);
              WalkOf(buf, total, protocol)
              == if j == |ds| then NoEndpoint(Offset(ds, i)) else Endpoint(Offset(ds, i), Offset(ds, j))
  {
    var i := FirstOf(ds, INTERFACE, 0);
    SeekFindsFirst(buf, total, ds, 0, INTERFACE);
    if i < |ds| {
      FoundFits(buf, total, ds, i);
      InterfaceAt(buf, Offset(ds, i), ds[i], protocol);
      EndpointAfterInterface(buf, total, ds, i);
    }
  }

  /** The fields of the endpoint descriptor that the probe copies. */
  datatype EndpointFields = EndpointFields(epAddr: byte, attr: byte, maxPktSize: word, interval: byte)

  function FieldsAt(buf: seq<byte>, q: nat): EndpointFields
    requires q + 7 <= |buf|
  {
    EndpointFields(buf[q + 2], buf[q + 3], buf[q + 4] as int + 256 * (buf[q + 5] as int), buf[q + 6])
  }

  predicate Copied(f: EndpointFields, d: seq<byte>)
    requires |d| >= 7
  {
    f.epAddr == d[2] && f.attr == d[3] && f.maxPktSize == d[4] as int + 256 * (d[5] as int) && f.interval == d[6]
  }

  lemma SevenBytes(buf: seq<byte>, at: nat, d: Descriptor)
    requires HoldsAt(buf, at, d) && |d| >= 7
    ensures at + 7 <= |buf| && FieldsAt(buf, at) == FieldsAt(d, 0) && buf[at + 2] == d[2]
  {
    assert buf[at + 2] == d[2] && buf[at + 3] == d[3] && buf[at + 4] == d[4];
    assert buf[at + 5] == d[5] && buf[at + 6] == d[6];
  }

  lemma FieldsOf(buf: seq<byte>, total: nat, ds: seq<Descriptor>, k: nat)
    requires Holds(buf, total, ds) && k < |ds| && |ds[k]| >= 7
    ensures var at := Offset(ds, k);
            at + 7 <= BUFFER_SIZE && FieldsAt(buf, at) == FieldsAt(ds[k], 0) && buf[at + 2] == ds[k][2]
  {
    FoundFits(buf, total, ds, k);
    SevenBytes(buf, Offset(ds, k), ds[k]);
  }

  /** The copied fields are bytes 2 and 3, the word at 4 (low byte first) and byte 6 of the endpoint descriptor,
      and byte 2 of the interface descriptor. */
  lemma FieldsAreTheDescriptors(buf: seq<byte>, total: nat, ds: seq<Descriptor>, protocol: byte)
    requires Holds(buf, total, ds) && Target(ds, protocol).Endpoint?
    ensures var i := FirstOf(ds, 4, 0); var j := FirstOf(ds, 5, i + 1);
            && i < j < |ds| && Target(ds, protocol).endp + 7 <= BUFFER_SIZE
            && Copied(FieldsAt(buf, Target(ds, protocol).endp), ds[j])
            && Target(ds, protocol).intf + 2 < BUFFER_SIZE
            && buf[Target(ds, protocol).intf + 2] == ds[i][2]
  {
    var i := FirstOf(ds, INTERFACE, 0);
    var j := FirstOf(ds, ENDPOINT, i + 1);
    FieldsOf(buf, total, ds, i);
    FieldsOf(buf, total, ds, j);
  }

  // ----- when the walk loops for ever or leaves the buffer

  /** A chain of descriptors, none but the last of the wanted type, each with a length that leads to the
      next. */
  predicate Chain(mem: seq<byte>, total: nat, start: nat, kind: byte, path: seq<nat>) {
    && |mem| == MEMORY && total <= BUFFER_SIZE && path != [] && path[0] == start
    && (forall i :: 0 <= i < |path| ==> path[i] < total)
    && forall i :: 0 <= i < |path| - 1 ==>
         && mem[path[i] + 1] != kind && mem[path[i]] > 0
         && path[i + 1] == path[i] + mem[path[i]]
  }

  lemma RestOfChain(mem: seq<byte>, total: nat, start: nat, kind: byte, path: seq<nat>)
    requires Chain(mem, total, start, kind, path) && |path| > 1
    ensures start < total && mem[start] > 0 && mem[start + 1] != kind
    ensures Chain(mem, total, start + mem[start], kind, path[1..]) && path[1..][|path| - 2] == path[|path| - 1]
  {
    var rest := path[1..];
    assert path[0 + 1] == rest[0];
    forall i | 0 <= i < |rest| - 1
      ensures mem[rest[i] + 1] != kind && mem[rest[i]] > 0 && rest[i + 1] == rest[i] + mem[rest[i]]
    {
      assert path[i + 1 + 1] == path[i + 1] + mem[path[i + 1]];
    }
  }

  lemma LongerChain(mem: seq<byte>, total: nat, start: nat, kind: byte, rest: seq<nat>)
    requires |mem| == MEMORY && start < total <= BUFFER_SIZE && mem[start] > 0 && mem[start + 1] != kind
    requires Chain(mem, total, start + mem[start], kind, rest)
    ensures Chain(mem, total, start, kind, [start] + rest)
    ensures ([start] + rest)[|rest|] == rest[|rest| - 1]
  {}

  /** The chain ends at a descriptor of another type and length zero. */
  predicate DeadEnd(mem: seq<byte>, total: nat, start: nat, kind: byte, path: seq<nat>) {
    && Chain(mem, total, start, kind, path)
    && mem[path[|path| - 1]] == 0 && mem[path[|path| - 1] + 1] != kind
  }

  ghost predicate HasDeadEnd(mem: seq<byte>, total: nat, start: nat, kind: byte) {
    exists path :: DeadEnd(mem, total, start, kind, path)
  }

  /** The chain ends at the last byte of the buffer: the type is looked for behind it. */
  predicate AtEdge(mem: seq<byte>, total: nat, start: nat, kind: byte, path: seq<nat>) {
    Chain(mem, total, start, kind, path) && path[|path| - 1] == BUFFER_SIZE - 1
  }

  ghost predicate ReachesEdge(mem: seq<byte>, total: nat, start: nat, kind: byte) {
    exists path :: AtEdge(mem, total, start, kind, path)
  }

  lemma {:induction false} DeadEndHangs(mem: seq<byte>, total: nat, start: nat, kind: byte, path: seq<nat>)
    requires DeadEnd(mem, total, start, kind, path)
    ensures SeekType(mem, total, start, kind) == Hangs
    decreases |path|
  {
    if |path| > 1 {
      RestOfChain(mem, total, start, kind, path);
      DeadEndHangs(mem, total, start + mem[start], kind, path[1..]);
    }
  }

  lemma {:induction false} HangHasDeadEnd(mem: seq<byte>, total: nat, start: nat, kind: byte) returns (path: seq<nat>)
    requires |mem| == MEMORY && total <= BUFFER_SIZE && SeekType(mem, total, start, kind) == Hangs
    ensures DeadEnd(mem, total, start, kind, path)
    decreases total - start
  {
    path := [start];
    if mem[start] != 0 {
      var rest := HangHasDeadEnd(mem, total, start + mem[start], kind);
      LongerChain(mem, total, start, kind, rest);
      path := [start] + rest;
    }
  }

  lemma {:induction false} EdgeLeaves(mem: seq<byte>, total: nat, start: nat, kind: byte, path: seq<nat>)
    requires AtEdge(mem, total, start, kind, path)
    ensures !ScanInside(mem, total, start, kind)
    decreases |path|
  {
    if |path| > 1 {
      RestOfChain(mem, total, start, kind, path);
      EdgeLeaves(mem, total, start + mem[start], kind, path[1..]);
    }
  }

  lemma {:induction false} LeavingHasEdge(mem: seq<byte>, total: nat, start: nat, kind: byte) returns (path: seq<nat>)
    requires |mem| == MEMORY && total <= BUFFER_SIZE && !ScanInside(mem, total, start, kind)
    ensures AtEdge(mem, total, start, kind, path)
    decreases total - start
  {
    path := [start];
    if start + 1 < BUFFER_SIZE {
      var rest := LeavingHasEdge(mem, total, start + mem[start], kind);
      LongerChain(mem, total, start, kind, rest);
      path := [start] + rest;
    }
  }

  lemma SeekHangsIff(mem: seq<byte>, total: nat, start: nat, kind: byte)
    requires |mem| == MEMORY && total <= BUFFER_SIZE
    ensures SeekType(mem, total, start, kind) == Hangs <==> HasDeadEnd(mem, total, start, kind)
  {
    if SeekType(mem, total, start, kind) == Hangs {
      var path := HangHasDeadEnd(mem, total, start, kind);
    }
    if path :| DeadEnd(mem, total, start, kind, path) {
      DeadEndHangs(mem, total, start, kind, path);
    }
  }

  lemma ScanLeavesIff(mem: seq<byte>, total: nat, start: nat, kind: byte)
    requires |mem| == MEMORY && total <= BUFFER_SIZE
    ensures !ScanInside(mem, total, start, kind) <==> ReachesEdge(mem, total, start, kind)
  {
    if !ScanInside(mem, total, start, kind) {
      var path := LeavingHasEdge(mem, total, start, kind);
    }
    if path :| AtEdge(mem, total, start, kind, path) {
      EdgeLeaves(mem, total, start, kind, path);
    }
  }

  /** For every buffer: the walk loops for ever exactly if, before the first interface or between a
      matching interface and its endpoint, it comes to a descriptor of length zero. */
  lemma WalkHangsIff(mem: seq<byte>, total: nat, protocol: byte)
    requires |mem| == MEMORY && total <= BUFFER_SIZE
    ensures WalkOf(mem, total, protocol) == Stuck <==>
              || HasDeadEnd(mem, total, 0, INTERFACE)
              || (var s := SeekType(mem, total, 0, INTERFACE);
                  && s.Found? && BootClass(mem, s.ptr, protocol)
                  && HasDeadEnd(mem, total, s.ptr + mem[s.ptr], ENDPOINT))
  {
    SeekHangsIff(mem, total, 0, INTERFACE);
    var s := SeekType(mem, total, 0, INTERFACE);
    if s.Found? {
      SeekHangsIff(mem, total, s.ptr + mem[s.ptr], ENDPOINT);
    }
  }

  ghost predicate EndpointLeaves(mem: seq<byte>, total: nat, start: nat)
    requires |mem| == MEMORY && total <= BUFFER_SIZE
  {
    var s := SeekType(mem, total, start, ENDPOINT);
    ReachesEdge(mem, total, start, ENDPOINT) || (s.Found? && s.ptr + 7 > BUFFER_SIZE)
  }

  /** For every buffer: the walk reads a byte behind the buffer exactly if a chain leads to its last byte, or
      the first interface is cut off by the end of the buffer before its protocol byte, or the endpoint
      behind a matching interface before its interval byte. */
  lemma WalkLeavesBufferIff(mem: seq<byte>, total: nat, protocol: byte)
    requires |mem| == MEMORY && total <= BUFFER_SIZE
    ensures !WalkInside(mem, total, protocol) <==>
              || ReachesEdge(mem, total, 0, INTERFACE)
              || (var s := SeekType(mem, total, 0, INTERFACE);
                  && s.Found?
                  && (|| s.ptr + 8 > BUFFER_SIZE
                      || (BootClass(mem, s.ptr, protocol) && EndpointLeaves(mem, total, s.ptr + mem[s.ptr]))))
  {
    ScanLeavesIff(mem, total, 0, INTERFACE);
    var s := SeekType(mem, total, 0, INTERFACE);
    if s.Found? {
      ScanLeavesIff(mem, total, s.ptr + mem[s.ptr], ENDPOINT);
    }
  }

  lemma {:induction false} InsideScanIgnoresRest(m1: seq<byte>, m2: seq<byte>, total: nat, ptr: nat, kind: byte)
    requires |m1| == |m2| == MEMORY && total <= BUFFER_SIZE && m1[..BUFFER_SIZE] == m2[..BUFFER_SIZE]
    requires ScanInside(m1, total, ptr, kind)
    ensures ScanInside(m2, total, ptr, kind) && SeekType(m2, total, ptr, kind) == SeekType(m1, total, ptr, kind)
    decreases total - ptr
  {
    if ptr < total {
      assert m1[..BUFFER_SIZE][ptr] == m2[..BUFFER_SIZE][ptr];
      assert m1[..BUFFER_SIZE][ptr + 1] == m2[..BUFFER_SIZE][ptr + 1];
      if m1[ptr + 1] != kind && m1[ptr] != 0 {
        InsideScanIgnoresRest(m1, m2, total, ptr + m1[ptr], kind);
      }
    }
  }

  /** A walk that stays inside does not depend on what lies behind the buffer. */
  lemma InsideWalkIgnoresRest(m1: seq<byte>, m2: seq<byte>, total: nat, protocol: byte)
    requires |m1| == |m2| == MEMORY && total <= BUFFER_SIZE && m1[..BUFFER_SIZE] == m2[..BUFFER_SIZE]
    requires WalkInside(m1, total, protocol)
    ensures WalkInside(m2, total, protocol) && WalkOf(m2, total, protocol) == WalkOf(m1, total, protocol)
  {
    InsideScanIgnoresRest(m1, m2, total, 0, INTERFACE);
    var s := SeekType(m1, total, 0, INTERFACE);
    if s.Found? {
      var p := s.ptr;
      assert forall k :: p <= k < p + 8 ==> m1[..BUFFER_SIZE][k] == m2[..BUFFER_SIZE][k];
      if BootClass(m1, p, protocol) {
        InsideScanIgnoresRest(m1, m2, total, p + m1[p], ENDPOINT);
      }
    }
  }

  /** A buffer of zeros hangs the walk at once. */
  lemma ZeroBufferHangs(mem: seq<byte>, total: nat, protocol: byte)
    requires |mem| == MEMORY && 0 < total <= BUFFER_SIZE && mem[0] == mem[1] == 0
    ensures DeadEnd(mem, total, 0, INTERFACE, [0]) && WalkOf(mem, total, protocol) == Stuck
  {
    DeadEndHangs(mem, total, 0, INTERFACE, [0]);
  }

  /** A descriptor of 255 bytes and another type in a configuration of 256 leads out of the buffer. */
  lemma CutOffDescriptorLeaves(mem: seq<byte>, protocol: byte)
    requires |mem| == MEMORY && mem[0] == 255 && mem[1] != INTERFACE
    ensures AtEdge(mem, BUFFER_SIZE, 0, INTERFACE, [0, 255]) && !WalkInside(mem, BUFFER_SIZE, protocol)
  {
    EdgeLeaves(mem, BUFFER_SIZE, 0, INTERFACE, [0, 255]);
  }
}
