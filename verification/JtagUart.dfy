/** The JTAG UART driver object: both buffers as arrays, the interrupt routine, and the two
    non-blocking thread routines with interrupts let in between all shared-memory accesses. The
    contracts use the ring values and the step functions of the two state machines. */
module JtagUart {
  import opened Words
  import opened Ring
  import JtagHost
  import JtagTx
  import JtagRx

  type Reply = JtagRx.Reply

  /** One round of the interrupt routine: the pending bits and FIFO space of the CONTROL register,
      and the answers of the DATA register during the round. */
  datatype Pass = Pass(ri: bool, wi: bool, space: nat, replies: seq<Reply>)

  /** `bytes` left the ring in order. */
  ghost predicate Transmitted(r: Ring, r': Ring, bytes: seq<byte>)
    requires r.Valid() && r'.Valid()
  {
    && |bytes| <= r.Count() && r' == r.Drop(|bytes|)
    && r.Contents() == bytes + r'.Contents()
  }

  /** `chars` entered the ring in order. */
  ghost predicate Received(r: Ring, r': Ring, chars: seq<byte>)
    requires r.Valid() && r'.Valid()
  {
    && |chars| <= r.Free() && r'.Count() == r.Count() + |chars| && r'.out == r.out
    && r'.Contents() == r.Contents() + chars
  }

  lemma DropIsTransmitted(r: Ring, n: nat)
    requires r.Valid() && n <= r.Count()
    ensures r.Drop(n).Valid() && Transmitted(r, r.Drop(n), r.Contents()[..n])
  {
    DropTakesPrefix(r, n);
  }

  lemma TransmittedTwice(r0: Ring, r1: Ring, r2: Ring, a: seq<byte>, b: seq<byte>)
    requires r0.Valid() && r1.Valid() && r2.Valid()
    requires Transmitted(r0, r1, a) && Transmitted(r1, r2, b)
    ensures Transmitted(r0, r2, a + b)
  {
    assert a + (b + r2.Contents()) == (a + b) + r2.Contents();
    var c := r0.Contents();
    assert |c| == |a| + |b| + |r2.Contents()|;
  }

  lemma ReceivedTwice(r0: Ring, r1: Ring, r2: Ring, a: seq<byte>, b: seq<byte>)
    requires r0.Valid() && r1.Valid() && r2.Valid()
    requires Received(r0, r1, a) && Received(r1, r2, b)
    ensures Received(r0, r2, a + b)
  {
    assert (r0.Contents() + a) + b == r0.Contents() + (a + b);
  }

  /** The stopping point of the receive loop is the one the state machine uses. */
  lemma {:induction false} StoredIsUnique(free: nat, replies: seq<Reply>, i: nat)
    requires i <= free && i <= |replies|
    requires forall j :: 0 <= j < i ==> replies[j].valid
    requires i == free || i == |replies| || !replies[i].valid
    ensures JtagRx.Stored(free, replies) == i
    decreases i
  {
    if i == 0 {
    } else {
      StoredIsUnique(free - 1, replies[1..], i - 1);
    }
  }

  lemma Drained(free: nat, replies: seq<Reply>, n: nat, left: bool)
    requires n <= free && n <= |replies| && forall j :: 0 <= j < n ==> replies[j].valid
    requires if n == free then left == (n == 0 || replies[n - 1].avail > 0)
             else (n == |replies| || !replies[n].valid) && left == (n < |replies| && replies[n].avail > 0)
    ensures n == JtagRx.Stored(free, replies) && left == JtagRx.DataLeft(free, replies)
  {
    StoredIsUnique(free, replies, n);
  }

  /** The ring after the first `n` answers have been stored. */
  function Filled(r: Ring, replies: seq<Reply>, n: nat): (r': Ring)
    requires r.Valid() && n <= |replies| && n <= r.Free()
    ensures r'.Valid() && r'.Free() == r.Free() - n && r'.out == r.out
  {
    PushAll(r, JtagRx.Chars(replies[..n]))
  }

  lemma {:induction false} CharsAt(replies: seq<Reply>, n: nat)
    requires n <= |replies|
    ensures forall i :: 0 <= i < n ==> JtagRx.Chars(replies[..n])[i] == replies[i].data
    decreases n
  {
    if n > 0 {
      CharsAt(replies, n - 1);
      JtagRx.CharsSnoc(replies, n - 1);
    }
  }

  lemma FilledNext(r: Ring, replies: seq<Reply>, n: nat)
    requires r.Valid() && n < |replies| && n < r.Free()
    ensures Filled(r, replies, n + 1) == Filled(r, replies, n).Push(replies[n].data)
    ensures JtagRx.Chars(replies[..n + 1]) == JtagRx.Chars(replies[..n]) + [replies[n].data]
  {
    JtagRx.CharsSnoc(replies, n);
    PushAllSnoc(r, JtagRx.Chars(replies[..n]), replies[n].data);
  }

  /** Both rings and both enable bits. */
  datatype Device = Device(tx: Ring, we: bool, rx: Ring, re: bool) {
    ghost predicate Valid() {
      tx.Valid() && rx.Valid()
    }
  }

  /** One round: what is pending is served, the receiver first. */
  function AfterPass(d: Device, pass: Pass): (d': Device)
    requires d.Valid()
    ensures d'.Valid()
  {
    var n, m := JtagRx.Stored(d.rx.Free(), pass.replies), JtagTx.IsrCount(d.tx, pass.space);
    var d1 := if !pass.ri then d
              else d.(rx := Filled(d.rx, pass.replies, n), re := d.re && !JtagRx.DataLeft(d.rx.Free(), pass.replies));
    if !pass.wi then d1 else d1.(tx := d.tx.Drop(m), we := d.we && m == pass.space)
  }

  /** The bytes the round gives to the device, and the characters it takes. */
  function SentIn(d: Device, pass: Pass): seq<byte>
    requires d.Valid()
  {
    if pass.wi then d.tx.Contents()[..JtagTx.IsrCount(d.tx, pass.space)] else []
  }

  function GotIn(d: Device, pass: Pass): seq<byte>
    requires d.Valid()
  {
    if pass.ri then JtagRx.Chars(pass.replies[..JtagRx.Stored(d.rx.Free(), pass.replies)]) else []
  }

  /** All rounds up to the first that finds nothing pending. */
  function AfterPasses(d: Device, passes: seq<Pass>): (d': Device)
    requires d.Valid()
    ensures d'.Valid()
    decreases |passes|
  {
    if passes == [] || !Pending(passes[0]) then d
    else AfterPasses(AfterPass(d, passes[0]), passes[1..])
  }

  predicate Pending(pass: Pass) {
    pass.ri || pass.wi
  }

  function SentBy(d: Device, passes: seq<Pass>): seq<byte>
    requires d.Valid()
    decreases |passes|
  {
    if passes == [] || !Pending(passes[0]) then []
    else SentIn(d, passes[0]) + SentBy(AfterPass(d, passes[0]), passes[1..])
  }

  function GotBy(d: Device, passes: seq<Pass>): seq<byte>
    requires d.Valid()
    decreases |passes|
  {
    if passes == [] || !Pending(passes[0]) then []
    else GotIn(d, passes[0]) + GotBy(AfterPass(d, passes[0]), passes[1..])
  }

  /** A round sends exactly if WI is pending, as many of the oldest bytes as there are and fit, and receives
      exactly if RI is, the valid characters before the first invalid answer or the full ring. */
  lemma PassMoves(d: Device, pass: Pass)
    requires d.Valid()
    ensures var d', tx, rx := AfterPass(d, pass), SentIn(d, pass), GotIn(d, pass);
            && Transmitted(d.tx, d'.tx, tx) && Received(d.rx, d'.rx, rx)
            && |tx| == (if pass.wi then Min(pass.space, d.tx.Count()) else 0)
            && |rx| <= |pass.replies| && (!pass.ri ==> rx == [])
            && (forall i :: 0 <= i < |rx| ==> pass.replies[i].valid && rx[i] == pass.replies[i].data)
            && (pass.ri && |rx| < |pass.replies| ==> d'.rx.Free() == 0 || !pass.replies[|rx|].valid)
            && (d.we && d'.tx.Count() > 0 ==> d'.we)
            && (JtagRx.Plausible(pass.replies) && d.re && !d'.re ==> d'.rx.Free() == 0)
  {
    DropIsTransmitted(d.tx, |SentIn(d, pass)|);
    PushAllAppends(d.rx, GotIn(d, pass));
    CharsAt(pass.replies, |GotIn(d, pass)|);
  }

  /** So do all of them: bytes leave and enter the rings in order, the transmit interrupt stays enabled while there
      is something to send, and reception goes off only with a full ring. */
  lemma {:induction false} PassesMove(d: Device, passes: seq<Pass>)
    requires d.Valid()
    ensures var d' := AfterPasses(d, passes);
            && Transmitted(d.tx, d'.tx, SentBy(d, passes)) && Received(d.rx, d'.rx, GotBy(d, passes))
            && (d.we && d'.tx.Count() > 0 ==> d'.we)
            && (AllPlausible(passes) && d.re && !d'.re ==> d'.rx.Free() == 0)
    decreases |passes|
  {
    if passes == [] || !Pending(passes[0]) {
      DropIsTransmitted(d.tx, 0);
      assert d.rx.Contents() + [] == d.rx.Contents();
    } else {
      var d1, rest := AfterPass(d, passes[0]), passes[1..];
      PassMoves(d, passes[0]);
      PassesMove(d1, rest);
      TransmittedTwice(d.tx, d1.tx, AfterPasses(d1, rest).tx, SentIn(d, passes[0]), SentBy(d1, rest));
      ReceivedTwice(d.rx, d1.rx, AfterPasses(d1, rest).rx, GotIn(d, passes[0]), GotBy(d1, rest));
    }
  }

  /** With `tx` and `rx` moved so far, this is what is still to be done. */
  predicate Served(d0: Device, d: Device, passes: seq<Pass>, rest: seq<Pass>, tx: seq<byte>, rx: seq<byte>)
    requires d0.Valid() && d.Valid()
  {
    && AfterPasses(d, rest) == AfterPasses(d0, passes)
    && tx + SentBy(d, rest) == SentBy(d0, passes) && rx + GotBy(d, rest) == GotBy(d0, passes)
  }

  lemma ServeNext(d0: Device, d: Device, passes: seq<Pass>, rest: seq<Pass>, tx: seq<byte>, rx: seq<byte>)
    requires d0.Valid() && d.Valid() && rest != [] && Served(d0, d, passes, rest, tx, rx)
    ensures if Pending(rest[0])
            then Served(d0, AfterPass(d, rest[0]), passes, rest[1..], tx + SentIn(d, rest[0]), rx + GotIn(d, rest[0]))
            else d == AfterPasses(d0, passes) && tx == SentBy(d0, passes) && rx == GotBy(d0, passes)
  {
    if Pending(rest[0]) {
      var d1 := AfterPass(d, rest[0]);
      Regroup(tx, SentIn(d, rest[0]), SentBy(d1, rest[1..]));
      Regroup(rx, GotIn(d, rest[0]), GotBy(d1, rest[1..]));
    } else {
      assert tx + [] == tx && rx + [] == rx;
    }
  }

  predicate AllPlausible(passes: seq<Pass>) {
    forall i :: 0 <= i < |passes| ==> JtagRx.Plausible(passes[i].replies)
  }

  /** The rounds of the driver object are the interrupt steps of the two state machines: a round with both bits
      pending is one of each, and a bit that is not pending leaves its direction alone. */
  lemma PassMakesBothSteps(t: JtagTx.State, r: JtagRx.State, pass: Pass)
    requires JtagTx.Sane(t) && JtagRx.Sane(r)
    ensures var t' := if pass.wi then JtagTx.IsrStep(t, pass.space) else t;
            var r' := if pass.ri then JtagRx.IsrStep(r, pass.replies) else r;
            AfterPass(Device(t.ring, t.we, r.ring, r.re), pass) == Device(t'.ring, t'.we, r'.ring, r'.re)
  {}

  class JtagUart {
    var rxIn: nat
    var rxOut: nat
    var txIn: nat
    var txOut: nat
    const rxBuf: array<byte>
    const txBuf: array<byte>
    var re: bool
    var we: bool
    var sent: seq<byte>    // what the device was given through the DATA register
    var popped: seq<byte>  // the valid characters the device gave

    ghost predicate Valid()
      reads this, rxBuf, txBuf
    {
      && rxBuf != txBuf
      && TxRing().Valid() && RxRing().Valid()
    }

    ghost function TxRing(): Ring
      reads this`txIn, this`txOut, txBuf
    {
      Ring(txBuf[..], txIn, txOut)
    }

    ghost function RxRing(): Ring
      reads this`rxIn, this`rxOut, rxBuf
    {
      Ring(rxBuf[..], rxIn, rxOut)
    }

    ghost function View(): Device
      reads this, rxBuf, txBuf
    {
      Device(TxRing(), we, RxRing(), re)
    }

    constructor ()
      ensures Valid() && fresh(rxBuf) && fresh(txBuf)
      ensures TxRing().Contents() == RxRing().Contents() == sent == popped == []
      ensures re && !we
    {
      rxIn, rxOut, txIn, txOut := 0, 0, 0, 0;
      rxBuf := new byte[BUF_LEN](_ => 0);
      txBuf := new byte[BUF_LEN](_ => 0);
      re, we := true, false;
      sent, popped := [], [];
    }

    /** The interrupt routine stores one character. */
    method TakeOne(c: byte)
      requires Valid() && RxRing().Free() > 0
      modifies this`rxIn, this`popped, rxBuf
      ensures Valid()
      ensures RxRing() == old(RxRing()).Push(c) && popped == old(popped) + [c]
    {
      rxBuf[rxIn] := c;
      rxIn := (rxIn + 1) % BUF_LEN;
      popped := popped + [c];
    }

    /** The interrupt routine moves one byte to the device. */
    method SendOne()
      requires Valid() && TxRing().Count() > 0
      modifies this`txOut, this`sent
      ensures Valid() && TxRing() == old(TxRing()).Drop(1)
      ensures sent == old(sent) + [old(txBuf[txOut])]
    {
      sent := sent + [txBuf[txOut]];
      txOut := (txOut + 1) % BUF_LEN;
    }

    /** It stores answer `n` behind the earlier ones. */
    method TakeNth(ghost r0: Ring, replies: seq<Reply>, n: nat)
      requires Valid() && r0.Valid() && n < |replies| && n < r0.Free() && RxRing() == Filled(r0, replies, n)
      modifies this`rxIn, this`popped, rxBuf
      ensures Valid() && RxRing() == Filled(r0, replies, n + 1)
      ensures old(popped) + [replies[n].data] == popped
      ensures JtagRx.Chars(replies[..n + 1]) == JtagRx.Chars(replies[..n]) + [replies[n].data]
    {
      FilledNext(r0, replies, n);
      TakeOne(replies[n].data);
    }

    /** The loop of the receive branch; `left` tells whether the last answer announced more data. */
    method DrainFifo(replies: seq<Reply>) returns (n: nat, left: bool)
      requires Valid()
      modifies this`rxIn, this`popped, rxBuf
      ensures Valid()
      ensures n == JtagRx.Stored(old(RxRing()).Free(), replies)
      ensures RxRing() == Filled(old(RxRing()), replies, n)
      ensures popped == old(popped) + JtagRx.Chars(replies[..n])
      ensures left == JtagRx.DataLeft(old(RxRing()).Free(), replies)
    {
      ghost var r0 := RxRing();
      n, left := 0, true;
      while true
        invariant Valid() && n <= |replies| && n <= r0.Free()
        invariant RxRing() == Filled(r0, replies, n)
        invariant popped == old(popped) + JtagRx.Chars(replies[..n])
        invariant forall j :: 0 <= j < n ==> replies[j].valid
        invariant left == (n == 0 || replies[n - 1].avail > 0)
        decreases |replies| - n
      {
        var next := (rxIn + 1) % BUF_LEN;
        if next == rxOut {
          Drained(r0.Free(), replies, n, left);
          return;
        }
        left := n < |replies| && replies[n].avail > 0;
        if n == |replies| || !replies[n].valid {
          Drained(r0.Free(), replies, n, left);
          return;
        }
        TakeNth(r0, replies, n);
        n := n + 1;
      }
    }

    /** The receive branch of the interrupt routine. */
    method ReceivePass(replies: seq<Reply>) returns (chars: seq<byte>)
      requires Valid()
      modifies this`rxIn, this`re, this`popped, rxBuf
      ensures Valid()
      ensures chars == JtagRx.Chars(replies[..JtagRx.Stored(old(RxRing()).Free(), replies)])
      ensures RxRing() == PushAll(old(RxRing()), chars) && popped == old(popped) + chars
      ensures re == (old(re) && !JtagRx.DataLeft(old(RxRing()).Free(), replies))
    {
      var n, left := DrainFifo(replies);
      if left {
        re := false;
      }
      chars := JtagRx.Chars(replies[..n]);
    }

    /** It moves the next byte of the ring it found, after `bytes`. */
    method SendNext(ghost r0: Ring, bytes: seq<byte>) returns (bytes': seq<byte>)
      requires Valid() && r0.Valid() && |bytes| < r0.Count()
      requires TxRing() == r0.Drop(|bytes|) && bytes == r0.Contents()[..|bytes|]
      modifies this`txOut, this`sent
      ensures Valid() && |bytes'| == |bytes| + 1 && TxRing() == r0.Drop(|bytes'|) && bytes' == r0.Contents()[..|bytes'|]
      ensures bytes' == bytes + [old(txBuf[txOut])] && sent == old(sent) + [old(txBuf[txOut])]
    {
      DropOneMore(r0, |bytes|);
      TakeOneMore(r0.Contents(), |bytes|);
      bytes' := bytes + [txBuf[txOut]];
      SendOne();
    }

    /** The transmit branch of the interrupt routine. */
    method TransmitPass(fifoSpace: nat) returns (bytes: seq<byte>)
      requires Valid()
      modifies this`txOut, this`we, this`sent
      ensures Valid()
      ensures var m := JtagTx.IsrCount(old(TxRing()), fifoSpace);
              && TxRing() == old(TxRing()).Drop(m) && bytes == old(TxRing()).Contents()[..m]
              && we == (old(we) && m == fifoSpace)
      ensures sent == old(sent) + bytes
    {
      ghost var r0 := TxRing();
      var space := fifoSpace;
      bytes := [];
      while space > 0 && txOut != txIn
        invariant Valid() && |bytes| <= r0.Count() && space == fifoSpace - |bytes|
        invariant TxRing() == r0.Drop(|bytes|) && bytes == r0.Contents()[..|bytes|]
        invariant sent == old(sent) + bytes
        invariant we == old(we)
      {
        ghost var was := bytes;
        DropLeaves(r0, |was|);
        bytes := SendNext(r0, bytes);
        Regroup(old(sent), was, [bytes[|was|]]);
        space := space - 1;
      }
      DropLeaves(r0, |bytes|);
      if space > 0 {
        we := false;
      }
    }

    /** One round of the interrupt routine. */
    method Round(pass: Pass) returns (tx: seq<byte>, rx: seq<byte>)
      requires Valid()
      modifies this`rxIn, this`re, this`popped, rxBuf, this`txOut, this`we, this`sent
      ensures Valid() && View() == AfterPass(old(View()), pass)
      ensures tx == SentIn(old(View()), pass) && sent == old(sent) + tx
      ensures rx == GotIn(old(View()), pass) && popped == old(popped) + rx
    {
      tx, rx := [], [];
      if pass.ri {
        rx := ReceivePass(pass.replies);
      }
      if pass.wi {
        tx := TransmitPass(pass.space);
      }
    }

    /** The whole interrupt routine: rounds until the CONTROL register shows nothing pending. */
    method Irq(passes: seq<Pass>) returns (tx: seq<byte>, rx: seq<byte>)
      requires Valid()
      modifies this`rxIn, this`re, this`popped, rxBuf, this`txOut, this`we, this`sent
      ensures Valid() && View() == AfterPasses(old(View()), passes)
      ensures sent == old(sent) + tx && Transmitted(old(TxRing()), TxRing(), tx)
      ensures popped == old(popped) + rx && Received(old(RxRing()), RxRing(), rx)
      ensures TxRing().Count() > 0 && old(we) ==> we
      ensures AllPlausible(passes) && old(re) && !re ==> RxRing().Free() == 0
    {
      ghost var d0, s0, p0 := View(), sent, popped;
      PassesMove(d0, passes);
      var rest := passes;
      tx, rx := [], [];
      while rest != []
        invariant Valid() && Served(d0, View(), passes, rest, tx, rx)
        invariant sent == s0 + tx && popped == p0 + rx
        decreases |rest|
      {
        var pass := rest[0];
        ServeNext(d0, View(), passes, rest, tx, rx);
        if !pass.ri && !pass.wi {
          return;
        }
        var tx1, rx1 := Round(pass);
        Regroup(s0, tx, tx1);
        Regroup(p0, rx, rx1);
        tx, rx, rest := tx + tx1, rx + rx1, rest[1..];
      }
      assert tx + [] == tx && rx + [] == rx;
    }

    /** An interrupt, or none, at an arbitrary moment and with an arbitrary device. */
    method Interrupt() returns (tx: seq<byte>, rx: seq<byte>)
      requires Valid()
      modifies this`rxIn, this`re, this`popped, rxBuf, this`txOut, this`we, this`sent
      ensures Valid()
      ensures sent == old(sent) + tx && Transmitted(old(TxRing()), TxRing(), tx)
      ensures popped == old(popped) + rx && Received(old(RxRing()), RxRing(), rx)
      ensures sent + TxRing().Contents() == old(sent + TxRing().Contents())
      ensures TxRing().Count() > 0 && old(we) ==> we
    {
      ghost var s0 := sent;
      var passes: seq<Pass> := *;
      tx, rx := Irq(passes);
      Regroup(s0, tx, TxRing().Contents());
    }

    /** The copy into the transmit buffer, with interrupts between the bytes. */
    method CopyIn(chunk: seq<byte>)
      requires Valid() && txIn + |chunk| <= BUF_LEN && |chunk| <= TxRing().Free()
      modifies this`rxIn, this`re, this`popped, rxBuf, this`txOut, this`we, this`sent, txBuf
      ensures Valid() && |chunk| <= TxRing().Free()
      ensures txBuf[txIn..txIn + |chunk|] == chunk
      ensures sent + TxRing().Contents() == old(sent + TxRing().Contents())
      ensures TxRing().Free() >= old(TxRing().Free())
    {
      var k := 0;
      while k < |chunk|
        invariant Valid() && k <= |chunk| <= TxRing().Free()
        invariant txIn == old(txIn)
        invariant txBuf[txIn..txIn + k] == chunk[..k]
        invariant sent + TxRing().Contents() == old(sent + TxRing().Contents())
        invariant TxRing().Free() >= old(TxRing().Free())
      {
        var _, _ := Interrupt();
        ghost var r := TxRing();
        FreeCellIsNotQueued(r, k);
        txBuf[txIn + k] := chunk[k];
        OnlyQueuedCellsMatter(r, txBuf[..]);
        assert TxRing() == r.(buf := txBuf[..]);
        assert txBuf[txIn..txIn + k + 1] == txBuf[txIn..txIn + k] + [chunk[k]];
        k := k + 1;
      }
      assert chunk[..k] == chunk;
    }

    /** The new producer index is stored. */
    method PublishTx(chunk: seq<byte>)
      requires Valid() && txIn + |chunk| <= BUF_LEN && |chunk| <= TxRing().Free()
      requires txBuf[txIn..txIn + |chunk|] == chunk
      modifies this`txIn
      ensures Valid()
      ensures sent + TxRing().Contents() == old(sent + TxRing().Contents()) + chunk
      ensures TxRing().Free() == old(TxRing().Free()) - |chunk|
    {
      ghost var before := TxRing();
      PublishAppends(before, |chunk|);
      txIn := (txIn + |chunk|) % BUF_LEN;
      assert TxRing() == before.Publish(|chunk|);
      Regroup(sent, before.Contents(), chunk);
    }

    /** One turn of the inner loop: `n` bytes are copied in and published. */
    method WriteChunk(data: seq<byte>, done: nat, n: nat, ghost start: seq<byte>)
      requires Valid() && done + n <= |data| && txIn + n <= BUF_LEN && n <= TxRing().Free()
      requires sent + TxRing().Contents() == start + data[..done]
      modifies this, rxBuf, txBuf
      ensures Valid() && TxRing().Free() + n >= old(TxRing().Free())
      ensures sent + TxRing().Contents() == start + data[..done + n]
    {
      CopyIn(data[done..done + n]);
      PublishTx(data[done..done + n]);
      Regroup(start, data[..done], data[done..done + n]);
      assert data[..done + n] == data[..done] + data[done..done + n];
    }

    /** The write routine with O_NONBLOCK. Whatever interrupts arrive, a result of k means the first k
        bytes were queued behind what was there, at least as many as fitted at entry, and unsent
        bytes leave the interrupt enabled. */
    method WriteNonblocking(data: seq<byte>) returns (result: int)
      requires Valid()
      modifies this, rxBuf, txBuf
      ensures Valid()
      ensures var k := if result > 0 then result else 0;
              && k <= |data|
              && sent + TxRing().Contents() == old(sent + TxRing().Contents()) + data[..k]
              && k >= Min(|data|, old(TxRing()).Free())
              && result == JtagTx.ReturnCode(data, true, k)
      ensures TxRing().Count() > 0 ==> we
    {
      ghost var start, free0 := sent + TxRing().Contents(), TxRing().Free();
      var done := 0;
      assert data[..0] == [];
      while done < |data|
        invariant Valid() && done <= |data|
        invariant sent + TxRing().Contents() == start + data[..done]
        invariant done + TxRing().Free() >= free0
        decreases |data| - done
      {
        var _, _ := Interrupt();
        var out := txOut;
        var n := FreeRun(txIn, out);
        FreeRunFits(TxRing());
        if n == 0 {
          break;
        }
        if n > |data| - done {
          n := |data| - done;
        }
        WriteChunk(data, done, n, start);
        done := done + n;
      }
      var _, _ := Interrupt();
      we := true;
      result := JtagTx.ReturnCode(data, true, done);
    }

    /** The copy out of the receive buffer, with interrupts between the bytes. */
    method CopyOut(n: nat) returns (chunk: seq<byte>, arrived: seq<byte>)
      requires Valid() && n <= RxRing().Count() && rxOut + n <= BUF_LEN
      modifies this`rxIn, this`re, this`popped, rxBuf, this`txOut, this`we, this`sent
      ensures Valid() && n <= RxRing().Count()
      ensures chunk == RxRing().Contents()[..n]
      ensures popped == old(popped) + arrived
      ensures RxRing().Contents() == old(RxRing().Contents()) + arrived
    {
      ghost var c0 := RxRing().Contents();
      chunk, arrived := [], [];
      while |chunk| < n
        invariant Valid() && |chunk| <= n <= RxRing().Count() && rxOut == old(rxOut)
        invariant popped == old(popped) + arrived && RxRing().Contents() == c0 + arrived
        invariant chunk == RxRing().Contents()[..|chunk|]
      {
        var _, rx := Interrupt();
        Regroup(c0, arrived, rx);
        arrived := arrived + rx;
        ContentsAt(RxRing(), |chunk|);
        TakeOneMore(RxRing().Contents(), |chunk|);
        chunk := chunk + [rxBuf[rxOut + |chunk|]];
      }
    }

    /** One turn of the inner loop: copy `n` bytes out, then store the new consumer index. */
    method TakeChunk(n: nat) returns (chunk: seq<byte>, arrived: seq<byte>)
      requires Valid() && n <= RxRing().Count() && rxOut + n <= BUF_LEN
      modifies this, rxBuf
      ensures Valid() && |chunk| == n
      ensures popped == old(popped) + arrived
      ensures chunk + RxRing().Contents() == old(RxRing().Contents()) + arrived
    {
      chunk, arrived := CopyOut(n);
      ghost var r := RxRing();
      DropIsTransmitted(r, n);
      rxOut := (rxOut + n) % BUF_LEN;
      assert RxRing() == r.Drop(n);
    }

    /** The read routine with O_NONBLOCK. The bytes returned, followed by the ring, are what was in the
        ring followed by what arrived meanwhile; everything present at entry that fits is returned;
        and taking bytes switches reception on. */
    method ReadNonblocking(space: nat) returns (bytes: seq<byte>, result: int, arrived: seq<byte>)
      requires Valid()
      modifies this, rxBuf
      ensures Valid()
      ensures popped == old(popped) + arrived
      ensures bytes + RxRing().Contents() == old(RxRing().Contents()) + arrived
      ensures Min(space, old(RxRing().Count())) <= |bytes| <= space
      ensures result == if bytes != [] then |bytes| else -JtagHost.EWOULDBLOCK
      ensures bytes != [] ==> re
    {
      ghost var c0 := RxRing().Contents();
      bytes, arrived := [], [];
      while |bytes| < space
        invariant Valid() && |bytes| <= space && popped == old(popped) + arrived
        invariant bytes + RxRing().Contents() == c0 + arrived
        decreases space - |bytes|
      {
        ghost var c1 := RxRing().Contents();
        var _, rx := Interrupt();
        Regroup(bytes, c1, rx);
        Regroup(c0, arrived, rx);
        arrived := arrived + rx;
        var inp, out := rxIn, rxOut;
        var n := DataRun(inp, out);
        DataRunFits(RxRing());
        if n == 0 {
          break;
        }
        if n > space - |bytes| {
          n := space - |bytes|;
        }
        ghost var c2 := RxRing().Contents();
        var chunk, rx2 := TakeChunk(n);
        Regroup(bytes, c2, rx2);
        Regroup(c0, arrived, rx2);
        Regroup(bytes, chunk, RxRing().Contents());
        bytes, arrived := bytes + chunk, arrived + rx2;
      }
      if bytes != [] {
        re := true;
      }
      result := if bytes != [] then |bytes| else -JtagHost.EWOULDBLOCK;
    }

    /** The close routine: it waits until the transmit ring is empty or the host is silent for the
        timeout. `hosts` is the inactivity counter at each poll; interrupts come between the polls. Not
        finished means still waiting after these polls. */
    method Close(nonblock: bool, timeout: nat, hosts: seq<nat>) returns (finished: bool, result: int, polls: nat)
      requires Valid()
      modifies this`rxIn, this`re, this`popped, rxBuf, this`txOut, this`we, this`sent
      ensures Valid()
      ensures sent + TxRing().Contents() == old(sent + TxRing().Contents())
      ensures polls <= |hosts| && forall i :: 0 <= i < polls ==> hosts[i] < timeout
      ensures finished && result == 0 ==>
                sent == old(sent + TxRing().Contents()) || (polls < |hosts| && hosts[polls] >= timeout)
      ensures finished && result != 0 ==>
                nonblock && result == -JtagHost.EWOULDBLOCK && sent < old(sent + TxRing().Contents())
      ensures !finished ==> polls == |hosts| && (nonblock ==> polls == 0)
      ensures (if finished then result != 0 else hosts != []) ==> TxRing().Count() > 0
      ensures old(we) && TxRing().Count() > 0 ==> we
    {
      polls := 0;
      while polls < |hosts|
        invariant Valid() && polls <= |hosts| && (nonblock ==> polls == 0)
        invariant sent + TxRing().Contents() == old(sent + TxRing().Contents())
        invariant forall i :: 0 <= i < polls ==> hosts[i] < timeout
        invariant old(we) && TxRing().Count() > 0 ==> we
        invariant polls > 0 ==> TxRing().Count() > 0
      {
        var _, _ := Interrupt();
        if txOut == txIn || hosts[polls] >= timeout {
          return true, 0, polls;
        }
        if nonblock {
          return true, -JtagHost.EWOULDBLOCK, polls;
        }
        polls := polls + 1;
      }
      finished, result := false, 0;
    }
  }
}
