/** The SPI master transaction: bytes are sent and received under a credit of one, and the register
    access routines of the USB controller on top of it. */
module Spi {
  import opened Words

  /** One read of the status register. RRDY shows only while a sent byte is unanswered: the slave
      returns one byte per byte sent. */
  datatype Status = Status(trdy: bool, rrdy: bool)

  datatype Action = Sent(b: byte) | Received(b: byte)

  /** What a transaction has to put on the wire: the data, then a zero for every byte to be read. */
  function Outgoing(data: seq<byte>, readLength: nat): (o: seq<byte>)
    ensures |o| == |data| + readLength
  {
    data + Zeros(readLength)
  }

  /** How many bytes have left and how many have come back. */
  datatype Progress = Progress(sent: nat, received: nat)

  function Advance(p: Progress, s: Status): Progress {
    if p.sent == p.received then if s.trdy then p.(sent := p.sent + 1) else p
    else if s.rrdy then p.(received := p.received + 1) else p
  }

  /** How far the first `n` status reads let a transaction come: a byte leaves on a read with TRDY while
      none is outstanding, and arrives on a read with RRDY while one is. */
  function Moves(trace: seq<Status>, n: nat): (p: Progress)
    requires n <= |trace|
    ensures p.received <= p.sent <= p.received + 1
  {
    if n == 0 then Progress(0, 0) else Advance(Moves(trace, n - 1), trace[n - 1])
  }

  lemma {:induction false} MovesGrow(trace: seq<Status>, i: nat, n: nat)
    requires i <= n <= |trace|
    ensures Moves(trace, i).sent <= Moves(trace, n).sent && Moves(trace, i).received <= Moves(trace, n).received
    decreases n
  {
    if i < n {
      MovesGrow(trace, i, n - 1);
    }
  }

  /** `n` bytes out, each followed by its answer. */
  function Exchanges(out: seq<byte>, answers: seq<byte>, n: nat): seq<Action>
    requires n <= |out| <= |answers|
  {
    if n == 0 then [] else Exchanges(out, answers, n - 1) + [Sent(out[n - 1]), Received(answers[n - 1])]
  }

  /** What the wire has seen: bytes leave and arrive strictly in turn, so that never more than one is
      outstanding. */
  function Wire(out: seq<byte>, answers: seq<byte>, sent: nat, received: nat): (log: seq<Action>)
    requires received <= sent <= received + 1 && sent <= |out| <= |answers|
  {
    Exchanges(out, answers, received) + if sent > received then [Sent(out[received])] else []
  }

  /** The local variables of the transaction. */
  datatype Books = Books(writePos: nat, writeZeros: nat, readIgnore: nat, readPos: nat, credits: int)

  const DEAD: int := -1024

  /** Never more bytes have left than there are to transfer. */
  predicate Within(p: Progress, total: nat) {
    p.received <= p.sent <= p.received + 1 && p.sent <= total
  }

  /** What the variables are at this point. With nothing to transfer the credit is lost on the first read
      with TRDY. */
  function BooksAt(w: nat, r: nat, p: Progress, lost: bool): Books
    requires Within(p, w + r)
  {
    var sent, received := if p.sent < w then p.sent else w, if p.received < w then p.received else w;
    Books(sent, r - (p.sent - sent), w - received, p.received - received,
          if lost then DEAD else 1 - (p.sent - p.received))
  }

  /** What the read buffer holds after `received` answers: the first `w` are skipped. */
  function ReadAt(read: seq<byte>, answers: seq<byte>, w: nat, received: nat): (after: seq<byte>)
    requires received <= w + |read| <= |answers|
    ensures |after| == |read|
  {
    if received <= w then read
    else ReadAt(read, answers, w, received - 1)[received - 1 - w := answers[received - 1]]
  }

  lemma WireNext(out: seq<byte>, answers: seq<byte>, n: nat)
    requires n < |out| <= |answers|
    ensures Wire(out, answers, n + 1, n) == Wire(out, answers, n, n) + [Sent(out[n])]
    ensures Wire(out, answers, n + 1, n + 1) == Wire(out, answers, n + 1, n) + [Received(answers[n])]
  {
    var log := Exchanges(out, answers, n);
    assert log + [] == log;
    Regroup(log, [Sent(out[n])], [Received(answers[n])]);
  }

  /** The sending half of a turn: the credit is spent on a byte, or lost. */
  method SendTurn(writeData: seq<byte>, ghost r: nat, ghost n: nat, start: Books)
    returns (books: Books, bytes: seq<byte>)
    requires n <= |writeData| + r && (n == |writeData| + r ==> n == 0)
    requires start == BooksAt(|writeData|, r, Progress(n, n), false)
    ensures if n < |writeData| + r
            then bytes == [Outgoing(writeData, r)[n]] && books == BooksAt(|writeData|, r, Progress(n + 1, n), false)
            else bytes == [] && books == BooksAt(|writeData|, r, Progress(n, n), true)
  {
    books := start.(credits := start.credits - 1);
    if books.writePos < |writeData| {
      bytes, books := [writeData[books.writePos]], books.(writePos := books.writePos + 1);
    } else if books.writeZeros > 0 {
      bytes, books := [0], books.(writeZeros := books.writeZeros - 1);
    } else {
      bytes, books := [], books.(credits := DEAD);
    }
  }

  /** The receiving half of a turn: an answer is skipped or stored. */
  method ReceiveTurn(readData: array<byte>, ghost read: seq<byte>, ghost answers: seq<byte>, rxdata: byte, ghost w: nat,
                     ghost n: nat, start: Books)
    returns (books: Books)
    requires n < w + readData.Length <= |answers| && rxdata == answers[n]
    requires |read| == readData.Length && readData[..] == ReadAt(read, answers, w, n)
    requires start == BooksAt(w, readData.Length, Progress(n + 1, n), false)
    modifies readData
    ensures books == BooksAt(w, readData.Length, Progress(n + 1, n + 1), false)
    ensures readData[..] == ReadAt(read, answers, w, n + 1)
  {
    ghost var before := readData[..];
    if start.readIgnore > 0 {
      books := start.(readIgnore := start.readIgnore - 1);
    } else {
      readData[start.readPos] := rxdata;
      assert readData[..] == before[n - w := rxdata];
      books := start.(readPos := start.readPos + 1);
    }
    books := books.(credits := books.credits + 1);
  }

  /** The transaction is over: there was something to transfer, and all of it has come back. */
  predicate Over(p: Progress, total: nat) {
    total > 0 && p.received == total
  }

  /** How far the status reads let a transaction of `total` bytes come. */
  function Reached(trace: seq<Status>, total: nat): (p: Progress)
    ensures Within(p, total)
  {
    var p := Moves(trace, |trace|);
    Progress(Min(p.sent, total), Min(p.received, total))
  }

  lemma {:induction false} OverMeansAll(trace: seq<Status>, i: nat, total: nat)
    requires i <= |trace| && Moves(trace, i).received == total
    ensures Reached(trace, total) == Progress(total, total)
  {
    MovesGrow(trace, i, |trace|);
  }

  /** One turn of the loop, after a status read that is not the last. */
  method Turn(writeData: seq<byte>, readData: array<byte>, ghost read: seq<byte>, answers: seq<byte>, s: Status,
              start: Books, p: Progress, wire: seq<Action>, ghost lost: bool)
    returns (books: Books, p': Progress, log: seq<Action>, ghost lost': bool)
    requires |writeData| + readData.Length <= |answers| && |read| == readData.Length
    requires Within(p, |writeData| + readData.Length) && !Over(p, |writeData| + readData.Length)
    requires lost ==> |writeData| + readData.Length == 0
    requires start == BooksAt(|writeData|, readData.Length, p, lost)
    requires wire == Wire(Outgoing(writeData, readData.Length), answers, p.sent, p.received)
    requires readData[..] == ReadAt(read, answers, |writeData|, p.received)
    modifies readData
    ensures p' == if |writeData| + readData.Length == 0 then p else Advance(p, s)
    ensures Within(p', |writeData| + readData.Length) && (lost' ==> |writeData| + readData.Length == 0)
    ensures books == BooksAt(|writeData|, readData.Length, p', lost')
    ensures log == Wire(Outgoing(writeData, readData.Length), answers, p'.sent, p'.received)
    ensures readData[..] == ReadAt(read, answers, |writeData|, p'.received)
  {
    books, p', log, lost' := start, p, wire, lost;
    var trdy, rrdy := s.trdy, s.rrdy && p.sent > p.received;
    if p.received < |writeData| + readData.Length {
      WireNext(Outgoing(writeData, readData.Length), answers, p.received);
    }
    if trdy && books.credits > 0 {
      var bytes;
      books, bytes := SendTurn(writeData, readData.Length, p.sent, books);
      if bytes == [] {
        lost' := true;
      } else {
        log, p' := log + [Sent(bytes[0])], p.(sent := p.sent + 1);
      }
    }
    if rrdy {
      var rxdata := answers[p.received];
      books := ReceiveTurn(readData, read, answers, rxdata, |writeData|, p.received, books);
      log, p' := log + [Received(rxdata)], p.(received := p.received + 1);
    }
  }

  /** The transaction loop against a slave whose k-th answer is `answers[k]`. The status register is
      read once per entry of `trace`; `finished` tells whether the loop was left. It never is when there
      is nothing to send or read, and is otherwise exactly when the status reads allow all moves. */
  method Command(writeData: seq<byte>, readData: array<byte>, answers: seq<byte>, trace: seq<Status>)
    returns (finished: bool, log: seq<Action>)
    requires |answers| >= |writeData| + readData.Length
    modifies readData
    ensures var total := |writeData| + readData.Length;
            var p := Reached(trace, total);
            && (finished <==> Over(p, total))
            && log == Wire(Outgoing(writeData, readData.Length), answers, p.sent, p.received)
            && readData[..] == ReadAt(old(readData[..]), answers, |writeData|, p.received)
  {
    var w, r := |writeData|, readData.Length;
    ghost var out, read := Outgoing(writeData, r), readData[..];
    var books := Books(0, r, w, 0, 1);
    ghost var lost := false;
    var p := Progress(0, 0);
    log := [];
    var i := 0;
    while i < |trace|
      invariant i <= |trace| && Within(p, w + r) && !Over(p, w + r) && (lost ==> w + r == 0)
      invariant p == if w + r == 0 then Progress(0, 0) else Moves(trace, i)
      invariant books == BooksAt(w, r, p, lost)
      invariant log == Wire(out, answers, p.sent, p.received)
      invariant readData[..] == ReadAt(read, answers, w, p.received)
    {
      var received := p.received;
      books, p, log, lost := Turn(writeData, readData, read, answers, trace[i], books, p, log, lost);
      i := i + 1;
      if p.received > received && books.readIgnore == 0 && books.readPos == r {
        OverMeansAll(trace, i, w + r);
        return true, log;
      }
    }
    finished := false;
  }

  lemma {:induction false} StoredAnswers(read: seq<byte>, answers: seq<byte>, w: nat, n: nat)
    requires n <= |read| && w + |read| <= |answers|
    ensures ReadAt(read, answers, w, w + n) == answers[w..w + n] + read[n..]
  {
    if n > 0 {
      StoredAnswers(read, answers, w, n - 1);
    }
  }

  /** In particular the whole answer is stored, and nothing else, when it is over. */
  lemma OverStoresAnswers(read: seq<byte>, answers: seq<byte>, w: nat)
    requires w + |read| <= |answers|
    ensures ReadAt(read, answers, w, w + |read|) == answers[w..w + |read|]
  {
    StoredAnswers(read, answers, w, |read|);
  }

  /** The read that the transaction waits for: TRDY while no byte is outstanding, RRDY while one is. */
  predicate Helps(s: Status, p: Progress) {
    if p.sent == p.received then s.trdy else s.rrdy
  }

  /** A slave and a controller that keep no one waiting: within any `k` reads the bit comes that is waited for
      at their start. */
  predicate Fair(trace: seq<Status>, k: nat) {
    forall i :: 0 <= i && i + k <= |trace| ==> HelpComes(trace, i, k)
  }

  predicate HelpComes(trace: seq<Status>, i: nat, k: nat)
    requires i + k <= |trace|
  {
    exists j :: i <= j < i + k && Helps(trace[j], Moves(trace, i))
  }

  function Done(p: Progress): nat {
    p.sent + p.received
  }

  lemma {:induction false} NoMoveNoChange(trace: seq<Status>, i: nat, j: nat)
    requires i <= j <= |trace|
    ensures Done(Moves(trace, i)) <= Done(Moves(trace, j))
    ensures Done(Moves(trace, i)) == Done(Moves(trace, j)) ==> Moves(trace, i) == Moves(trace, j)
    decreases j
  {
    if i < j {
      NoMoveNoChange(trace, i, j - 1);
    }
  }

  lemma HelpMoves(p: Progress, s: Status)
    requires p.received <= p.sent <= p.received + 1 && Helps(s, p)
    ensures Done(Advance(p, s)) == Done(p) + 1
  {}

  lemma HelpedByThen(trace: seq<Status>, i: nat, j: nat)
    requires i <= j < |trace| && Helps(trace[j], Moves(trace, i))
    ensures Done(Moves(trace, i)) < Done(Moves(trace, j + 1))
  {
    NoMoveNoChange(trace, i, j);
    NoMoveNoChange(trace, j, j + 1);
    assert Moves(trace, j + 1) == Advance(Moves(trace, j), trace[j]);
    if Moves(trace, j) == Moves(trace, i) {
      HelpMoves(Moves(trace, j), trace[j]);
    }
  }

  /** Every `k` fair reads bring a move. */
  lemma WindowMoves(trace: seq<Status>, i: nat, k: nat)
    requires i + k <= |trace| && HelpComes(trace, i, k)
    ensures Done(Moves(trace, i)) < Done(Moves(trace, i + k))
  {
    var j :| i <= j < i + k && Helps(trace[j], Moves(trace, i));
    HelpedByThen(trace, i, j);
    NoMoveNoChange(trace, j + 1, i + k);
  }

  lemma {:induction false} FairReadsMove(trace: seq<Status>, k: nat, n: nat)
    requires Fair(trace, k) && n * k <= |trace|
    ensures Done(Moves(trace, n * k)) >= n
  {
    if n > 0 {
      assert n * k == (n - 1) * k + k;
      MulNonneg(n - 1, k);
      FairReadsMove(trace, k, n - 1);
      WindowMoves(trace, (n - 1) * k, k);
    }
  }

  /** Under fair status reads every transaction comes to its end: 2 * total * k of them suffice. */
  lemma FairTransactionsFinish(trace: seq<Status>, k: nat, total: nat)
    requires Fair(trace, k) && 2 * total * k <= |trace|
    ensures Reached(trace, total) == Progress(total, total)
  {
    MulNonneg(2 * total, k);
    FairReadsMove(trace, k, 2 * total);
    MovesGrow(trace, 2 * total * k, |trace|);
  }

  /** How many of the first `n` status reads showed TRDY, and how many RRDY. */
  function TrdyReads(trace: seq<Status>, n: nat): nat
    requires n <= |trace|
  {
    if n == 0 then 0 else TrdyReads(trace, n - 1) + if trace[n - 1].trdy then 1 else 0
  }

  function RrdyReads(trace: seq<Status>, n: nat): nat
    requires n <= |trace|
  {
    if n == 0 then 0 else RrdyReads(trace, n - 1) + if trace[n - 1].rrdy then 1 else 0
  }

  /** Every byte that leaves needs a read with TRDY, every byte that comes back one with RRDY, and no byte leaves
      while another is outstanding. */
  lemma {:induction false} MovesNeedReads(trace: seq<Status>, n: nat)
    requires n <= |trace|
    ensures Moves(trace, n).sent <= TrdyReads(trace, n) && Moves(trace, n).received <= RrdyReads(trace, n)
    ensures Moves(trace, n).sent <= RrdyReads(trace, n) + 1
  {
    if n > 0 {
      MovesNeedReads(trace, n - 1);
    }
  }

  /** Multi-byte register write: the command byte with the write bit, then the data. */
  method MaxBytesWr(reg: byte, nbytes: byte, data: seq<byte>, answers: seq<byte>, trace: seq<Status>)
    returns (finished: bool, log: seq<Action>)
    requires |data| == nbytes && |answers| > nbytes
    ensures finished <==> Reached(trace, 1 + nbytes).received == 1 + nbytes
    ensures log == Wire([(reg + 2) % 256] + data, answers,
                        Reached(trace, 1 + nbytes).sent, Reached(trace, 1 + nbytes).received)
  {
    var buf := new byte[1 + nbytes](_ => 0);
    buf[0] := (reg + 2) % 256;
    var n := 0;
    while n < nbytes
      invariant 0 <= n <= nbytes && buf[0] == (reg + 2) % 256
      invariant forall k :: 0 <= k < n ==> buf[k + 1] == data[k]
    {
      buf[n + 1] := data[n];
      n := n + 1;
    }
    assert buf[..] == [(reg + 2) % 256] + data;
    var none := new byte[0];
    finished, log := Command(buf[..], none, answers, trace);
    assert Outgoing(buf[..], 0) == [(reg + 2) % 256] + data;
  }

  /** Multi-byte register read: the command byte, then as many answers as asked for, skipping the
      status byte that comes back with the command. */
  method MaxBytesRd(reg: byte, nbytes: byte, answers: seq<byte>, trace: seq<Status>)
    returns (finished: bool, data: seq<byte>, log: seq<Action>)
    requires |answers| > nbytes
    ensures finished ==> data == answers[1..1 + nbytes]
    ensures finished <==> Reached(trace, 1 + nbytes).received == 1 + nbytes
    ensures log == Wire([reg] + Zeros(nbytes), answers,
                        Reached(trace, 1 + nbytes).sent, Reached(trace, 1 + nbytes).received)
  {
    var buf := new byte[1](_ => reg);
    var dest := new byte[nbytes](_ => 0);
    assert buf[..] == [reg];
    ghost var read := dest[..];
    finished, log := Command(buf[..], dest, answers, trace);
    OverStoresAnswers(read, answers, 1);
    data := dest[..];
  }

  function SentBytes(log: seq<Action>): seq<byte> {
    if log == [] then []
    else
      var last := log[|log| - 1];
      SentBytes(log[..|log| - 1]) + if last.Sent? then [last.b] else []
  }

  function ReceivedBytes(log: seq<Action>): seq<byte> {
    if log == [] then []
    else
      var last := log[|log| - 1];
      ReceivedBytes(log[..|log| - 1]) + if last.Received? then [last.b] else []
  }

  lemma BytesSnoc(log: seq<Action>, a: Action)
    ensures SentBytes(log + [a]) == SentBytes(log) + if a.Sent? then [a.b] else []
    ensures ReceivedBytes(log + [a]) == ReceivedBytes(log) + if a.Received? then [a.b] else []
  {
    assert (log + [a])[..|log|] == log;
  }

  lemma {:induction false} ExchangesCarry(out: seq<byte>, answers: seq<byte>, n: nat)
    requires n <= |out| <= |answers|
    ensures SentBytes(Exchanges(out, answers, n)) == out[..n]
    ensures ReceivedBytes(Exchanges(out, answers, n)) == answers[..n]
  {
    if n > 0 {
      var log, a, b := Exchanges(out, answers, n - 1), Sent(out[n - 1]), Received(answers[n - 1]);
      ExchangesCarry(out, answers, n - 1);
      BytesSnoc(log, a);
      BytesSnoc(log + [a], b);
      assert log + [a, b] == log + [a] + [b];
      TakeOneMore(out, n - 1);
      TakeOneMore(answers, n - 1);
    }
  }

  /** The wire carries the outgoing bytes and the answers, in order. */
  lemma WireCarriesOutgoing(out: seq<byte>, answers: seq<byte>, sent: nat, received: nat)
    requires received <= sent <= received + 1 && sent <= |out| <= |answers|
    ensures SentBytes(Wire(out, answers, sent, received)) == out[..sent]
    ensures ReceivedBytes(Wire(out, answers, sent, received)) == answers[..received]
  {
    ExchangesCarry(out, answers, received);
    var log := Exchanges(out, answers, received);
    if sent > received {
      BytesSnoc(log, Sent(out[received]));
      TakeOneMore(out, received);
    } else {
      assert log + [] == log;
    }
  }
}
