/** The 2048-byte circular buffers of the JTAG UART driver, as values. One index is owned by the
    producer, the other by the consumer; one cell always stays empty. */
module Ring {
  import opened Words

  const BUF_LEN: nat := 2048
  const CAPACITY: nat := BUF_LEN - 1

  datatype Ring = Ring(buf: seq<byte>, inp: nat, out: nat) {
    ghost predicate Valid() {
      |buf| == BUF_LEN && inp < BUF_LEN && out < BUF_LEN
    }

    /** How many bytes are queued. */
    function Count(): nat
      requires Valid()
    {
      if out <= inp then inp - out else BUF_LEN - out + inp
    }

    function Free(): nat
      requires Valid()
    {
      CAPACITY - Count()
    }

    /** The queued bytes, oldest first. */
    function Contents(): (c: seq<byte>)
      requires Valid()
      ensures |c| == Count()
    {
      seq(Count(), i requires 0 <= i < Count() && |buf| == BUF_LEN => buf[(out + i) % BUF_LEN])
    }

    /** The `n` oldest queued bytes, taken one by one from the consumer's index. */
    function Oldest(n: nat): (c: seq<byte>)
      requires Valid() && n <= Count()
    {
      if n == 0 then [] else Oldest(n - 1) + [buf[(out + n - 1) % BUF_LEN]]
    }

    /** The producer stores one byte and moves its index. */
    function Push(b: byte): Ring
      requires Valid()
    {
      Ring(buf[inp := b], (inp + 1) % BUF_LEN, out)
    }

    /** The producer stores a byte `k` cells past its index, which stays. */
    function Store(k: nat, b: byte): Ring
      requires Valid() && inp + k < BUF_LEN
    {
      Ring(buf[inp + k := b], inp, out)
    }

    /** The consumer moves its index past `n` bytes. */
    function Drop(n: nat): Ring
      requires Valid() && n <= Count()
    {
      this.(out := (out + n) % BUF_LEN)
    }

    /** The producer moves its index past `n` cells it has filled. */
    function Publish(n: nat): Ring
      requires Valid()
    {
      this.(inp := (inp + n) % BUF_LEN)
    }
  }

  /** The zero-initialised buffer the driver boots with. */
  function EmptyRing(): (r: Ring)
    ensures r.Valid() && r.Count() == 0
  {
    Ring(Zeros(BUF_LEN), 0, 0)
  }

  /** Cells the writer may fill without wrapping, from the indices it has read. */
  function FreeRun(inp: nat, out: nat): nat
    requires inp < BUF_LEN && out < BUF_LEN
  {
    if inp < out then out - 1 - inp
    else if out > 0 then BUF_LEN - inp
    else BUF_LEN - 1 - inp
  }

  /** Bytes the reader may take without wrapping, from the indices it has read. */
  function DataRun(inp: nat, out: nat): nat
    requires inp < BUF_LEN && out < BUF_LEN
  {
    if inp >= out then inp - out else BUF_LEN - out
  }

  predicate Queued(r: Ring, i: nat)
    requires r.Valid()
  {
    if r.out <= r.inp then r.out <= i < r.inp else r.out <= i || i < r.inp
  }

  /** Two rings whose cells agree wherever bytes are queued hold the same bytes. */
  lemma OnlyQueuedCellsMatter(r: Ring, buf: seq<byte>)
    requires r.Valid() && |buf| == BUF_LEN
    requires forall i :: 0 <= i < BUF_LEN && Queued(r, i) ==> buf[i] == r.buf[i]
    ensures r.(buf := buf).Contents() == r.Contents()
  {
  }

  /** Writing a cell of the free run changes no queued byte, whatever the consumer did since the run
      was measured. */
  lemma FreeCellIsNotQueued(r: Ring, k: nat)
    requires r.Valid() && r.Count() + k < BUF_LEN && r.inp + k < BUF_LEN
    ensures !Queued(r, r.inp + k)
  {}

  lemma {:induction false} PublishAppends(r: Ring, n: nat)
    requires r.Valid() && n <= r.Free() && r.inp + n <= BUF_LEN
    ensures r.Publish(n).Valid()
    ensures r.Publish(n).Contents() == r.Contents() + r.buf[r.inp..r.inp + n]
  {
    assert r.Publish(n).Contents() == r.Contents() + r.buf[r.inp..r.inp + n];
  }

  lemma PushAppends(r: Ring, b: byte)
    requires r.Valid() && r.Free() > 0
    ensures r.Push(b).Valid()
    ensures r.Push(b).Contents() == r.Contents() + [b]
  {
    var w := r.(buf := r.buf[r.inp := b]);
    FreeCellIsNotQueued(r, 0);
    OnlyQueuedCellsMatter(r, w.buf);
    PublishAppends(w, 1);
    assert w.buf[r.inp..r.inp + 1] == [b];
  }

  lemma DropTakesPrefix(r: Ring, n: nat)
    requires r.Valid() && n <= r.Count()
    ensures r.Drop(n).Valid()
    ensures r.Drop(n).Contents() == r.Contents()[n..]
  {
    var r' := r.Drop(n);
    if r.out + n < BUF_LEN {
      assert r'.out == r.out + n;
    } else {
      assert r'.out == r.out + n - BUF_LEN;
    }
    assert r'.Contents() == r.Contents()[n..];
  }

  lemma DropLeaves(r: Ring, k: nat)
    requires r.Valid() && k <= r.Count()
    ensures r.Drop(k).Valid() && (r.Drop(k).out == r.inp <==> k == r.Count())
  {}

  /** Byte `k` of the queue sits `k` cells past the consumer's index, up to the end of the array. */
  lemma ContentsAt(r: Ring, k: nat)
    requires r.Valid() && k < r.Count()
    ensures r.Contents()[k] == r.buf[(r.out + k) % BUF_LEN]
  {}

  lemma {:induction false} OldestIsPrefix(r: Ring, n: nat)
    requires r.Valid() && n <= r.Count()
    ensures r.Oldest(n) == r.Contents()[..n]
  {
    if n > 0 {
      OldestIsPrefix(r, n - 1);
      ContentsAt(r, n - 1);
      TakeOneMore(r.Contents(), n - 1);
    }
  }

  lemma DropOneMore(r: Ring, k: nat)
    requires r.Valid() && k < r.Count()
    ensures r.Drop(k).Valid() && r.Drop(k).Count() == r.Count() - k
    ensures r.Drop(k).Drop(1) == r.Drop(k + 1)
    ensures r.buf[r.Drop(k).out] == r.Contents()[k]
  {}

  /** The run the writer computes from the consumer index it read is inside the free space, and it is
      zero only when the ring is full. */
  lemma FreeRunFits(r: Ring)
    requires r.Valid()
    ensures r.inp + FreeRun(r.inp, r.out) <= BUF_LEN
    ensures FreeRun(r.inp, r.out) <= r.Free()
    ensures FreeRun(r.inp, r.out) == 0 <==> r.Free() == 0
  {}

  lemma DataRunFits(r: Ring)
    requires r.Valid()
    ensures r.out + DataRun(r.inp, r.out) <= BUF_LEN
    ensures DataRun(r.inp, r.out) <= r.Count()
    ensures DataRun(r.inp, r.out) == 0 <==> r.Count() == 0
  {}

  /** Several pushes in order. */
  function PushAll(r: Ring, bytes: seq<byte>): (r': Ring)
    requires r.Valid() && |bytes| <= r.Free()
    ensures r'.Valid() && r'.out == r.out && r'.Count() == r.Count() + |bytes|
    decreases |bytes|
  {
    if bytes == [] then r else PushAll(r.Push(bytes[0]), bytes[1..])
  }

  lemma {:induction false} PushAllAppends(r: Ring, bytes: seq<byte>)
    requires r.Valid() && |bytes| <= r.Free()
    ensures PushAll(r, bytes).Contents() == r.Contents() + bytes
    decreases |bytes|
  {
    if bytes == [] {
    } else {
      PushAppends(r, bytes[0]);
      PushAllAppends(r.Push(bytes[0]), bytes[1..]);
      assert bytes == [bytes[0]] + bytes[1..];
    }
  }

  lemma {:induction false} PushAllSnoc(r: Ring, bytes: seq<byte>, b: byte)
    requires r.Valid() && |bytes| < r.Free()
    ensures PushAll(r, bytes + [b]) == PushAll(r, bytes).Push(b)
    decreases |bytes|
  {
    if bytes == [] {
      assert [b][1..] == [];
      PushAppends(r, b);
    } else {
      PushAppends(r, bytes[0]);
      PushAllSnoc(r.Push(bytes[0]), bytes[1..], b);
      assert (bytes + [b])[1..] == bytes[1..] + [b];
    }
  }
}
