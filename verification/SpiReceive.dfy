/** The receive path of the SPI loader end to end: transfers feed the ring through the
    frame scan, and the read calls take bytes out (fw_loader_io_linux_spi.c). */
module SpiReceive {
  import opened Basics
  import opened SpiRing
  import opened SpiFrames

  const MAX_RX_FRAME := 10

  /** The ring as a queue, and the scanner's outstanding bytes. */
  datatype Link = Link(queue: seq<Byte>, remaining: nat)

  function AppendAll(q: seq<Byte>, writes: seq<seq<Byte>>): seq<Byte>
    decreases |writes|
  {
    if writes == [] then q else AppendAll(Append(q, writes[0]), writes[1..])
  }

  function Receive(l: Link, miso: seq<Byte>): Link {
    var p := Transfer(miso, l.remaining);
    Link(AppendAll(l.queue, p.writes), p.remaining)
  }

  /** A signed count as the unsigned 16-bit length of the ring read. */
  function ToUint16(n: int): nat {
    n % 0x1_0000
  }

  function Take(l: Link, count: int): (Link, seq<Byte>) {
    var n := Min(ToUint16(count), |l.queue|);
    (l.(queue := l.queue[n..]), l.queue[..n])
  }

  /** The calls of the interface; a slave is a transfer that went through, if any. */
  datatype Slave = Quiet | Sends(miso: seq<Byte>)
  datatype Call = ReadChars(count: int, slave: Slave) | OtherTransfer(slave: Slave)

  function Step(l: Link, call: Call): (Link, seq<Byte>) {
    match call
    case ReadChars(count, slave) =>
      if |l.queue| >= count || slave.Quiet? then
        Take(l, count)
      else
        Take(Receive(l, slave.miso), count)
    case OtherTransfer(slave) =>
      if slave.Quiet? then (l, []) else (Receive(l, slave.miso), [])
  }

  /** The transfer a call makes, given what is already queued. */
  function Miso(l: Link, call: Call): seq<Byte> {
    if call.slave.Quiet? || (call.ReadChars? && |l.queue| >= call.count) then [] else call.slave.miso
  }

  /** Appending write by write is appending everything, as long as it all fits. */
  lemma {:induction false} AppendAllFits(q: seq<Byte>, writes: seq<seq<Byte>>)
    requires |q| < RING_SIZE
    ensures |AppendAll(q, writes)| < RING_SIZE
    ensures AppendAll(q, writes) == q + Flatten(writes) <==> |q| + |Flatten(writes)| < RING_SIZE
    decreases |writes|
  {
    if writes == [] {
      assert q + Flatten(writes) == q;
    } else {
      var q' := Append(q, writes[0]);
      AppendAllFits(q', writes[1..]);
      if |q| + |Flatten(writes)| < RING_SIZE {
        assert q' + Flatten(writes[1..]) == q + Flatten(writes);
      }
    }
  }

  /** A whole-frame transfer reaches the queue intact exactly when it does not fill the
      ring. */
  lemma ReceiveFits(l: Link, miso: seq<Byte>)
    requires l.remaining == 0 && |l.queue| < RING_SIZE && WholeFrames(miso)
    ensures Receive(l, miso).remaining == 0 && |Receive(l, miso).queue| < RING_SIZE
    ensures Receive(l, miso).queue == l.queue + Flatten(Frames(Items(miso)))
            <==> |l.queue| + |Flatten(Frames(Items(miso)))| < RING_SIZE
  {
    WholeIffNothingRemains(miso);
    PrintItems(miso);
    AppendAllFits(l.queue, Parse(miso).writes);
  }

  /** The bytes of the frames are among the bytes of the transfer. */
  lemma {:induction false} PayloadLength(b: seq<Byte>)
    ensures |Flatten(Parse(b).writes)| <= |b|
  {
    if b != [] {
      var len := FrameLen(b[0]);
      if len == 0 {
        PayloadLength(b[1..]);
      } else if len <= |b| {
        PayloadLength(b[len..]);
        assert Parse(b).writes[1..] == Parse(b[len..]).writes;
      } else {
        assert Flatten([b]) == b + Flatten([]);
      }
    }
  }

  function Payload(miso: seq<Byte>): seq<Byte> {
    Flatten(Frames(Items(miso)))
  }

  /** Reads of up to 41 bytes over ten-byte transfers; any other transfer must fit.  Every
      transfer holds whole frames. */
  predicate Admissible(l: Link, call: Call) {
    && Parse(Miso(l, call)).remaining == 0
    && (call.ReadChars? ==> call.count <= 41 && |Miso(l, call)| <= MAX_RX_FRAME)
    && (call.OtherTransfer? ==> |l.queue| + |Payload(Miso(l, call))| < RING_SIZE)
  }

  predicate AdmissibleRun(l: Link, calls: seq<Call>)
    decreases |calls|
  {
    calls != [] ==> Admissible(l, calls[0]) && AdmissibleRun(Step(l, calls[0]).0, calls[1..])
  }

  function Run(l: Link, calls: seq<Call>): Link
    decreases |calls|
  {
    if calls == [] then l else Run(Step(l, calls[0]).0, calls[1..])
  }

  /** Everything the calls returned, in order. */
  function Returned(l: Link, calls: seq<Call>): seq<Byte>
    decreases |calls|
  {
    if calls == [] then [] else Step(l, calls[0]).1 + Returned(Step(l, calls[0]).0, calls[1..])
  }

  /** All frames the slave sent, in order. */
  function Received(l: Link, calls: seq<Call>): seq<Byte>
    decreases |calls|
  {
    if calls == [] then [] else Payload(Miso(l, calls[0])) + Received(Step(l, calls[0]).0, calls[1..])
  }

  lemma StepConserves(l: Link, call: Call)
    requires l.remaining == 0 && |l.queue| < RING_SIZE && Admissible(l, call)
    ensures Step(l, call).0.remaining == 0 && |Step(l, call).0.queue| < RING_SIZE
    ensures Step(l, call).1 + Step(l, call).0.queue == l.queue + Payload(Miso(l, call))
  {
    var l' := Receive(l, Miso(l, call));
    PayloadFits(Miso(l, call));
    ReceiveConserves(l, Miso(l, call));
    assert Receive(l, []) == l;
    if call.ReadChars? {
      assert Step(l, call) == Take(l', call.count);
      TakeConserves(l', call.count);
    }
  }

  lemma ReceiveConserves(l: Link, miso: seq<Byte>)
    requires l.remaining == 0 && |l.queue| + |Payload(miso)| < RING_SIZE && Parse(miso).remaining == 0
    ensures Receive(l, miso) == Link(l.queue + Payload(miso), 0)
  {
    WholeIffNothingRemains(miso);
    ReceiveFits(l, miso);
  }

  lemma TakeConserves(l: Link, count: int)
    ensures Take(l, count).1 + Take(l, count).0.queue == l.queue
    ensures Take(l, count).0.remaining == l.remaining
  {
  }

  /** The frames of a transfer are no longer than the transfer. */
  lemma PayloadFits(miso: seq<Byte>)
    requires Parse(miso).remaining == 0
    ensures |Payload(miso)| <= |miso|
  {
    PrintItems(miso);
    PayloadLength(miso);
  }

  /** End to end: over any run of admissible calls the ring never holds more than fifty
      bytes, and what the calls returned followed by what is queued is exactly what was
      queued at first followed by every frame received: nothing lost, duplicated or
      reordered. */
  lemma {:induction false} EndToEnd(l: Link, calls: seq<Call>)
    requires l.remaining == 0 && |l.queue| < RING_SIZE && AdmissibleRun(l, calls)
    ensures Run(l, calls).remaining == 0 && |Run(l, calls).queue| <= 50
    ensures Returned(l, calls) + Run(l, calls).queue == l.queue + Received(l, calls)
    ensures Returned(l, calls) <= l.queue + Received(l, calls)
    decreases |calls|
  {
    if calls != [] {
      StepConserves(l, calls[0]);
      var l' := Step(l, calls[0]).0;
      EndToEnd(l', calls[1..]);
      Splice(Step(l, calls[0]).1, l'.queue, l.queue, Payload(Miso(l, calls[0])),
             Returned(l', calls[1..]), Run(l', calls[1..]).queue, Received(l', calls[1..]));
    }
  }

  lemma Splice(out: seq<Byte>, mid: seq<Byte>, q: seq<Byte>, pay: seq<Byte>,
               outs: seq<Byte>, end: seq<Byte>, pays: seq<Byte>)
    requires out + mid == q + pay && outs + end == mid + pays
    ensures (out + outs) + end == q + (pay + pays)
  {
    assert (out + outs) + end == out + (outs + end);
    assert out + (mid + pays) == (out + mid) + pays;
    assert (q + pay) + pays == q + (pay + pays);
  }

  /** What is queued when a read takes its bytes: enough was there already, or its transfer
      is in. */
  function Available(l: Link, count: int, slave: Slave): seq<Byte> {
    if slave.Quiet? || |l.queue| >= count then l.queue else Receive(l, slave.miso).queue
  }

  /** What a read returns: the smaller of the count, as an unsigned 16-bit value, and what
      is available, from the front, and the rest stays queued.  That is the count itself
      below 65536; a small negative count takes everything and makes no transfer. */
  lemma ReadReturns(l: Link, count: int, slave: Slave)
    ensures var q := Available(l, count, slave);
            var n := if count % 0x1_0000 <= |q| then count % 0x1_0000 else |q|;
            && Step(l, ReadChars(count, slave)).1 == q[..n]
            && Step(l, ReadChars(count, slave)).0.queue == q[n..]
            && (0 <= count < 0x1_0000 ==> n == if count <= |q| then count else |q|)
            && (|q| - 0x1_0000 <= count < 0 ==> n == |q| && q == l.queue)
  {
  }

  /** Reads are served in full: over any admissible run, a read of count bytes for which
      that many are queued, or come in with its transfer, returns exactly the next count
      bytes of the stream. */
  lemma ReadsInFull(l: Link, calls: seq<Call>, count: nat, slave: Slave)
    requires l.remaining == 0 && |l.queue| < RING_SIZE && AdmissibleRun(l, calls)
    requires var read := ReadChars(count, slave);
             var end := Run(l, calls);
             Admissible(end, read) && count <= |end.queue| + |Payload(Miso(end, read))|
    ensures var read := ReadChars(count, slave);
            var end := Run(l, calls);
            var stream, done := l.queue + Received(l, calls) + Payload(Miso(end, read)), |Returned(l, calls)|;
            && done + count <= |stream|
            && Step(end, read).1 == stream[done..done + count]
  {
    var read, end := ReadChars(count, slave), Run(l, calls);
    var pay := Payload(Miso(end, read));
    EndToEnd(l, calls);
    PayloadFits(Miso(end, read));
    ReceiveConserves(end, Miso(end, read));
    ReadReturns(end, count, slave);
    AvailableIs(end, count, slave);
    StreamSlice(Returned(l, calls), end.queue, pay, l.queue + Received(l, calls), count);
  }

  /** The payload of a read's transfer is available to it. */
  lemma AvailableIs(l: Link, count: nat, slave: Slave)
    requires Receive(l, Miso(l, ReadChars(count, slave)))
             == Link(l.queue + Payload(Miso(l, ReadChars(count, slave))), 0)
    requires l.remaining == 0
    ensures Available(l, count, slave) == l.queue + Payload(Miso(l, ReadChars(count, slave)))
  {
  }

  lemma StreamSlice(done: seq<Byte>, q: seq<Byte>, pay: seq<Byte>, stream: seq<Byte>, count: nat)
    requires done + q == stream && count <= |q| + |pay|
    ensures |done| + count <= |stream + pay|
    ensures (stream + pay)[|done|..|done| + count] == (q + pay)[..count]
  {
    assert stream + pay == done + (q + pay);
  }

  const EMPTY := Link([], 0)

  /** Reads of up to count bytes lose no whole-frame ten-byte transfer when made in l. */
  predicate KeepsAll(count: int, l: Link, miso: seq<Byte>) {
    l.remaining == 0 && |l.queue| < count && |miso| == MAX_RX_FRAME && Parse(miso).remaining == 0
    ==> Receive(l, miso).queue == l.queue + Payload(miso)
  }

  /** The same wherever admissible calls lead from the empty ring. */
  ghost predicate NeverLoses(count: int) {
    forall calls, miso :: AdmissibleRun(EMPTY, calls) ==> KeepsAll(count, Run(EMPTY, calls), miso)
  }

  /** The bound of 41 is exact: it is the largest read size under which no run from the
      empty ring reaches a state in which the read loses a transfer. */
  lemma ReadLimitExact(count: int)
    ensures NeverLoses(count) <==> count <= 41
  {
    if count <= 41 {
      forall calls, miso | AdmissibleRun(EMPTY, calls) ensures KeepsAll(count, Run(EMPTY, calls), miso) {
        EndToEnd(EMPTY, calls);
        if Parse(miso).remaining == 0 && |miso| == MAX_RX_FRAME && |Run(EMPTY, calls).queue| < count {
          PayloadFits(miso);
          ReceiveConserves(Run(EMPTY, calls), miso);
        }
      }
    } else {
      FillTo41();
      DataRequestLost(Run(EMPTY, FILL));
      assert !KeepsAll(count, Run(EMPTY, FILL), DATA_REQ);
    }
  }

  /** A data request of ten bytes, and an acknowledgement of one among idle bytes. */
  const DATA_REQ: seq<Byte> := [0xa7, 0, 0, 0, 0, 0, 0, 0, 0, 0]
  const ACK: seq<Byte> := [0x5a] + IDLES

  const IDLES: seq<Byte> := [IDLE, IDLE, IDLE, IDLE, IDLE, IDLE, IDLE, IDLE, IDLE]

  /** Five polled transfers that leave 41 bytes in the ring. */
  const FILL: seq<Call> := Polls(DATA_REQ, 4) + [OtherTransfer(Sends(ACK))]

  function Polls(miso: seq<Byte>, n: nat): (calls: seq<Call>)
    ensures |calls| == n
    ensures forall i :: 0 <= i < n ==> calls[i].OtherTransfer?
  {
    if n == 0 then [] else [OtherTransfer(Sends(miso))] + Polls(miso, n - 1)
  }

  lemma ParseDataReq()
    ensures Parse(DATA_REQ) == Parsed([DATA_REQ], 0) && Payload(DATA_REQ) == DATA_REQ
  {
    assert DATA_REQ[10..] == [] && DATA_REQ[..10] == DATA_REQ;
    assert Parse(DATA_REQ) == Before(DATA_REQ, Parse([]));
    PrintItems(DATA_REQ);
    assert Flatten([DATA_REQ]) == DATA_REQ + Flatten([]);
  }

  lemma ParseAck()
    ensures Parse(ACK) == Parsed([[0x5a]], 0) && Payload(ACK) == [0x5a]
  {
    assert IDLES == seq(9, _ => IDLE);
    IdleWritesNothing(9);
    assert ACK[1..] == IDLES && ACK[..1] == [0x5a];
    assert Parse(ACK) == Before([0x5a], Parse(IDLES));
    PrintItems(ACK);
    assert Flatten([[0x5a]]) == [0x5a] + Flatten([]);
  }

  /** One polled transfer that fits is admissible and adds its payload. */
  lemma PollAdds(l: Link, miso: seq<Byte>, calls: seq<Call>)
    requires l.remaining == 0 && Parse(miso).remaining == 0 && |l.queue| + |Payload(miso)| < RING_SIZE
    ensures var l' := Link(l.queue + Payload(miso), 0);
            var all := [OtherTransfer(Sends(miso))] + calls;
            && Run(l, all) == Run(l', calls)
            && (AdmissibleRun(l, all) <==> AdmissibleRun(l', calls))
  {
    ReceiveConserves(l, miso);
    var all := [OtherTransfer(Sends(miso))] + calls;
    assert all[0] == OtherTransfer(Sends(miso)) && all[1..] == calls;
    assert Step(l, all[0]).0 == Receive(l, miso);
  }

  /** n data requests and the acknowledgement, from any queue they fit behind. */
  lemma {:induction false} FillsBy(l: Link, n: nat)
    requires l.remaining == 0 && |l.queue| + 10 * n + 1 < RING_SIZE
    ensures var calls := Polls(DATA_REQ, n) + [OtherTransfer(Sends(ACK))];
            && AdmissibleRun(l, calls)
            && Run(l, calls).remaining == 0 && |Run(l, calls).queue| == |l.queue| + 10 * n + 1
    decreases n
  {
    var last := [OtherTransfer(Sends(ACK))];
    if n == 0 {
      ParseAck();
      PollAdds(l, ACK, []);
      assert Polls(DATA_REQ, 0) + last == last == last + [];
    } else {
      ParseDataReq();
      PollAdds(l, DATA_REQ, Polls(DATA_REQ, n - 1) + last);
      assert Polls(DATA_REQ, n) + last == [OtherTransfer(Sends(DATA_REQ))] + (Polls(DATA_REQ, n - 1) + last);
      FillsBy(Link(l.queue + DATA_REQ, 0), n - 1);
    }
  }

  lemma FillTo41()
    ensures AdmissibleRun(EMPTY, FILL)
    ensures Run(EMPTY, FILL).remaining == 0 && |Run(EMPTY, FILL).queue| == 41
  {
    FillsBy(EMPTY, 4);
  }

  /** With 41 bytes queued, a read of more makes the transfer whose ten bytes fill the
      ring: the whole content is gone and the read returns nothing. */
  lemma DataRequestLost(l: Link)
    requires l.remaining == 0 && |l.queue| == 41
    ensures Receive(l, DATA_REQ).queue == [] != l.queue + Payload(DATA_REQ)
    ensures forall count :: count > 41 ==> Step(l, ReadChars(count, Sends(DATA_REQ))) == (EMPTY, [])
  {
    ParseDataReq();
    assert [DATA_REQ][1..] == [];
    assert AppendAll(l.queue, [DATA_REQ]) == Append(l.queue, DATA_REQ) == [];
    assert Receive(l, DATA_REQ) == EMPTY;
  }

  /** The whole failing run: after the five polls, a read of 42 bytes loses all 51. */
  lemma ReadOf42Loses()
    ensures AdmissibleRun(EMPTY, FILL)
    ensures |Received(EMPTY, FILL)| == 41
    ensures Step(Run(EMPTY, FILL), ReadChars(42, Sends(DATA_REQ))) == (EMPTY, [])
  {
    FillTo41();
    EndToEnd(EMPTY, FILL);
    PollsReturnNothing(EMPTY, FILL);
    DataRequestLost(Run(EMPTY, FILL));
  }

  lemma {:induction false} PollsReturnNothing(l: Link, calls: seq<Call>)
    requires forall i :: 0 <= i < |calls| ==> calls[i].OtherTransfer?
    ensures Returned(l, calls) == []
    decreases |calls|
  {
    if calls != [] {
      PollsReturnNothing(Step(l, calls[0]).0, calls[1..]);
    }
  }

  /** The scan of b with q queued and nothing outstanding. */
  function Scan(q: seq<Byte>, b: seq<Byte>): Link {
    Link(AppendAll(q, Parse(b).writes), Parse(b).remaining)
  }

  /** What is left to happen with b unscanned, nothing once bytes are outstanding. */
  function Rest(l: Link, b: seq<Byte>): Link {
    if l.remaining == 0 then Scan(l.queue, b) else l
  }

  lemma BeforeFirst(q: seq<Byte>, write: seq<Byte>, b: seq<Byte>)
    ensures AppendAll(q, Before(write, Parse(b)).writes) == Scan(Append(q, write), b).queue
  {
    assert Before(write, Parse(b)).writes[1..] == Parse(b).writes;
  }

  lemma OneWrite(q: seq<Byte>, write: seq<Byte>)
    ensures AppendAll(q, [write]) == Append(q, write)
  {
    assert [write][1..] == [];
  }

  /** One round of the scan at index begin. */
  lemma ScanSkips(l: Link, miso: seq<Byte>, begin: nat)
    requires begin < |miso| && FrameLen(miso[begin]) == 0
    ensures Rest(l, miso[begin..]) == Rest(l, miso[begin + 1..])
  {
    assert miso[begin..][1..] == miso[begin + 1..];
  }

  lemma ScanStores(q: seq<Byte>, miso: seq<Byte>, begin: nat, len: nat)
    requires begin < |miso| && FrameLen(miso[begin]) == len > 0 && begin + len <= |miso|
    ensures Rest(Link(q, 0), miso[begin..])
            == Rest(Link(Append(q, miso[begin..begin + len]), 0), miso[begin + len..])
  {
    var rest := miso[begin..];
    assert rest[..len] == miso[begin..begin + len] && rest[len..] == miso[begin + len..];
    assert Parse(rest) == Before(rest[..len], Parse(rest[len..]));
    BeforeFirst(q, rest[..len], rest[len..]);
  }

  lemma ScanCuts(q: seq<Byte>, miso: seq<Byte>, begin: nat, len: nat)
    requires begin < |miso| && FrameLen(miso[begin]) == len && begin + len > |miso|
    ensures Scan(q, miso[begin..]) == Link(Append(q, miso[begin..]), len)
  {
    OneWrite(q, miso[begin..]);
  }

  class Receiver {
    const ring: Ring
    var misoRemaining: nat

    ghost predicate Valid()
      reads this, ring
    {
      ring.Valid()
    }

    ghost function State(): Link
      requires Valid()
      reads this, ring, ring.data
    {
      Link(ring.Contents(), misoRemaining)
    }

    constructor ()
      ensures Valid() && State() == Link([], 0) && fresh(ring) && fresh(ring.data)
    {
      ring := new Ring();
      misoRemaining := 0;
    }

    /** The receive half of a transfer; a failed ioctl changes nothing. */
    method DoSpiTransfer(ioctlOk: bool, miso: seq<Byte>)
      requires Valid()
      modifies this, ring, ring.data
      ensures Valid()
      ensures State() == if ioctlOk then Receive(old(State()), miso) else old(State())
    {
      if !ioctlOk {
        return;
      }
      var n := |miso|;
      ghost var q := ring.Contents();
      var begin;
      if misoRemaining > 0 {
        if misoRemaining <= n {
          BeforeFirst(q, miso[..misoRemaining], miso[misoRemaining..]);
          var _ := ring.WriteData(miso[..misoRemaining]);
          begin := misoRemaining;
          misoRemaining := 0;
        } else {
          OneWrite(q, miso);
          var _ := ring.WriteData(miso);
          begin := n;
          misoRemaining := misoRemaining - n;
        }
      } else {
        begin := 0;
        assert miso[0..] == miso;
      }
      FindFrames(miso, begin);
    }

    /** The loop that looks for frame headers from index start on. */
    method FindFrames(miso: seq<Byte>, start: nat)
      requires Valid() && start <= |miso|
      requires misoRemaining != 0 ==> start == |miso|
      modifies this, ring, ring.data
      ensures Valid()
      ensures State() == Rest(old(State()), miso[start..])
    {
      var n, begin := |miso|, start;
      while begin < n
        invariant start <= begin <= n && Valid()
        invariant misoRemaining != 0 ==> begin == n
        invariant Rest(State(), miso[begin..]) == Rest(old(State()), miso[start..])
      {
        begin := FindFrame(miso, begin);
      }
      assert miso[begin..] == [];
    }

    /** One round of the loop: a byte skipped, a frame stored, or a cut frame. */
    method FindFrame(miso: seq<Byte>, begin: nat) returns (next: nat)
      requires Valid() && begin < |miso| && misoRemaining == 0
      modifies this, ring, ring.data
      ensures Valid() && begin < next <= |miso|
      ensures misoRemaining != 0 ==> next == |miso|
      ensures Rest(State(), miso[next..]) == Rest(old(State()), miso[begin..])
    {
      var n := |miso|;
      var len := if miso[begin] == IDLE then 0 else FrameLen(miso[begin]);
      if len == 0 {
        next := SkipByte(miso, begin);
      } else if begin + len <= n {
        next := WholeFrame(miso, begin, len);
      } else {
        next := CutFrame(miso, begin, len);
      }
    }

    method SkipByte(miso: seq<Byte>, begin: nat) returns (next: nat)
      requires Valid() && begin < |miso| && FrameLen(miso[begin]) == 0
      ensures next == begin + 1 && Rest(State(), miso[next..]) == Rest(State(), miso[begin..])
    {
      ScanSkips(State(), miso, begin);
      next := begin + 1;
    }

    /** A frame that ends within the transfer. */
    method WholeFrame(miso: seq<Byte>, begin: nat, len: nat) returns (next: nat)
      requires Valid() && misoRemaining == 0
      requires begin < |miso| && begin + len <= |miso| && 0 < len == FrameLen(miso[begin])
      modifies ring, ring.data
      ensures Valid() && next == begin + len
      ensures Rest(State(), miso[next..]) == Rest(old(State()), miso[begin..])
    {
      ScanStores(ring.Contents(), miso, begin, len);
      Store(miso[begin..begin + len]);
      next := begin + len;
    }

    /** A frame cut off by the end of the transfer: by the time the remainder is computed
        nothing of the transfer is left, so it is the whole length. */
    method CutFrame(miso: seq<Byte>, begin: nat, len: nat) returns (next: nat)
      requires Valid() && misoRemaining == 0
      requires begin < |miso| < begin + len && len == FrameLen(miso[begin])
      modifies this, ring, ring.data
      ensures Valid() && misoRemaining == len && next == |miso|
      ensures Rest(State(), miso[next..]) == Rest(old(State()), miso[begin..])
    {
      ScanCuts(ring.Contents(), miso, begin, len);
      var n := |miso|;
      next := begin;
      assert miso[next..n] == miso[begin..] && miso[n..] == [];
      Store(miso[next..n]);
      next := n;
      misoRemaining := len - (n - next);
    }

    method Store(bytes: seq<Byte>)
      requires Valid()
      modifies ring, ring.data
      ensures Valid() && State() == Link(Append(old(ring.Contents()), bytes), misoRemaining)
    {
      var _ := ring.WriteData(bytes);
    }

    /** active: the interrupt line asks for a transfer once the wait is over. */
    method ComReadChars(uiCount: int, active: bool, ioctlOk: bool, miso: seq<Byte>) returns (out: seq<Byte>)
      requires Valid() && |miso| == MAX_RX_FRAME
      modifies this, ring, ring.data
      ensures Valid()
      ensures (State(), out) ==
              Step(old(State()), ReadChars(uiCount, if active && ioctlOk then Sends(miso) else Quiet))
    {
      var count := ring.GetCount();
      if count >= uiCount {
        out := ring.ReadData(ToUint16(uiCount));
        return;
      }
      if active {
        DoSpiTransfer(ioctlOk, miso);
      }
      out := ring.ReadData(ToUint16(uiCount));
    }

    method ComGetBufferSize(active: bool, ioctlOk: bool, miso: seq<Byte>) returns (count: nat)
      requires Valid() && |miso| == MAX_RX_FRAME
      modifies this, ring, ring.data
      ensures Valid() && count == |ring.Contents()|
      ensures State() ==
              Step(old(State()), OtherTransfer(if active && ioctlOk then Sends(miso) else Quiet)).0
    {
      if active {
        DoSpiTransfer(ioctlOk, miso);
      }
      count := ring.GetCount();
    }
  }
}
