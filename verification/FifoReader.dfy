/** The handlers of st_lis2dw12_buffer.c, updating the timing fields in place and proved
    to be runs of the machine of FifoTiming. */
module FifoReader {
  import opened Basics
  import opened Ewma
  import opened FifoTiming

  const DATA_SIZE := 6
  const CHUNK := 6 * DATA_SIZE
  const DIFF_MASK := 0x3f

  /** A monotonic clock: each reading is no earlier than the one before. */
  class Clock {
    var now: int

    method Read() returns (t: int)
      modifies this
      ensures old(now) <= t == now
    {
      t :| now <= t by { assert now <= now; }
      now := t;
    }
  }

  /** The bytes a drain fetches: the fill level, or the whole difference range after an
      overrun. */
  function FifoLen(status: Byte): nat {
    if status / 0x40 % 2 == 0 then status % 0x40 * DATA_SIZE else DIFF_MASK * DATA_SIZE
  }

  /** What the status says: its low six bits count samples, bit 6 marks an overrun and
      fetches all that can be counted, and bit 7 does not matter. */
  lemma StatusCounts(threshold: bool, overrun: bool, samples: nat)
    requires samples < 64
    ensures var status := (if threshold then 128 else 0) + (if overrun then 64 else 0) + samples;
            status < 256 && FifoLen(status) == 6 * if overrun then 63 else samples
  {
  }

  /** Sample k of a byte stream. */
  function SampleAt(bytes: seq<Byte>, k: nat): Sample
    requires (k + 1) * DATA_SIZE <= |bytes|
  {
    bytes[k * DATA_SIZE..(k + 1) * DATA_SIZE]
  }

  /** The steps of one drain that reads the first |nows| samples of a byte stream. */
  function DrainSteps(bytes: seq<Byte>, nows: seq<int>): (steps: seq<Step>)
    requires |nows| * DATA_SIZE <= |bytes|
  {
    [BeginDrain] + seq(|nows|, k requires 0 <= k < |nows| => Take(SampleAt(bytes, k), nows[k]))
  }

  lemma DrainStepsSnoc(bytes: seq<Byte>, nows: seq<int>, now: int)
    requires (|nows| + 1) * DATA_SIZE <= |bytes|
    ensures DrainSteps(bytes, nows + [now]) == DrainSteps(bytes, nows) + [Take(SampleAt(bytes, |nows|), now)]
  {
  }

  lemma BeginOnly(s: State, bytes: seq<Byte>)
    requires Safe(s)
    ensures AllowedRun(s, DrainSteps(bytes, []))
    ensures Run(s, DrainSteps(bytes, [])) == Apply(s, BeginDrain)
    ensures Safe(Apply(s, BeginDrain))
  {
    assert DrainSteps(bytes, []) == [BeginDrain];
    assert [BeginDrain][1..] == [];
    StepSafe(s, BeginDrain);
  }

  /** Six bytes of the local buffer, whose first n hold a chunk of the stream. */
  lemma SampleOfChunk(bytes: seq<Byte>, buff: seq<Byte>, n: nat, start: nat, i: nat, k: nat)
    requires n <= |buff| && start + n <= |bytes| && buff[..n] == bytes[start..start + n]
    requires i + DATA_SIZE <= n && k * DATA_SIZE == start + i
    ensures buff[i..i + DATA_SIZE] == SampleAt(bytes, k)
  {
    var one, other := buff[i..i + DATA_SIZE], SampleAt(bytes, k);
    assert |one| == |other| == DATA_SIZE;
    forall x | 0 <= x < DATA_SIZE ensures one[x] == other[x] {
      assert one[x] == buff[..n][i + x] == bytes[start + (i + x)];
      assert other[x] == bytes[k * DATA_SIZE + x];
    }
  }

  /** A sysfs text as the kernel's number parser sees it. */
  datatype Text = Garbage | Number(val: int)

  class Accelerometer {
    const clock: Clock
    var ts: int
    var tsIrq: int
    var deltaTs: int
    var samples: nat
    var stdLevel: Byte
    var watermark: int
    /** The local delta_ts of the drain last begun. */
    ghost var drain: int
    /** What has been handed to the IIO buffer. */
    var pushed: seq<Stamped>

    ghost function Now(): State
      reads this, clock
    {
      State(ts, tsIrq, deltaTs, samples, stdLevel, watermark, drain, clock.now, pushed)
    }

    constructor (clock: Clock)
      requires clock.now >= 0
      ensures this.clock == clock && Safe(Now()) && pushed == [] && watermark == 1 && samples == 0
    {
      this.clock := clock;
      ts, tsIrq, deltaTs, samples, stdLevel, watermark, drain, pushed := 0, 0, 0, 0, 0, 1, 0, [];
    }

    method HandlerIrq()
      requires Safe(Now())
      modifies this, clock
      ensures clock.now >= old(clock.now)
      ensures Now() == Apply(old(Now()), Irq(clock.now)) && Safe(Now())
    {
      ghost var s := Now();
      var t := clock.Read();
      StepSafe(s, Irq(t));
      deltaTs := Average(deltaTs, t - tsIrq);
      tsIrq := t;
    }

    /** fault: the code divides by the rate it is given, 0 included; the model goes no
        further then. */
    method UpdateFifo(enable: bool, odr: nat) returns (fault: bool)
      requires Safe(Now())
      modifies this, clock
      ensures fault <==> enable && odr == 0
      ensures clock.now >= old(clock.now)
      ensures !fault ==> Safe(Now())
      ensures !fault ==> Now() == if enable then Apply(old(Now()), Enable(odr, clock.now)) else old(Now())
    {
      fault := false;
      ghost var s := Now();
      if enable {
        var t := clock.Read();
        tsIrq := t;
        ts := t;
        if odr == 0 {
          return true;
        }
        StepSafe(s, Enable(odr, t));
        deltaTs := TruncDiv(NS_PER_SEC, odr) * watermark;
        samples := 0;
      }
    }

    /** Refused when the device cannot be claimed, while the buffer runs, when the text is
        no number or out of range, or when the register write fails. */
    method SetHwfifoWatermark(claimOk: bool, enabled: bool, text: Text, writeOk: bool) returns (ok: bool)
      requires Safe(Now())
      modifies this
      ensures Safe(Now())
      ensures ok == (claimOk && !enabled && text.Number? && 1 <= text.val <= MAX_WATERMARK && writeOk)
      ensures Now() == if ok then Apply(old(Now()), SetWatermark(text.val)) else old(Now())
    {
      if !claimOk || enabled {
        return false;
      }
      if text.Garbage? {
        return false;
      }
      var val := text.val;
      if val < 1 || val > MAX_WATERMARK {
        return false;
      }
      if !writeOk {
        return false;
      }
      StepSafe(Now(), SetWatermark(val));
      watermark := val;
      ok := true;
    }

    /** One sample of a drain. */
    method TakeOne(data: Sample, deltaTs: int) returns (now: int)
      requires Safe(Now()) && deltaTs == drain
      modifies this, clock
      ensures old(clock.now) <= now == clock.now
      ensures Safe(Now()) && Now() == Apply(old(Now()), Take(data, now))
    {
      ghost var s := Now();
      samples := samples + 1;
      if samples < stdLevel {
        ts := ts + deltaTs;
        now := clock.now;
        StepSafe(s, Take(data, now));
        return;
      }
      now := clock.Read();
      StepSafe(s, Take(data, now));
      ts := Min(now, ts);
      pushed := pushed + [Stamped(data, ts, now)];
      ts := ts + deltaTs;
    }

    /** Drains the FIFO in chunks of 36 bytes.  fifo is what the bus would deliver and
        chunksOk how many chunk reads succeed.  However it is chunked, the drain is the
        run that takes every sample fetched once and in order. */
    method ReadFifo(status: Byte, statusOk: bool, fifo: seq<Byte>, chunksOk: nat)
        returns (ok: bool, readLen: nat, ghost nows: seq<int>)
      requires Safe(Now()) && |fifo| == FifoLen(status)
      modifies this, clock
      ensures Safe(Now())
      ensures !statusOk ==> !ok && Now() == old(Now()) && nows == []
      ensures statusOk ==> ok == (FifoLen(status) <= chunksOk * CHUNK)
      ensures statusOk ==> readLen == Min(FifoLen(status), chunksOk * CHUNK) == |nows| * DATA_SIZE
      ensures statusOk ==> AllowedRun(old(Now()), DrainSteps(fifo, nows))
      ensures statusOk ==> Now() == Run(old(Now()), DrainSteps(fifo, nows))
    {
      readLen, nows := 0, [];
      if !statusOk {
        return false, 0, [];
      }
      ghost var start := Now();
      BeginOnly(start, fifo);
      var delta := TruncDiv(deltaTs, watermark);
      drain := delta;
      var fifoLen := if status / 0x40 % 2 == 0 then status % 0x40 * DATA_SIZE else DIFF_MASK * DATA_SIZE;
      ok, readLen, nows := ReadChunks(start, fifo, fifoLen, chunksOk, delta, FifoLen(status) / DATA_SIZE);
    }

    /** The outer loop: one bus read per chunk. */
    method ReadChunks(ghost start: State, fifo: seq<Byte>, fifoLen: nat, chunksOk: nat, delta: int,
                      ghost total: nat)
        returns (ok: bool, readLen: nat, ghost nows: seq<int>)
      requires Safe(Now()) && drain == delta
      requires |fifo| == fifoLen == total * DATA_SIZE
      requires AllowedRun(start, DrainSteps(fifo, [])) && Now() == Run(start, DrainSteps(fifo, []))
      modifies this, clock
      ensures Safe(Now())
      ensures ok == (fifoLen <= chunksOk * CHUNK)
      ensures readLen == Min(fifoLen, chunksOk * CHUNK) == |nows| * DATA_SIZE
      ensures AllowedRun(start, DrainSteps(fifo, nows)) && Now() == Run(start, DrainSteps(fifo, nows))
    {
      readLen, nows := 0, [];
      var buff := new Byte[CHUNK](_ => 0);
      var chunks := 0;
      while readLen < fifoLen
        invariant 0 <= chunks <= chunksOk && readLen == Min(fifoLen, chunks * CHUNK)
        invariant readLen == |nows| * DATA_SIZE <= fifoLen
        invariant Safe(Now()) && drain == delta
        invariant AllowedRun(start, DrainSteps(fifo, nows)) && Now() == Run(start, DrainSteps(fifo, nows))
        decreases fifoLen - readLen
      {
        var wordLen := Min(fifoLen - readLen, CHUNK);
        if chunks == chunksOk {
          return false, readLen, nows;
        }
        ghost var count := Min(total - |nows|, 6);
        Fetch(fifo, readLen, buff, wordLen);
        chunks := chunks + 1;
        nows := TakeChunk(start, fifo, buff, wordLen, readLen, delta, nows, count);
        readLen := readLen + wordLen;
      }
      ok := true;
    }

    /** One bus read into the local buffer. */
    method Fetch(fifo: seq<Byte>, readLen: nat, buff: array<Byte>, wordLen: nat)
      requires readLen + wordLen <= |fifo| && wordLen <= buff.Length
      modifies buff
      ensures buff[..wordLen] == fifo[readLen..readLen + wordLen]
    {
      forall k | 0 <= k < wordLen {
        buff[k] := fifo[readLen + k];
      }
    }

    /** The inner loop over one chunk. */
    method TakeChunk(ghost start: State, ghost fifo: seq<Byte>, buff: array<Byte>, wordLen: nat,
                     ghost readLen: nat, delta: int, ghost before: seq<int>, ghost count: nat)
        returns (ghost nows: seq<int>)
      requires readLen == |before| * DATA_SIZE && readLen + wordLen <= |fifo|
      requires wordLen == count * DATA_SIZE && wordLen <= buff.Length
      requires buff[..wordLen] == fifo[readLen..readLen + wordLen]
      requires Safe(Now()) && drain == delta
      requires AllowedRun(start, DrainSteps(fifo, before))
      requires Now() == Run(start, DrainSteps(fifo, before))
      modifies this, clock
      ensures Safe(Now()) && drain == delta
      ensures |nows| * DATA_SIZE == readLen + wordLen
      ensures AllowedRun(start, DrainSteps(fifo, nows))
      ensures Now() == Run(start, DrainSteps(fifo, nows))
    {
      nows := before;
      ghost var chunk := buff[..];
      var i := 0;
      while i < wordLen
        invariant 0 <= i <= wordLen && i == (|nows| - |before|) * DATA_SIZE
        invariant Safe(Now()) && drain == delta && buff[..] == chunk
        invariant AllowedRun(start, DrainSteps(fifo, nows))
        invariant Now() == Run(start, DrainSteps(fifo, nows))
      {
        var data := buff[i..i + DATA_SIZE];
        SampleOfChunk(fifo, chunk, wordLen, readLen, i, |nows|);
        var now := TakeOne(data, delta);
        RunSnoc(start, DrainSteps(fifo, nows), Take(data, now));
        DrainStepsSnoc(fifo, nows, now);
        nows := nows + [now];
        i := i + DATA_SIZE;
      }
    }

    method FlushFifo(status: Byte, statusOk: bool, fifo: seq<Byte>, chunksOk: nat)
        returns (ok: bool, eventTs: int, ghost nows: seq<int>)
      requires Safe(Now()) && |fifo| == FifoLen(status)
      modifies this, clock
      ensures Safe(Now()) && eventTs == tsIrq == clock.now
      ensures statusOk ==> |nows| * DATA_SIZE <= |fifo|
      ensures statusOk ==> AllowedRun(old(Now()), DrainSteps(fifo, nows) + [FlushEnd(eventTs)])
      ensures statusOk ==> Now() == Run(old(Now()), DrainSteps(fifo, nows) + [FlushEnd(eventTs)])
      ensures !statusOk ==> Now() == Apply(old(Now()), FlushEnd(eventTs))
    {
      var readLen;
      ghost var start := Now();
      ok, readLen, nows := ReadFifo(status, statusOk, fifo, chunksOk);
      ghost var s := Now();
      tsIrq := clock.Read();
      StepSafe(s, FlushEnd(tsIrq));
      eventTs := tsIrq;
      if statusOk {
        RunSnoc(start, DrainSteps(fifo, nows), FlushEnd(eventTs));
      }
    }
  }
}
