/** Finding control frames in the bytes of SPI transfers (fw_loader_io_linux_spi.c and
    fw_loader_frames.c). */
module SpiFrames {
  import opened Basics
  import opened SpiRing

  const IDLE: Byte := 0xFF

  /** The length of the control frame a header byte announces, 0 for any other byte. */
  function FrameLen(header: Byte): nat {
    match header
    case 0xa5 => 1 + 4
    case 0x5a => 1
    case 0xaa => 1 + 4
    case 0xbf => 1
    case 0xab => 1 + 4
    case 0xa7 => 1 + 9
    case 0x7a => 1 + 1
    case 0x7b => 1 + 5
    case 0x7c => 1 + 1
    case _ => 0
  }

  /** The fields of the packed structures, by width. */
  datatype Field = U8 | U16 | U32

  /** The structure that follows a control header; acknowledgements of version 1 have none. */
  datatype Layout = NoHeader | Fields(fields: seq<Field>)

  const V1_DATA_REQ := Fields([U16, U16])
  const V1_START_IND := Fields([U8, U8, U8, U8])
  const V3_START_IND := Fields([U16, U8, U8])
  const V3_DATA_REQ := Fields([U16, U32, U16, U8])
  const V3_RESP_ACK_NAK := Fields([U8])
  const V3_RESP_TIMEOUT := Fields([U32, U8])

  function LayoutOf(header: Byte): Layout {
    if header == 0xa5 then V1_DATA_REQ
    else if header == 0xaa then V1_START_IND
    else if header == 0x5a || header == 0xbf then Fields([])
    else if header == 0xab then V3_START_IND
    else if header == 0xa7 then V3_DATA_REQ
    else if header == 0x7a || header == 0x7c then V3_RESP_ACK_NAK
    else if header == 0x7b then V3_RESP_TIMEOUT
    else NoHeader
  }

  function Size(fields: seq<Field>): nat {
    if fields == [] then
      0
    else
      (match fields[0] case U8 => 1 case U16 => 2 case U32 => 4) + Size(fields[1..])
  }

  /** A frame is its header and its packed fields; any frame fits a transfer of ten bytes,
      and only the version 3 data request fills one. */
  lemma FrameLenIsPacked(header: Byte)
    ensures FrameLen(header) == match LayoutOf(header) case NoHeader => 0 case Fields(f) => 1 + Size(f)
    ensures FrameLen(header) <= 10 && (FrameLen(header) == 10 <==> header == 0xa7)
  {
    var f := V3_DATA_REQ.fields;
    assert f[1..] == [U32, U16, U8] && f[1..][1..] == [U16, U8] && f[1..][1..][1..] == [U8];
  }

  /** What the scanner puts into the ring, write by write, and the number of bytes it
      will take blindly from the next transfer. */
  datatype Parsed = Parsed(writes: seq<seq<Byte>>, remaining: nat)

  function Before(write: seq<Byte>, p: Parsed): Parsed {
    Parsed([write] + p.writes, p.remaining)
  }

  /** The scan of a transfer with nothing outstanding.  A frame cut off by the end of the
      transfer is stored as far as it goes, and its whole length is left as remaining. */
  function Parse(b: seq<Byte>): Parsed {
    if b == [] then
      Parsed([], 0)
    else
      var len := FrameLen(b[0]);
      if len == 0 then
        Parse(b[1..])
      else if len <= |b| then
        Before(b[..len], Parse(b[len..]))
      else
        Parsed([b], len)
  }

  /** A transfer that starts with remaining bytes outstanding. */
  function Transfer(b: seq<Byte>, remaining: nat): Parsed {
    if remaining == 0 then
      Parse(b)
    else if remaining <= |b| then
      Before(b[..remaining], Parse(b[remaining..]))
    else
      Parsed([b], remaining - |b|)
  }

  function Flatten(writes: seq<seq<Byte>>): seq<Byte> {
    if writes == [] then [] else writes[0] + Flatten(writes[1..])
  }

  /** What the slave sends: idle bytes and whole frames. */
  datatype Item = Idle(b: Byte) | Frame(bytes: seq<Byte>)

  predicate ValidItem(i: Item) {
    match i
    case Idle(b) => FrameLen(b) == 0
    case Frame(bytes) => bytes != [] && |bytes| == FrameLen(bytes[0])
  }

  predicate ValidItems(items: seq<Item>) {
    forall i :: 0 <= i < |items| ==> ValidItem(items[i])
  }

  function Bytes(i: Item): seq<Byte> {
    match i
    case Idle(b) => [b]
    case Frame(bytes) => bytes
  }

  function Print(items: seq<Item>): seq<Byte> {
    if items == [] then [] else Bytes(items[0]) + Print(items[1..])
  }

  function Frames(items: seq<Item>): seq<seq<Byte>> {
    if items == [] then
      []
    else
      (if items[0].Frame? then [items[0].bytes] else []) + Frames(items[1..])
  }

  /** The items of a transfer that holds only whole frames. */
  function Items(b: seq<Byte>): seq<Item> {
    if b == [] then
      []
    else
      var len := FrameLen(b[0]);
      if len == 0 then
        [Idle(b[0])] + Items(b[1..])
      else if len <= |b| then
        [Frame(b[..len])] + Items(b[len..])
      else
        []
  }

  /** Deframing undoes framing: whatever valid frames and idle bytes are sent, the scan
      writes exactly the frames, in order, and leaves nothing outstanding. */
  lemma {:induction false} DeframePrint(items: seq<Item>)
    requires ValidItems(items)
    ensures Parse(Print(items)) == Parsed(Frames(items), 0)
    ensures Items(Print(items)) == items
  {
    if items != [] {
      var b, rest := Print(items), Print(items[1..]);
      DeframePrint(items[1..]);
      var len := |Bytes(items[0])|;
      assert b[..len] == Bytes(items[0]) && b[len..] == rest;
      assert b[0] == Bytes(items[0])[0];
    }
  }

  /** The three rounds of the scan: a byte skipped, a frame stored, a frame cut off. */
  lemma ScanSkip(b: seq<Byte>)
    requires b != [] && FrameLen(b[0]) == 0
    ensures Parse(b) == Parse(b[1..]) && Items(b) == [Idle(b[0])] + Items(b[1..])
    ensures IntendedRemaining(b) == IntendedRemaining(b[1..])
  {
  }

  lemma ScanStore(b: seq<Byte>, len: nat)
    requires b != [] && FrameLen(b[0]) == len > 0 && len <= |b|
    ensures Parse(b) == Before(b[..len], Parse(b[len..])) && Items(b) == [Frame(b[..len])] + Items(b[len..])
    ensures IntendedRemaining(b) == IntendedRemaining(b[len..])
  {
  }

  lemma ScanCut(b: seq<Byte>, len: nat)
    requires b != [] && FrameLen(b[0]) == len > |b|
    ensures Parse(b) == Parsed([b], len) && IntendedRemaining(b) == len - |b|
  {
  }

  /** Every transfer with nothing outstanding is the print of its items, so these are
      exactly the transfers that hold whole frames. */
  lemma {:induction false} PrintItems(b: seq<Byte>)
    requires Parse(b).remaining == 0
    ensures ValidItems(Items(b)) && Print(Items(b)) == b
    ensures Frames(Items(b)) == Parse(b).writes
  {
    if b != [] {
      var len := FrameLen(b[0]);
      if len == 0 {
        ScanSkip(b);
        PrintItems(b[1..]);
        PrintWith(b, Idle(b[0]), b[1..]);
      } else {
        KeepsWhole(b, len);
        ScanStore(b, len);
        PrintItems(b[len..]);
        PrintWith(b, Frame(b[..len]), b[len..]);
      }
    }
  }

  lemma PrintWith(b: seq<Byte>, i: Item, rest: seq<Byte>)
    requires ValidItem(i) && b == Bytes(i) + rest && Items(b) == [i] + Items(rest)
    requires ValidItems(Items(rest)) && Print(Items(rest)) == rest
    ensures ValidItems(Items(b)) && Print(Items(b)) == b
    ensures Frames(Items(b)) == (if i.Frame? then [i.bytes] else []) + Frames(Items(rest))
  {
    PrintFirst(i, Items(rest));
  }

  lemma KeepsWhole(b: seq<Byte>, len: nat)
    requires b != [] && FrameLen(b[0]) == len > 0 && Parse(b).remaining == 0
    ensures len <= |b|
  {
    if len > |b| {
      ScanCut(b, len);
    }
  }

  lemma PrintFirst(i: Item, rest: seq<Item>)
    ensures Print([i] + rest) == Bytes(i) + Print(rest)
    ensures Frames([i] + rest) == (if i.Frame? then [i.bytes] else []) + Frames(rest)
    ensures ValidItems([i] + rest) <==> ValidItem(i) && ValidItems(rest)
  {
    var all := [i] + rest;
    assert all[0] == i && all[1..] == rest;
    assert forall k :: 0 <= k < |rest| ==> all[k + 1] == rest[k];
  }

  ghost predicate WholeFrames(b: seq<Byte>) {
    exists items :: ValidItems(items) && Print(items) == b
  }

  lemma WholeIffNothingRemains(b: seq<Byte>)
    ensures WholeFrames(b) <==> Parse(b).remaining == 0
  {
    if Parse(b).remaining == 0 {
      PrintItems(b);
    } else if WholeFrames(b) {
      var items :| ValidItems(items) && Print(items) == b;
      DeframePrint(items);
    }
  }

  /** The writes of a list of transfers, one after the other. */
  function TransferAll(bs: seq<seq<Byte>>, remaining: nat): Parsed
    decreases |bs|
  {
    if bs == [] then
      Parsed([], remaining)
    else
      var p := Transfer(bs[0], remaining);
      var q := TransferAll(bs[1..], p.remaining);
      Parsed(p.writes + q.writes, q.remaining)
  }

  function PrintAll(batches: seq<seq<Item>>): seq<seq<Byte>>
  {
    if batches == [] then [] else [Print(batches[0])] + PrintAll(batches[1..])
  }

  function FramesAll(batches: seq<seq<Item>>): seq<seq<Byte>>
  {
    if batches == [] then [] else Frames(batches[0]) + FramesAll(batches[1..])
  }

  /** However the items are split into transfers of whole frames, all frames come out. */
  lemma {:induction false} DeframeTransfers(batches: seq<seq<Item>>)
    requires forall i :: 0 <= i < |batches| ==> ValidItems(batches[i])
    ensures TransferAll(PrintAll(batches), 0) == Parsed(FramesAll(batches), 0)
  {
    if batches != [] {
      DeframePrint(batches[0]);
      DeframeTransfers(batches[1..]);
      assert PrintAll(batches)[1..] == PrintAll(batches[1..]);
    }
  }

  /** The intended remainder of a cut-off frame: what of it is still to come. */
  function IntendedRemaining(b: seq<Byte>): nat {
    if b == [] then
      0
    else
      var len := FrameLen(b[0]);
      if len == 0 then
        IntendedRemaining(b[1..])
      else if len <= |b| then
        IntendedRemaining(b[len..])
      else
        len - |b|
  }

  /** The code's remainder is the intended one exactly when no frame is cut off, and is
      too large otherwise. */
  lemma {:induction false} RemainderTooLarge(b: seq<Byte>)
    ensures Parse(b).remaining == 0 <==> IntendedRemaining(b) == 0
    ensures Parse(b).remaining != 0 ==> IntendedRemaining(b) < Parse(b).remaining
  {
    if b != [] {
      var len := FrameLen(b[0]);
      if len <= |b| {
        RemainderTooLarge(b[if len == 0 then 1 else len..]);
      }
    }
  }

  /** The bytes a scan stores, all writes joined. */
  function Stored(b: seq<Byte>): seq<Byte> {
    if b == [] then
      []
    else
      var len := FrameLen(b[0]);
      if len == 0 then Stored(b[1..])
      else if len <= |b| then b[..len] + Stored(b[len..])
      else b
  }

  function StoredAfter(b: seq<Byte>, remaining: nat): seq<Byte> {
    if remaining <= |b| then b[..remaining] + Stored(b[remaining..]) else b
  }

  lemma FlattenBefore(write: seq<Byte>, p: Parsed)
    ensures Flatten(Before(write, p).writes) == write + Flatten(p.writes)
  {
    assert Before(write, p).writes[1..] == p.writes;
  }

  lemma {:induction false} StoredIsWritten(b: seq<Byte>)
    ensures Flatten(Parse(b).writes) == Stored(b)
  {
    if b != [] {
      var len := FrameLen(b[0]);
      if len == 0 {
        StoredIsWritten(b[1..]);
      } else if len <= |b| {
        StoredIsWritten(b[len..]);
        FlattenBefore(b[..len], Parse(b[len..]));
      } else {
        assert [b][1..] == [];
      }
    }
  }

  lemma StoredAfterIsWritten(b: seq<Byte>, remaining: nat)
    ensures Flatten(Transfer(b, remaining).writes) == StoredAfter(b, remaining)
  {
    if remaining <= |b| {
      StoredIsWritten(b[remaining..]);
      assert remaining == 0 ==> b[0..] == b;
      FlattenBefore(b[..remaining], Parse(b[remaining..]));
    } else {
      assert [b][1..] == [];
    }
  }

  predicate Splits(b: seq<Byte>, c: seq<Byte>) {
    Stored(b) + StoredAfter(c, IntendedRemaining(b)) == Stored(b + c)
  }

  lemma {:induction false} StoredSplit(b: seq<Byte>, c: seq<Byte>)
    ensures Splits(b, c)
  {
    if b == [] {
      assert b + c == c && c[0..] == c;
    } else {
      var len := FrameLen(b[0]);
      if len == 0 {
        StoredSplit(b[1..], c);
        SplitAtIdle(b, c);
      } else if len <= |b| {
        StoredSplit(b[len..], c);
        SplitAtFrame(b, c, len);
      } else {
        SplitAtCut(b, c, len);
      }
    }
  }

  lemma Assoc<T>(x: seq<T>, y: seq<T>, z: seq<T>)
    ensures (x + y) + z == x + (y + z)
  {
  }

  lemma SplitAtIdle(b: seq<Byte>, c: seq<Byte>)
    requires b != [] && FrameLen(b[0]) == 0 && Splits(b[1..], c)
    ensures Splits(b, c)
  {
    assert (b + c)[0] == b[0] && (b + c)[1..] == b[1..] + c;
  }

  lemma SplitAtFrame(b: seq<Byte>, c: seq<Byte>, len: nat)
    requires b != [] && FrameLen(b[0]) == len > 0 && len <= |b| && Splits(b[len..], c)
    ensures Splits(b, c)
  {
    assert (b + c)[0] == b[0] && (b + c)[..len] == b[..len] && (b + c)[len..] == b[len..] + c;
    assert Stored(b + c) == b[..len] + Stored(b[len..] + c);
    Assoc(b[..len], Stored(b[len..]), StoredAfter(c, IntendedRemaining(b[len..])));
  }

  lemma SplitAtCut(b: seq<Byte>, c: seq<Byte>, len: nat)
    requires b != [] && FrameLen(b[0]) == len > |b|
    ensures Splits(b, c)
  {
    var k := len - |b|;
    if k <= |c| {
      assert (b + c)[0] == b[0] && (b + c)[..len] == b + c[..k] && (b + c)[len..] == c[k..];
      assert Stored(b + c) == (b + c[..k]) + Stored(c[k..]);
      Assoc(b, c[..k], Stored(c[k..]));
    } else {
      assert (b + c)[0] == b[0];
    }
  }

  /** The intended remainder after a transfer that starts with remaining outstanding. */
  function IntendedAfter(b: seq<Byte>, remaining: nat): nat {
    if remaining <= |b| then IntendedRemaining(b[remaining..]) else remaining - |b|
  }

  /** What a list of transfers would store with the intended remainder kept between them. */
  function IntendedStored(bs: seq<seq<Byte>>, remaining: nat): seq<Byte>
    decreases |bs|
  {
    if bs == [] then
      []
    else
      Flatten(Transfer(bs[0], remaining).writes) + IntendedStored(bs[1..], IntendedAfter(bs[0], remaining))
  }

  lemma SplitAfter(b: seq<Byte>, c: seq<Byte>, remaining: nat)
    ensures StoredAfter(b, remaining) + StoredAfter(c, IntendedAfter(b, remaining)) == StoredAfter(b + c, remaining)
  {
    if remaining <= |b| {
      StoredSplit(b[remaining..], c);
      assert (b + c)[..remaining] == b[..remaining] && (b + c)[remaining..] == b[remaining..] + c;
      Assoc(b[..remaining], Stored(b[remaining..]), StoredAfter(c, IntendedRemaining(b[remaining..])));
    } else {
      var k := remaining - |b|;
      if k <= |c| {
        assert (b + c)[..remaining] == b + c[..k] && (b + c)[remaining..] == c[k..];
        Assoc(b, c[..k], Stored(c[k..]));
      }
    }
  }

  /** With the intended remainder, how a stream is split into transfers would not matter at
      all: frames may be cut anywhere, into as many transfers as one likes. */
  lemma {:induction false} IntendedSplit(bs: seq<seq<Byte>>, remaining: nat)
    ensures IntendedStored(bs, remaining) == StoredAfter(Flatten(bs), remaining)
    ensures remaining == 0 ==> IntendedStored(bs, remaining) == Flatten(Parse(Flatten(bs)).writes)
    decreases |bs|
  {
    if bs != [] {
      StoredAfterIsWritten(bs[0], remaining);
      IntendedSplit(bs[1..], IntendedAfter(bs[0], remaining));
      SplitAfter(bs[0], Flatten(bs[1..]), remaining);
    }
    if remaining == 0 {
      StoredAfterIsWritten(Flatten(bs), 0);
    }
  }

  /** Outstanding bytes are stored as they come, over as many transfers as it takes, and
      what is still outstanding is remembered. */
  lemma {:induction false} OutstandingTaken(bs: seq<seq<Byte>>, remaining: nat)
    requires |Flatten(bs)| <= remaining
    ensures var p := TransferAll(bs, remaining);
            Flatten(p.writes) == Flatten(bs) && p.remaining == remaining - |Flatten(bs)|
    decreases |bs|
  {
    if bs != [] {
      OneTaken(bs[0], remaining);
      OutstandingTaken(bs[1..], remaining - |bs[0]|);
      var rest := TransferAll(bs[1..], remaining - |bs[0]|).writes;
      assert ([bs[0]] + rest)[1..] == rest && [] + rest == rest;
    }
  }

  lemma OneTaken(b: seq<Byte>, remaining: nat)
    requires |b| <= remaining
    ensures Transfer(b, remaining) == Parsed(if remaining == 0 then [] else [b], remaining - |b|)
  {
    assert b[..|b|] == b && b[|b|..] == [];
    assert Before(b, Parse([])).writes == [b];
  }

  lemma {:induction false} IdleWritesNothing(n: nat)
    ensures Parse(seq(n, _ => IDLE)) == Parsed([], 0)
  {
    if n > 0 {
      assert seq(n, _ => IDLE)[1..] == seq(n - 1, _ => IDLE);
      IdleWritesNothing(n - 1);
    }
  }

  lemma TwoTransfers(b: seq<Byte>, c: seq<Byte>)
    ensures Flatten(Parse(b).writes) + Flatten(Transfer(c, IntendedRemaining(b)).writes)
            == Flatten(Parse(b + c).writes)
  {
    StoredIsWritten(b);
    StoredAfterIsWritten(c, IntendedRemaining(b));
    StoredIsWritten(b + c);
    StoredSplit(b, c);
  }

  /** The two transfers write what the joined stream would. */
  predicate SplitRight(b: seq<Byte>, c: seq<Byte>) {
    Flatten(Parse(b).writes) + Flatten(Transfer(c, Parse(b).remaining).writes) == Flatten(Parse(b + c).writes)
  }

  /** When the code gets the split of a stream right: for every following transfer
      the two write what the joined stream would, if and only if the first one does not cut
      a frame in two. */
  lemma SplitRightIffWhole(b: seq<Byte>)
    ensures (forall c :: SplitRight(b, c)) <==> WholeFrames(b)
  {
    WholeIffNothingRemains(b);
    RemainderTooLarge(b);
    if Parse(b).remaining == 0 {
      forall c ensures SplitRight(b, c) {
        TwoTransfers(b, c);
      }
    } else {
      CutTakesTooMuch(b);
    }
  }

  /** After a cut, idle bytes long enough to fill the code's remainder are stored. */
  lemma CutTakesTooMuch(b: seq<Byte>)
    requires Parse(b).remaining != 0
    ensures exists c :: !SplitRight(b, c)
  {
    RemainderTooLarge(b);
    var len, due := Parse(b).remaining, IntendedRemaining(b);
    var c: seq<Byte> := seq(len, _ => IDLE);
    TwoTransfers(b, c);
    IdleTaken(len, len);
    IdleTaken(len, due);
    assert !SplitRight(b, c);
  }

  lemma IdleTaken(n: nat, k: nat)
    requires 0 < k <= n
    ensures |Flatten(Transfer(seq(n, _ => IDLE), k).writes)| == k
  {
    var c: seq<Byte> := seq(n, _ => IDLE);
    assert c[k..] == seq(n - k, _ => IDLE);
    IdleWritesNothing(n - k);
    assert Transfer(c, k).writes == [c[..k]];
    assert Flatten([c[..k]]) == c[..k] + Flatten([]);
  }

  /** A concrete cut: an acknowledgement split after its header brings one idle byte
      along that was never part of a frame. */
  lemma StraddleExample()
    ensures Flatten(TransferAll([[0x7a], [0x33, IDLE, IDLE]], 0).writes) == [0x7a, 0x33, IDLE]
    ensures Flatten(Parse([0x7a, 0x33, IDLE, IDLE]).writes) == [0x7a, 0x33]
  {
    var b: seq<Byte>, c: seq<Byte> := [0x7a], [0x33, IDLE, IDLE];
    assert Parse(b) == Parsed([b], 2);
    assert c[2..] == [IDLE] && [IDLE][1..] == [];
    assert Parse([IDLE]) == Parsed([], 0);
    assert Parse(c[2..]) == Parsed([], 0);
    assert Transfer(c, 2) == Parsed([c[..2]], 0);
    assert [b, c][1..] == [c] && [c][1..] == [];
    assert TransferAll([c], 2) == Parsed([c[..2]], 0);
    assert TransferAll([b, c], 0).writes == [b, c[..2]];
    assert [b, c[..2]][1..] == [c[..2]] && [c[..2]][1..] == [];
    assert Flatten([c[..2]]) == c[..2] == [0x33, IDLE];
    var whole := b + c;
    assert whole[2..] == [IDLE, IDLE] && [IDLE, IDLE][1..] == [IDLE];
    assert Parse(whole).writes == [whole[..2]];
    assert Flatten([whole[..2]]) == whole[..2] + Flatten([]);
  }
}
