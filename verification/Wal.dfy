/** The delta log (`oxgraph-db/src/wal.rs`): commit records, replay, and recovery after crashes. */
module Wal {
  import opened Options
  import opened Bytes

  const LOG_MAGIC: u32 := 0x4F58_4C47
  const HEADER_LEN: nat := 40
  const HEADER_CRC_OFFSET: nat := 36
  const PAYLOAD_WORDS: nat := 9
  const OP_LEN: nat := 80
  const MAX_U32: nat := 0xFFFF_FFFF

  /** The checksum primitive, which an external package computes. */
  datatype Crc = Crc(checksum: seq<byte> -> u32, append: (u32, seq<byte>) -> u32) {
    /** Continuing a checksum is checksumming the concatenation. */
    ghost predicate Lawful() {
      forall a, b :: append(checksum(a), b) == checksum(a + b)
    }
  }

  datatype Op = Op(kind: u32, flags: u32, payload: seq<u64>)
  type MutationOp = op: Op | |op.payload| == PAYLOAD_WORDS
    witness Op(0, 0, [0, 0, 0, 0, 0, 0, 0, 0, 0])

  datatype CommitFrame = CommitFrame(lsn: u64, txnId: u64, baseGeneration: u64, ops: seq<MutationOp>, blob: seq<byte>)

  datatype Header = Header(baseGeneration: u64, lsn: u64, txnId: u64, magic: u32, len: u32, opCount: u32, crc: u32)

  datatype StorageError =
    | InvalidStore
    | LogCorrupt(lsn: u64)
    | BaseGenerationMismatch(expected: u64, found: u64)

  type LogResult<+T> = Result<T, StorageError>

  // ----- record layout

  /** The header up to its checksum field. */
  function HeaderPrefix(h: Header): (bs: seq<byte>)
    ensures |bs| == HEADER_CRC_OFFSET
  {
    ToLE(h.baseGeneration, 8) + ToLE(h.lsn, 8) + ToLE(h.txnId, 8) + ToLE(h.magic, 4) + ToLE(h.len, 4) + ToLE(h.opCount, 4)
  }

  function EncodeHeader(h: Header): (bs: seq<byte>)
    ensures |bs| == HEADER_LEN
  {
    HeaderPrefix(h) + ToLE(h.crc, 4)
  }

  function DecodeHeader(bs: seq<byte>): Header
    requires |bs| == HEADER_LEN
  {
    Header(ToU64(bs[0..8]), ToU64(bs[8..16]), ToU64(bs[16..24]), ToU32(bs[24..28]), ToU32(bs[28..32]), ToU32(bs[32..36]),
           ToU32(bs[36..40]))
  }

  function EncodeOp(op: MutationOp): (bs: seq<byte>)
    ensures |bs| == OP_LEN
  {
    ToLE(op.kind, 4) + ToLE(op.flags, 4) + EncodeWords(op.payload)
  }

  function DecodeOp(bs: seq<byte>): MutationOp
    requires |bs| == OP_LEN
  {
    Op(ToU32(bs[..4]), ToU32(bs[4..8]), DecodeWords(bs[8..]))
  }

  function EncodeOps(ops: seq<MutationOp>): (bs: seq<byte>)
    ensures |bs| == OP_LEN * |ops|
  {
    if ops == [] then [] else EncodeOps(ops[..|ops| - 1]) + EncodeOp(ops[|ops| - 1])
  }

  /** The operations in consecutive `OP_LEN`-byte chunks. */
  function OpsOf(bs: seq<byte>): (ops: seq<MutationOp>)
    requires |bs| % OP_LEN == 0
    ensures |ops| * OP_LEN == |bs|
  {
    if bs == [] then [] else OpsOf(bs[..|bs| - OP_LEN]) + [DecodeOp(bs[|bs| - OP_LEN..])]
  }

  /** The checksum a record stores: over all its bytes but the checksum field itself. */
  function RecordCrc(crc: Crc, record: seq<byte>): u32
    requires |record| >= HEADER_LEN
  {
    crc.append(crc.checksum(record[..HEADER_CRC_OFFSET]), record[HEADER_CRC_OFFSET + 4..])
  }

  function FrameLen(f: CommitFrame): nat {
    HEADER_LEN + OP_LEN * |f.ops| + |f.blob|
  }

  predicate Encodable(f: CommitFrame) {
    FrameLen(f) <= MAX_U32
  }

  function RecordWithCrc(f: CommitFrame, crc: u32): (record: seq<byte>)
    requires Encodable(f)
    ensures |record| == FrameLen(f)
  {
    EncodeHeader(HeaderOf(f, crc)) + EncodeOps(f.ops) + f.blob
  }

  /** The bytes of one commit record. */
  function Record(crc: Crc, f: CommitFrame): (record: seq<byte>)
    requires Encodable(f)
    ensures |record| == FrameLen(f)
  {
    RecordWithCrc(f, RecordCrc(crc, RecordWithCrc(f, 0)))
  }

  /** The stored checksum covers the record with its checksum field cut out. */
  lemma RecordCrcCoversRest(crc: Crc, record: seq<byte>)
    requires crc.Lawful() && |record| >= HEADER_LEN
    ensures RecordCrc(crc, record) == crc.checksum(record[..HEADER_CRC_OFFSET] + record[HEADER_LEN..])
  {
  }

  method EncodeCommit(crc: Crc, f: CommitFrame) returns (result: LogResult<seq<byte>>)
    ensures result == if Encodable(f) then Ok(Record(crc, f)) else Err(InvalidStore)
    ensures result.Ok? <==> 40 + 80 * |f.ops| + |f.blob| < 0x1_0000_0000
  {
    hide ToLE, HeaderPrefix, EncodeHeader, RecordCrc;
    var len := HEADER_LEN + |f.ops| * OP_LEN + |f.blob|;
    if len > MAX_U32 {
      return Err(InvalidStore);
    }
    if |f.ops| > MAX_U32 {
      return Err(InvalidStore);
    }
    var record := EncodeHeader(Header(f.baseGeneration, f.lsn, f.txnId, LOG_MAGIC, len, |f.ops|, 0));
    ghost var header := record;
    for n := 0 to |f.ops|
      invariant record == header + EncodeOps(f.ops[..n])
    {
      assert f.ops[..n + 1][..n] == f.ops[..n];
      record := record + EncodeOp(f.ops[n]);
    }
    assert f.ops[..|f.ops|] == f.ops;
    record := record + f.blob;
    assert record == RecordWithCrc(f, 0);
    var sum := RecordCrc(crc, record);
    record := record[..HEADER_CRC_OFFSET] + ToLE(sum, 4) + record[HEADER_LEN..];
    CrcPatch(f, sum);
    return Ok(record);
  }

  /** The header that a frame's record carries. */
  function HeaderOf(f: CommitFrame, crc: u32): Header
    requires Encodable(f)
  {
    Header(f.baseGeneration, f.lsn, f.txnId, LOG_MAGIC, FrameLen(f), |f.ops|, crc)
  }

  lemma RecordParts(f: CommitFrame, sum: u32)
    requires Encodable(f)
    ensures var r := RecordWithCrc(f, sum);
      && r[..HEADER_CRC_OFFSET] == HeaderPrefix(HeaderOf(f, 0))
      && r[HEADER_CRC_OFFSET..HEADER_LEN] == ToLE(sum, 4)
      && r[..HEADER_LEN] == EncodeHeader(HeaderOf(f, sum))
      && r[HEADER_LEN..] == EncodeOps(f.ops) + f.blob
      && r == HeaderPrefix(HeaderOf(f, 0)) + ToLE(sum, 4) + (EncodeOps(f.ops) + f.blob)
  {
    hide ToLE, EncodeOps;
    assert HeaderPrefix(HeaderOf(f, sum)) == HeaderPrefix(HeaderOf(f, 0));
    hide HeaderPrefix;
    var prefix, body := HeaderPrefix(HeaderOf(f, 0)), EncodeOps(f.ops) + f.blob;
    assert EncodeHeader(HeaderOf(f, sum)) == prefix + ToLE(sum, 4);
    Regrouped(prefix + ToLE(sum, 4), EncodeOps(f.ops), f.blob);
    assert RecordWithCrc(f, sum) == prefix + ToLE(sum, 4) + body;
    hide RecordWithCrc, EncodeHeader;
    ThreeParts(prefix, ToLE(sum, 4), body);
  }

  lemma Regrouped(a: seq<byte>, b: seq<byte>, c: seq<byte>)
    ensures a + b + c == a + (b + c)
  {
  }

  lemma ThreeParts(a: seq<byte>, b: seq<byte>, c: seq<byte>)
    ensures var r := a + b + c;
      r[..|a|] == a && r[|a|..|a| + |b|] == b && r[..|a| + |b|] == a + b && r[|a| + |b|..] == c
  {
  }

  /** Writing the checksum into its field leaves every other byte alone. */
  lemma CrcPatch(f: CommitFrame, sum: u32)
    requires Encodable(f)
    ensures var r := RecordWithCrc(f, 0);
      RecordWithCrc(f, sum) == r[..HEADER_CRC_OFFSET] + ToLE(sum, 4) + r[HEADER_LEN..]
    ensures var r := RecordWithCrc(f, 0); var r' := RecordWithCrc(f, sum);
      r'[..HEADER_CRC_OFFSET] == r[..HEADER_CRC_OFFSET] && r'[HEADER_LEN..] == r[HEADER_LEN..]
  {
    RecordParts(f, 0);
    RecordParts(f, sum);
  }

  // ----- parsing one record

  datatype RecordParse = Stop | Loud(error: StorageError) | Frame(frame: CommitFrame, len: nat)

  datatype LsnCursor = LsnCursor(lastLsn: u64, seen: bool)

  function TailOrLoud(isLast: bool, error: StorageError): RecordParse {
    if isLast then Stop else Loud(error)
  }

  /** The byte length of header and operations that a header declares. */
  function BodyLen(h: Header): nat {
    HEADER_LEN + h.opCount * OP_LEN
  }

  /** Nothing fully valid can follow: the record is misframed or consumes the buffer. */
  predicate IsLast(h: Header, remaining: nat) {
    !(BodyLen(h) <= h.len <= remaining) || h.len >= remaining
  }

  function DecodedFrame(h: Header, record: seq<byte>): CommitFrame
    requires BodyLen(h) <= |record|
  {
    CommitFrame(h.lsn, h.txnId, h.baseGeneration, OpsOf(record[HEADER_LEN..BodyLen(h)]), record[BodyLen(h)..])
  }

  function ParseOneRecord(crc: Crc, baseGeneration: u64, remaining: seq<byte>, cursor: LsnCursor): (r: RecordParse)
    ensures r.Frame? ==> HEADER_LEN <= r.len <= |remaining|
  {
    if |remaining| < HEADER_LEN then Stop
    else
      var h := DecodeHeader(remaining[..HEADER_LEN]);
      var isLast := IsLast(h, |remaining|);
      if h.magic != LOG_MAGIC then TailOrLoud(isLast, LogCorrupt(h.lsn))
      else if h.baseGeneration != baseGeneration then
        TailOrLoud(isLast, BaseGenerationMismatch(baseGeneration, h.baseGeneration))
      else if h.len < BodyLen(h) then TailOrLoud(isLast, LogCorrupt(h.lsn))
      else if h.len > |remaining| then Stop
      else
        var record := remaining[..h.len];
        if RecordCrc(crc, record) != h.crc then TailOrLoud(isLast, LogCorrupt(h.lsn))
        else if cursor.seen && h.lsn <= cursor.lastLsn then Loud(LogCorrupt(h.lsn))
        else Frame(DecodedFrame(h, record), h.len)
  }

  // ----- replay

  datatype ReplayOutcome = ReplayOutcome(frames: seq<CommitFrame>, validLen: nat, lastLsn: u64, lastTxn: u64)

  /** The frames and byte length of the maximal valid prefix of `remaining`. */
  function ReplayFrom(crc: Crc, baseGeneration: u64, remaining: seq<byte>,
      cursor: LsnCursor): (r: LogResult<(seq<CommitFrame>, nat)>)
    ensures r.Ok? ==> r.value.1 <= |remaining|
    decreases |remaining|
  {
    if remaining == [] then Ok(([], 0))
    else
      match ParseOneRecord(crc, baseGeneration, remaining, cursor)
      case Stop => Ok(([], 0))
      case Loud(error) => Err(error)
      case Frame(frame, len) =>
        match ReplayFrom(crc, baseGeneration, remaining[len..], LsnCursor(frame.lsn, true))
        case Err(error) => Err(error)
        case Ok((frames, valid)) => Ok(([frame] + frames, len + valid))
  }

  const NO_RECORD := LsnCursor(0, false)

  function Outcome(frames: seq<CommitFrame>, validLen: nat): ReplayOutcome {
    var last := if frames == [] then CommitFrame(0, 0, 0, [], []) else frames[|frames| - 1];
    ReplayOutcome(frames, validLen, last.lsn, last.txnId)
  }

  /** The frontier is the last frame's sequence number and transaction, and 0 without frames. */
  predicate EndsAt(o: ReplayOutcome) {
    if o.frames == [] then o.lastLsn == 0 && o.lastTxn == 0
    else o.lastLsn == o.frames[|o.frames| - 1].lsn && o.lastTxn == o.frames[|o.frames| - 1].txnId
  }

  /** The specification of `replay`. */
  function Replayed(crc: Crc, baseGeneration: u64, log: seq<byte>): LogResult<ReplayOutcome> {
    match ReplayFrom(crc, baseGeneration, log, NO_RECORD)
    case Err(error) => Err(error)
    case Ok((frames, valid)) => Ok(Outcome(frames, valid))
  }

  lemma PrependNothing(rest: LogResult<(seq<CommitFrame>, nat)>)
    ensures Prepended([], 0, rest) == rest
  {
    if rest.Ok? { assert [] + rest.value.0 == rest.value.0; }
  }

  /** One turn of the replay loop. */
  lemma ReplayTurn(crc: Crc, baseGeneration: u64, log: seq<byte>, offset: nat, cursor: LsnCursor,
      frames: seq<CommitFrame>)
    requires offset < |log|
    ensures var p := ParseOneRecord(crc, baseGeneration, log[offset..], cursor);
      Prepended(frames, offset, ReplayFrom(crc, baseGeneration, log[offset..], cursor)) ==
        match p
        case Stop => Prepended(frames, offset, Ok(([], 0)))
        case Loud(error) => Err(error)
        case Frame(frame, len) =>
          Prepended(frames + [frame], offset + len,
            ReplayFrom(crc, baseGeneration, log[offset + len..], LsnCursor(frame.lsn, true)))
  {
    hide ParseOneRecord;
    var p := ParseOneRecord(crc, baseGeneration, log[offset..], cursor);
    if p.Frame? {
      assert log[offset..][p.len..] == log[offset + p.len..];
      var rest := ReplayFrom(crc, baseGeneration, log[offset + p.len..], LsnCursor(p.frame.lsn, true));
      if rest.Ok? {
        assert frames + ([p.frame] + rest.value.0) == (frames + [p.frame]) + rest.value.0;
      }
    }
  }

  lemma ReplayEnd(crc: Crc, baseGeneration: u64, log: seq<byte>, offset: nat, cursor: LsnCursor,
      frames: seq<CommitFrame>, stopped: bool)
    requires offset <= |log| && (stopped || offset == |log|)
    ensures Prepended(frames, offset, if stopped then Ok(([], 0)) else ReplayFrom(crc, baseGeneration, log[offset..], cursor))
         == Ok((frames, offset))
  {
    assert frames + [] == frames;
  }

  lemma NoOps()
    ensures OpsOf([]) == []
  {
  }

  lemma OpsOneMore(record: seq<byte>, at: nat)
    requires HEADER_LEN <= at && at + OP_LEN <= |record| && (at - HEADER_LEN) % OP_LEN == 0
    ensures (at + OP_LEN - HEADER_LEN) % OP_LEN == 0
    ensures OpsOf(record[HEADER_LEN..at + OP_LEN]) == OpsOf(record[HEADER_LEN..at]) + [DecodeOp(record[at..at + OP_LEN])]
  {
    hide DecodeOp;
    var chunk := record[HEADER_LEN..at + OP_LEN];
    assert chunk[..|chunk| - OP_LEN] == record[HEADER_LEN..at];
    assert chunk[|chunk| - OP_LEN..] == record[at..at + OP_LEN];
  }

  /** Decodes the operation chunks and the trailing blob of a validated record. */
  method DecodeOps(record: seq<byte>, framedMin: nat) returns (ops: seq<MutationOp>, blob: seq<byte>)
    requires HEADER_LEN <= framedMin <= |record| && (framedMin - HEADER_LEN) % OP_LEN == 0
    ensures ops == OpsOf(record[HEADER_LEN..framedMin]) && blob == record[framedMin..]
  {
    hide DecodeOp, OpsOf;
    ops := [];
    var at := HEADER_LEN;
    NoOps();
    while at < framedMin
      invariant HEADER_LEN <= at <= framedMin && (at - HEADER_LEN) % OP_LEN == 0
      invariant ops == OpsOf(record[HEADER_LEN..at])
    {
      OpsOneMore(record, at);
      ops := ops + [DecodeOp(record[at..at + OP_LEN])];
      at := at + OP_LEN;
    }
    blob := record[framedMin..];
  }

  method Replay(crc: Crc, baseGeneration: u64, log: seq<byte>) returns (result: LogResult<ReplayOutcome>)
    ensures result == Replayed(crc, baseGeneration, log)
    ensures result.Ok? ==> EndsAt(result.value)
  {
    hide ParseOneRecord, ReplayFrom, Prepended;
    var frames: seq<CommitFrame> := [];
    var offset, validLen := 0, 0;
    var lastLsn: u64, lastTxn: u64, seenLsn := 0, 0, false;
    var stopped := false;
    assert log[0..] == log;
    PrependNothing(ReplayFrom(crc, baseGeneration, log, NO_RECORD));
    while offset < |log| && !stopped
      invariant 0 <= offset == validLen <= |log|
      invariant seenLsn == (frames != [])
      invariant Outcome(frames, validLen) == ReplayOutcome(frames, validLen, lastLsn, lastTxn)
      invariant ReplayFrom(crc, baseGeneration, log, NO_RECORD)
             == Prepended(frames, offset,
               if stopped then Ok(([], 0)) else ReplayFrom(crc, baseGeneration, log[offset..], LsnCursor(lastLsn, seenLsn)))
      decreases |log| - offset, !stopped
    {
      ReplayTurn(crc, baseGeneration, log, offset, LsnCursor(lastLsn, seenLsn), frames);
      match ParseOneRecord(crc, baseGeneration, log[offset..], LsnCursor(lastLsn, seenLsn))
      case Stop => stopped := true;
      case Loud(error) => return Err(error);
      case Frame(frame, len) =>
        lastLsn, lastTxn, seenLsn := frame.lsn, frame.txnId, true;
        frames := frames + [frame];
        offset := offset + len;
        validLen := offset;
    }
    ReplayEnd(crc, baseGeneration, log, offset, LsnCursor(lastLsn, seenLsn), frames, stopped);
    return Ok(ReplayOutcome(frames, validLen, lastLsn, lastTxn));
  }

  function Prepended(frames: seq<CommitFrame>, len: nat, rest: LogResult<(seq<CommitFrame>,
      nat)>): LogResult<(seq<CommitFrame>, nat)> {
    match rest
    case Err(error) => Err(error)
    case Ok((more, valid)) => Ok((frames + more, len + valid))
  }
}
