/** What replay recovers: the exact inverse of encoding, and the acknowledged commits after crashes. */
module WalRecovery {
  import opened Options
  import opened Bytes
  import opened Wal

  // ----- round trips of the record parts

  lemma HeaderSlices(h: Header)
    ensures var bs := EncodeHeader(h);
      && bs[0..8] == ToLE(h.baseGeneration, 8) && bs[8..16] == ToLE(h.lsn, 8) && bs[16..24] == ToLE(h.txnId, 8)
      && bs[24..28] == ToLE(h.magic, 4) && bs[28..32] == ToLE(h.len, 4) && bs[32..36] == ToLE(h.opCount, 4)
      && bs[36..40] == ToLE(h.crc, 4)
  {
    hide ToLE;
  }

  lemma HeaderRoundTrip(h: Header)
    ensures DecodeHeader(EncodeHeader(h)) == h
  {
    hide ToLE, FromLE, EncodeHeader;
    HeaderSlices(h);
    U64RoundTrip(h.baseGeneration);
    U64RoundTrip(h.lsn);
    U64RoundTrip(h.txnId);
    U32RoundTrip(h.magic);
    U32RoundTrip(h.len);
    U32RoundTrip(h.opCount);
    U32RoundTrip(h.crc);
  }

  lemma HeaderCanonical(bs: seq<byte>)
    requires |bs| == HEADER_LEN
    ensures EncodeHeader(DecodeHeader(bs)) == bs
  {
    hide ToLE, FromLE;
    EncodeDecoded(bs[0..8]);
    EncodeDecoded(bs[8..16]);
    EncodeDecoded(bs[16..24]);
    EncodeDecoded(bs[24..28]);
    EncodeDecoded(bs[28..32]);
    EncodeDecoded(bs[32..36]);
    EncodeDecoded(bs[36..40]);
    assert bs == bs[0..8] + bs[8..16] + bs[16..24] + bs[24..28] + bs[28..32] + bs[32..36] + bs[36..40];
  }

  lemma OpRoundTrip(op: MutationOp)
    ensures DecodeOp(EncodeOp(op)) == op
  {
    hide ToLE, FromLE, EncodeWords, DecodeWords;
    U32RoundTrip(op.kind);
    U32RoundTrip(op.flags);
    WordsRoundTrip(op.payload);
    var bs := EncodeOp(op);
    assert bs[..4] == ToLE(op.kind, 4) && bs[4..8] == ToLE(op.flags, 4) && bs[8..] == EncodeWords(op.payload);
  }

  lemma OpCanonical(bs: seq<byte>)
    requires |bs| == OP_LEN
    ensures EncodeOp(DecodeOp(bs)) == bs
  {
    hide ToLE, FromLE, EncodeWords, DecodeWords;
    EncodeDecoded(bs[..4]);
    EncodeDecoded(bs[4..8]);
    WordsCanonical(bs[8..]);
    assert bs == bs[..4] + bs[4..8] + bs[8..];
  }

  lemma WholeOps(ops: seq<MutationOp>)
    ensures |EncodeOps(ops)| % OP_LEN == 0
  {
    Multiple(|ops|);
  }

  lemma Multiple(n: nat)
    ensures (OP_LEN * n) % OP_LEN == 0
  {
  }

  lemma {:induction false} OpsRoundTrip(ops: seq<MutationOp>)
    ensures |EncodeOps(ops)| % OP_LEN == 0
    ensures OpsOf(EncodeOps(ops)) == ops
  {
    WholeOps(ops);
    hide EncodeOp, DecodeOp;
    if ops != [] {
      var front, last := ops[..|ops| - 1], ops[|ops| - 1];
      OpsRoundTrip(front);
      OpRoundTrip(last);
      var bs := EncodeOps(ops);
      assert bs[..|bs| - OP_LEN] == EncodeOps(front) && bs[|bs| - OP_LEN..] == EncodeOp(last);
      assert ops == front + [last];
    }
  }

  lemma {:induction false} OpsCanonical(bs: seq<byte>)
    requires |bs| % OP_LEN == 0
    ensures EncodeOps(OpsOf(bs)) == bs
    decreases |bs|
  {
    hide EncodeOp, DecodeOp;
    if bs != [] {
      var front, last := bs[..|bs| - OP_LEN], bs[|bs| - OP_LEN..];
      OpsCanonical(front);
      OpCanonical(last);
      var ops := OpsOf(bs);
      assert ops[..|ops| - 1] == OpsOf(front) && ops[|ops| - 1] == DecodeOp(last);
      assert bs == front + last;
    }
  }

  // ----- parsing is the inverse of encoding

  /** `f` may follow the records accepted so far. */
  predicate Follows(baseGeneration: u64, cursor: LsnCursor, f: CommitFrame) {
    Encodable(f) && f.baseGeneration == baseGeneration && (cursor.seen ==> f.lsn > cursor.lastLsn)
  }

  lemma RecordFacts(crc: Crc, f: CommitFrame)
    requires Encodable(f)
    ensures var r := Record(crc, f); var h := HeaderOf(f, RecordCrc(crc, r));
      && r[..HEADER_LEN] == EncodeHeader(h) && DecodeHeader(r[..HEADER_LEN]) == h
      && r[HEADER_LEN..] == EncodeOps(f.ops) + f.blob
  {
    hide RecordWithCrc, EncodeHeader, DecodeHeader;
    var sum := RecordCrc(crc, RecordWithCrc(f, 0));
    CrcPatch(f, sum);
    RecordParts(f, sum);
    HeaderRoundTrip(HeaderOf(f, sum));
  }

  lemma DecodedRecord(crc: Crc, f: CommitFrame)
    requires Encodable(f)
    ensures BodyLen(HeaderOf(f, 0)) <= FrameLen(f)
    ensures DecodedFrame(HeaderOf(f, RecordCrc(crc, Record(crc, f))), Record(crc, f)) == f
  {
    hide Record, EncodeOps, OpsOf, RecordCrc, EncodeHeader, DecodeHeader;
    RecordFacts(crc, f);
    OpsRoundTrip(f.ops);
    TailParts(Record(crc, f), HEADER_LEN, EncodeOps(f.ops), f.blob);
  }

  lemma TailParts(r: seq<byte>, from: nat, a: seq<byte>, b: seq<byte>)
    requires from <= |r| && r[from..] == a + b
    ensures from + |a| <= |r| && r[from..from + |a|] == a && r[from + |a|..] == b
  {
    var tail := r[from..];
    assert tail[..|a|] == r[from..from + |a|] && tail[|a|..] == r[from + |a|..];
  }

  /** A whole record at the head of the buffer is parsed back, whatever follows it. */
  lemma ParseRecord(crc: Crc, baseGeneration: u64, cursor: LsnCursor, f: CommitFrame, rest: seq<byte>)
    requires Follows(baseGeneration, cursor, f)
    ensures ParseOneRecord(crc, baseGeneration, Record(crc, f) + rest, cursor) == Frame(f, FrameLen(f))
  {
    hide Record, RecordCrc, DecodeHeader, DecodedFrame, EncodeHeader;
    var r := Record(crc, f);
    RecordFacts(crc, f);
    DecodedRecord(crc, f);
    assert (r + rest)[..HEADER_LEN] == r[..HEADER_LEN];
    assert (r + rest)[..FrameLen(f)] == r;
  }

  /** A proper, nonempty prefix of a record is a torn tail. */
  lemma ParseTorn(crc: Crc, baseGeneration: u64, cursor: LsnCursor, f: CommitFrame, k: nat)
    requires Encodable(f) && f.baseGeneration == baseGeneration && k < FrameLen(f)
    ensures ParseOneRecord(crc, baseGeneration, Record(crc, f)[..k], cursor) == Stop
  {
    hide Record, RecordCrc, DecodeHeader, DecodedFrame, EncodeHeader;
    if k >= HEADER_LEN {
      RecordFacts(crc, f);
      assert Record(crc, f)[..k][..HEADER_LEN] == Record(crc, f)[..HEADER_LEN];
    }
  }

  lemma DecodedFrameParts(crc: Crc, h: Header, record: seq<byte>)
    requires HEADER_LEN <= |record| == h.len && BodyLen(h) <= h.len && h.magic == LOG_MAGIC
    requires DecodeHeader(record[..HEADER_LEN]) == h && RecordCrc(crc, record) == h.crc
    ensures var f := DecodedFrame(h, record);
      && Encodable(f) && FrameLen(f) == h.len && HeaderOf(f, h.crc) == h
      && record == RecordWithCrc(f, h.crc)
  {
    hide DecodeHeader, EncodeHeader, RecordCrc, EncodeOps, OpsOf;
    var f := DecodedFrame(h, record);
    var body := BodyLen(h);
    HeaderCanonical(record[..HEADER_LEN]);
    OpsCanonical(record[HEADER_LEN..body]);
    assert |f.ops| == h.opCount;
    assert record == record[..HEADER_LEN] + record[HEADER_LEN..body] + record[body..];
  }

  /** Whatever parses as a frame is, byte for byte, that frame's record. */
  lemma ParseInverse(crc: Crc, baseGeneration: u64, remaining: seq<byte>, cursor: LsnCursor)
    requires ParseOneRecord(crc, baseGeneration, remaining, cursor).Frame?
    ensures var p := ParseOneRecord(crc, baseGeneration, remaining, cursor);
      Follows(baseGeneration, cursor, p.frame) && p.len == FrameLen(p.frame) && remaining[..p.len] == Record(crc, p.frame)
  {
    hide RecordCrc, RecordWithCrc, DecodeHeader, DecodedFrame;
    var h := DecodeHeader(remaining[..HEADER_LEN]);
    var record := remaining[..h.len];
    assert record[..HEADER_LEN] == remaining[..HEADER_LEN];
    DecodedFrameParts(crc, h, record);
    var f := DecodedFrame(h, record);
    CrcPatch(f, h.crc);
    CrcOfPatched(crc, f, h.crc);
  }

  lemma CrcOfPatched(crc: Crc, f: CommitFrame, sum: u32)
    requires Encodable(f)
    ensures RecordCrc(crc, RecordWithCrc(f, sum)) == RecordCrc(crc, RecordWithCrc(f, 0))
  {
    hide RecordWithCrc;
    CrcPatch(f, sum);
  }

  // ----- replay is the inverse of appending

  function After(f: CommitFrame): LsnCursor {
    LsnCursor(f.lsn, true)
  }

  /** Encodable frames of one generation with ascending log sequence numbers. */
  predicate Chain(baseGeneration: u64, cursor: LsnCursor, frames: seq<CommitFrame>)
    decreases |frames|
  {
    frames == [] || (Follows(baseGeneration, cursor, frames[0]) && Chain(baseGeneration, After(frames[0]), frames[1..]))
  }

  function LastCursor(cursor: LsnCursor, frames: seq<CommitFrame>): LsnCursor {
    if frames == [] then cursor else After(frames[|frames| - 1])
  }

  /** The concatenated records of `frames`. */
  function Log(crc: Crc, baseGeneration: u64, cursor: LsnCursor, frames: seq<CommitFrame>): seq<byte>
    requires Chain(baseGeneration, cursor, frames)
    decreases |frames|
  {
    if frames == [] then [] else Record(crc, frames[0]) + Log(crc, baseGeneration, After(frames[0]), frames[1..])
  }

  /** Replay stops silently here: nothing is left, or what is left is classified as a torn tail. */
  predicate Stops(crc: Crc, baseGeneration: u64, tail: seq<byte>, cursor: LsnCursor) {
    tail == [] || ParseOneRecord(crc, baseGeneration, tail, cursor) == Stop
  }

  lemma ReplayOne(crc: Crc, baseGeneration: u64, cursor: LsnCursor, f: CommitFrame, rest: seq<byte>)
    requires Follows(baseGeneration, cursor, f)
    ensures ReplayFrom(crc, baseGeneration, Record(crc, f) + rest, cursor)
         == Prepended([f], FrameLen(f), ReplayFrom(crc, baseGeneration, rest, After(f)))
  {
    hide ParseOneRecord, Record;
    ParseRecord(crc, baseGeneration, cursor, f, rest);
    assert (Record(crc, f) + rest)[FrameLen(f)..] == rest;
  }

  /** Replay passes over appended records to whatever follows them. */
  lemma {:induction false} ReplayPasses(crc: Crc, baseGeneration: u64, cursor: LsnCursor, frames: seq<CommitFrame>,
      bytes: seq<byte>)
    requires Chain(baseGeneration, cursor, frames)
    ensures var log := Log(crc, baseGeneration, cursor, frames);
      && |log| == TotalLen(frames)
      && ReplayFrom(crc, baseGeneration, log + bytes, cursor)
         == Prepended(frames, |log|, ReplayFrom(crc, baseGeneration, bytes, LastCursor(cursor, frames)))
    decreases |frames|
  {
    hide Record, ReplayFrom, Prepended;
    if frames == [] {
      assert [] + bytes == bytes;
      PrependNothing(ReplayFrom(crc, baseGeneration, bytes, cursor));
    } else {
      var f, more := frames[0], frames[1..];
      var rest := Log(crc, baseGeneration, After(f), more);
      ReplayPasses(crc, baseGeneration, After(f), more, bytes);
      ReplayOne(crc, baseGeneration, cursor, f, rest + bytes);
      assert Record(crc, f) + rest + bytes == Record(crc, f) + (rest + bytes);
      PrependTwice(f, more, |rest|, ReplayFrom(crc, baseGeneration, bytes, LastCursor(cursor, frames)));
      assert frames == [f] + more;
    }
  }

  lemma PrependTwice(f: CommitFrame, more: seq<CommitFrame>, len: nat, rest: LogResult<(seq<CommitFrame>, nat)>)
    ensures Prepended([f], FrameLen(f), Prepended(more, len, rest)) == Prepended([f] + more, FrameLen(f) + len, rest)
  {
    if rest.Ok? {
      assert [f] + (more + rest.value.0) == [f] + more + rest.value.0;
    }
  }

  /** Appended records come back, followed by nothing, whenever the tail is torn. */
  lemma ReplayAppended(crc: Crc, baseGeneration: u64, cursor: LsnCursor, frames: seq<CommitFrame>, tail: seq<byte>)
    requires Chain(baseGeneration, cursor, frames)
    requires Stops(crc, baseGeneration, tail, LastCursor(cursor, frames))
    ensures var log := Log(crc, baseGeneration, cursor, frames);
      ReplayFrom(crc, baseGeneration, log + tail, cursor) == Ok((frames, |log|))
  {
    hide Log, Chain, ReplayFrom, ParseOneRecord, Stops;
    ReplayPasses(crc, baseGeneration, cursor, frames, tail);
    ReplayStops(crc, baseGeneration, LastCursor(cursor, frames), tail);
    assert frames + [] == frames;
  }

  lemma ReplayStops(crc: Crc, baseGeneration: u64, cursor: LsnCursor, tail: seq<byte>)
    requires Stops(crc, baseGeneration, tail, cursor)
    ensures ReplayFrom(crc, baseGeneration, tail, cursor) == Ok(([], 0))
  {
    hide ParseOneRecord;
  }

  /** Whatever replay returns re-encodes, byte for byte, to the prefix it reports as valid. */
  lemma {:induction false} ReplayedIsAppended(crc: Crc, baseGeneration: u64, remaining: seq<byte>, cursor: LsnCursor)
    requires ReplayFrom(crc, baseGeneration, remaining, cursor).Ok?
    ensures var (frames, valid) := ReplayFrom(crc, baseGeneration, remaining, cursor).value;
      && Chain(baseGeneration, cursor, frames)
      && Log(crc, baseGeneration, cursor, frames) == remaining[..valid]
      && Stops(crc, baseGeneration, remaining[valid..], LastCursor(cursor, frames))
    decreases |remaining|
  {
    hide ReplayFrom, ParseOneRecord, Record, Stops;
    ReplayCases(crc, baseGeneration, remaining, cursor);
    var p := ParseOneRecord(crc, baseGeneration, remaining, cursor);
    if remaining != [] && p.Frame? {
      ParseInverse(crc, baseGeneration, remaining, cursor);
      var rest := remaining[p.len..];
      ReplayedIsAppended(crc, baseGeneration, rest, After(p.frame));
      var (frames, valid) := ReplayFrom(crc, baseGeneration, rest, After(p.frame)).value;
      assert ([p.frame] + frames)[1..] == frames;
      assert remaining[..p.len + valid] == remaining[..p.len] + rest[..valid];
      assert remaining[p.len + valid..] == rest[valid..];
    } else {
      assert remaining[0..] == remaining;
    }
  }

  /** A successful replay stops at once, or after a frame. */
  lemma ReplayCases(crc: Crc, baseGeneration: u64, remaining: seq<byte>, cursor: LsnCursor)
    requires ReplayFrom(crc, baseGeneration, remaining, cursor).Ok?
    ensures var r := ReplayFrom(crc, baseGeneration, remaining, cursor);
      var p := ParseOneRecord(crc, baseGeneration, remaining, cursor);
      if remaining != [] && p.Frame? then
        var rest := ReplayFrom(crc, baseGeneration, remaining[p.len..], After(p.frame));
        rest.Ok? && r == Prepended([p.frame], p.len, rest)
      else r == Ok(([], 0)) && Stops(crc, baseGeneration, remaining, cursor)
  {
    hide ParseOneRecord, ReplayFrom;
    if remaining == [] {
      ReplayStops(crc, baseGeneration, cursor, remaining);
    } else {
      var p := ParseOneRecord(crc, baseGeneration, remaining, cursor);
      assert remaining[0..] == remaining;
      ReplayTurn(crc, baseGeneration, remaining, 0, cursor, []);
      PrependNothing(ReplayFrom(crc, baseGeneration, remaining, cursor));
      PrependNothing(Ok(([], 0)));
      if p.Frame? {
        assert [] + [p.frame] == [p.frame];
      }
    }
  }

  /** Replay returns exactly the frames whose records make up the longest prefix before a torn tail. */
  lemma ReplayIsExact(crc: Crc, baseGeneration: u64, log: seq<byte>, frames: seq<CommitFrame>, valid: nat)
    ensures ReplayFrom(crc, baseGeneration, log, NO_RECORD) == Ok((frames, valid)) <==>
      && valid <= |log|
      && Chain(baseGeneration, NO_RECORD, frames)
      && Log(crc, baseGeneration, NO_RECORD, frames) == log[..valid]
      && Stops(crc, baseGeneration, log[valid..], LastCursor(NO_RECORD, frames))
  {
    hide ParseOneRecord, ReplayFrom, Log, Stops, Chain;
    if ReplayFrom(crc, baseGeneration, log, NO_RECORD) == Ok((frames, valid)) {
      ReplayedIsAppended(crc, baseGeneration, log, NO_RECORD);
    }
    if && valid <= |log|
       && Chain(baseGeneration, NO_RECORD, frames)
       && Log(crc, baseGeneration, NO_RECORD, frames) == log[..valid]
       && Stops(crc, baseGeneration, log[valid..], LastCursor(NO_RECORD, frames)) {
      ReplayAppended(crc, baseGeneration, NO_RECORD, frames, log[valid..]);
      assert log == log[..valid] + log[valid..];
    }
  }

  /** Cutting a log to the length replay reports changes nothing that replay returns. */
  lemma ReplayOfValidPrefix(crc: Crc, baseGeneration: u64, log: seq<byte>)
    requires Replayed(crc, baseGeneration, log).Ok?
    ensures var outcome := Replayed(crc, baseGeneration, log).value;
      outcome.validLen <= |log| && Replayed(crc, baseGeneration, log[..outcome.validLen]) == Ok(outcome)
  {
    hide ParseOneRecord, ReplayFrom, Log, Chain;
    var (frames, valid) := ReplayFrom(crc, baseGeneration, log, NO_RECORD).value;
    ReplayIsExact(crc, baseGeneration, log, frames, valid);
    var cut := log[..valid];
    assert cut[..valid] == cut && cut[valid..] == [];
    ReplayIsExact(crc, baseGeneration, cut, frames, valid);
  }

  // ----- truncation and damage

  /** How many of `frames` lie wholly within the first `cut` bytes of their log. */
  function CompleteCount(frames: seq<CommitFrame>, cut: nat): (n: nat)
    ensures n <= |frames|
    decreases |frames|
  {
    if frames == [] || cut < FrameLen(frames[0]) then 0 else 1 + CompleteCount(frames[1..], cut - FrameLen(frames[0]))
  }

  function TotalLen(frames: seq<CommitFrame>): nat {
    if frames == [] then 0 else FrameLen(frames[0]) + TotalLen(frames[1..])
  }

  /** `CompleteCount` is the largest number of whole records that fit before the cut. */
  lemma {:induction false} CompleteCountIsMaximal(frames: seq<CommitFrame>, cut: nat)
    ensures var n := CompleteCount(frames, cut);
      TotalLen(frames[..n]) <= cut && (n < |frames| ==> cut < TotalLen(frames[..n + 1]))
    decreases |frames|
  {
    if frames != [] && FrameLen(frames[0]) <= cut {
      var n := CompleteCount(frames[1..], cut - FrameLen(frames[0]));
      CompleteCountIsMaximal(frames[1..], cut - FrameLen(frames[0]));
      assert frames[..n + 1][1..] == frames[1..][..n];
      if n + 1 < |frames| { assert frames[..n + 2][1..] == frames[1..][..n + 1]; }
    } else if frames != [] {
      assert frames[..1][1..] == [];
    }
  }

  /** Cutting a log anywhere loses exactly the records that no longer fit, silently. */
  lemma {:induction false} CutRecoversCompleteRecords(crc: Crc, baseGeneration: u64, cursor: LsnCursor,
      frames: seq<CommitFrame>, cut: nat)
    requires Chain(baseGeneration, cursor, frames) && cut <= |Log(crc, baseGeneration, cursor, frames)|
    ensures var n := CompleteCount(frames, cut);
      ReplayFrom(crc, baseGeneration, Log(crc, baseGeneration, cursor, frames)[..cut], cursor)
      == Ok((frames[..n], TotalLen(frames[..n])))
    decreases |frames|
  {
    hide ParseOneRecord, Record, ReplayFrom;
    var n := CompleteCount(frames, cut);
    var log := Log(crc, baseGeneration, cursor, frames);
    if frames == [] {
      assert log[..cut] == [];
      ReplayStops(crc, baseGeneration, cursor, []);
    } else if cut < FrameLen(frames[0]) {
      assert log[..cut] == Record(crc, frames[0])[..cut];
      ParseTorn(crc, baseGeneration, cursor, frames[0], cut);
      ReplayStops(crc, baseGeneration, cursor, log[..cut]);
    } else {
      var f, more := frames[0], frames[1..];
      var rest, cut' := Log(crc, baseGeneration, After(f), more), cut - FrameLen(f);
      CutRecoversCompleteRecords(crc, baseGeneration, After(f), more, cut');
      assert log[..cut] == Record(crc, f) + rest[..cut'];
      ReplayOne(crc, baseGeneration, cursor, f, rest[..cut']);
      assert frames[..n] == [f] + more[..n - 1];
    }
  }

  /** A full header whose record fails a check: magic, generation, framing or checksum. */
  predicate Damaged(crc: Crc, baseGeneration: u64, bytes: seq<byte>) {
    && |bytes| >= HEADER_LEN
    && var h := DecodeHeader(bytes[..HEADER_LEN]);
       || h.magic != LOG_MAGIC || h.baseGeneration != baseGeneration
       || !(BodyLen(h) <= h.len <= |bytes|) || RecordCrc(crc, bytes[..h.len]) != h.crc
  }

  /** The damaged record frames itself, and bytes follow it. */
  predicate Followed(bytes: seq<byte>)
    requires |bytes| >= HEADER_LEN
  {
    var h := DecodeHeader(bytes[..HEADER_LEN]);
    BodyLen(h) <= h.len < |bytes|
  }

  function DamageError(baseGeneration: u64, h: Header): StorageError {
    if h.magic == LOG_MAGIC && h.baseGeneration != baseGeneration then BaseGenerationMismatch(baseGeneration, h.baseGeneration)
    else LogCorrupt(h.lsn)
  }

  /** Of a damaged header, the generation is reported if it differs although the magic is right, and the sequence
      number of the corrupt record otherwise. */
  lemma DamageErrorNames(baseGeneration: u64, h: Header)
    ensures DamageError(baseGeneration, h) == BaseGenerationMismatch(baseGeneration, h.baseGeneration) <==>
      h.magic == 0x4F58_4C47 && h.baseGeneration != baseGeneration
    ensures !DamageError(baseGeneration, h).BaseGenerationMismatch? ==> DamageError(baseGeneration, h) == LogCorrupt(h.lsn)
  {
  }

  lemma ParseDamaged(crc: Crc, baseGeneration: u64, bytes: seq<byte>, cursor: LsnCursor)
    requires Damaged(crc, baseGeneration, bytes)
    ensures ParseOneRecord(crc, baseGeneration, bytes, cursor)
         == if Followed(bytes) then Loud(DamageError(baseGeneration, DecodeHeader(bytes[..HEADER_LEN]))) else Stop
  {
    hide RecordCrc, DecodeHeader, DecodedFrame;
  }

  /** After valid records, a damaged record is an error exactly when it frames itself and bytes follow
      it. Otherwise, and in particular when its length runs past the end, it is a torn tail. */
  lemma DamageIsLoudIffFollowed(crc: Crc, baseGeneration: u64, cursor: LsnCursor, frames: seq<CommitFrame>,
      bytes: seq<byte>)
    requires Chain(baseGeneration, cursor, frames) && Damaged(crc, baseGeneration, bytes)
    ensures var r := ReplayFrom(crc, baseGeneration, Log(crc, baseGeneration, cursor, frames) + bytes, cursor);
      r ==
        if Followed(bytes) then Err(DamageError(baseGeneration, DecodeHeader(bytes[..HEADER_LEN])))
        else Ok((frames, TotalLen(frames)))
  {
    hide Log, Chain, ReplayFrom, Damaged, Followed, DamageError, DecodeHeader;
    ReplayPasses(crc, baseGeneration, cursor, frames, bytes);
    ReplayDamaged(crc, baseGeneration, LastCursor(cursor, frames), bytes);
    assert frames + [] == frames;
  }

  /** A record whose length field is damaged to run past the end hides the well-formed record after it,
      without an error. */
  lemma OverlongLengthHidesTheNext(crc: Crc, baseGeneration: u64, f: CommitFrame, g: CommitFrame, len: u32)
    requires Encodable(f) && Encodable(g) && FrameLen(f) + FrameLen(g) < len
    ensures var bytes := EncodeHeader(HeaderOf(f, 0).(len := len)) + Record(crc, f)[HEADER_LEN..] + Record(crc, g);
      Damaged(crc, baseGeneration, bytes) && Replayed(crc, baseGeneration, bytes) == Ok(Outcome([], 0))
  {
    hide Record, RecordCrc, EncodeHeader, DecodeHeader, DecodedFrame;
    var h := HeaderOf(f, 0).(len := len);
    var bytes := EncodeHeader(h) + Record(crc, f)[HEADER_LEN..] + Record(crc, g);
    assert bytes[..HEADER_LEN] == EncodeHeader(h);
    HeaderRoundTrip(h);
  }

  /** So a failing record with a well-formed one after it is not always loud. */
  lemma DocumentedLoudnessFails(crc: Crc)
    ensures var f, g := CommitFrame(1, 1, 0, [], []), CommitFrame(2, 2, 0, [], []);
      var bytes := EncodeHeader(HeaderOf(f, 0).(len := 1000)) + Record(crc, f)[HEADER_LEN..] + Record(crc, g);
      Damaged(crc, 0, bytes) && Replayed(crc, 0, bytes) == Ok(Outcome([], 0))
  {
    OverlongLengthHidesTheNext(crc, 0, CommitFrame(1, 1, 0, [], []), CommitFrame(2, 2, 0, [], []), 1000);
  }

  /** A well-formed record that does not ascend is an error, even at the very end. */
  lemma ParseRegressed(crc: Crc, baseGeneration: u64, cursor: LsnCursor, g: CommitFrame, rest: seq<byte>)
    requires Encodable(g) && g.baseGeneration == baseGeneration && cursor.seen && g.lsn <= cursor.lastLsn
    ensures ParseOneRecord(crc, baseGeneration, Record(crc, g) + rest, cursor) == Loud(LogCorrupt(g.lsn))
  {
    hide Record, RecordCrc, DecodeHeader, DecodedFrame, EncodeHeader;
    var r := Record(crc, g);
    RecordFacts(crc, g);
    DecodedRecord(crc, g);
    assert (r + rest)[..HEADER_LEN] == r[..HEADER_LEN];
    assert (r + rest)[..FrameLen(g)] == r;
  }

  // ----- appending to the file

  /** What the file system does with one append: how many record bytes reached the file, whether
      the sync succeeded, and whether the truncation after a failure worked. */
  datatype Io = Io(written: nat, synced: bool, truncated: bool)

  predicate Appends(frame: seq<byte>, io: Io) {
    io.written >= |frame| && io.synced
  }

  /** The file after an append attempt. */
  function FileAfter(file: seq<byte>, frame: seq<byte>, io: Io): seq<byte> {
    if Appends(frame, io) then file + frame
    else if io.truncated then file
    else file + frame[..if io.written < |frame| then io.written else |frame|]
  }

  class DeltaLog {
    var bytes: seq<byte>

    constructor (contents: seq<byte>)
      ensures bytes == contents
    {
      bytes := contents;
    }

    method AppendCommit(frame: seq<byte>, io: Io) returns (ok: bool)
      modifies this
      ensures ok == Appends(frame, io) && bytes == FileAfter(old(bytes), frame, io)
      ensures ok <==> io.synced && |frame| <= io.written
      ensures ok ==> bytes == old(bytes) + frame
      ensures !ok && io.truncated ==> bytes == old(bytes)
      ensures !ok && !io.truncated && |frame| <= io.written ==> bytes == old(bytes) + frame
      ensures !ok && !io.truncated && io.written < |frame| ==> bytes == old(bytes) + frame[..io.written]
    {
      var eof := |bytes|;
      if io.written < |frame| {
        bytes := bytes + frame[..io.written];
        RollbackTo(eof, io);
        return false;
      }
      bytes := bytes + frame;
      if !io.synced {
        RollbackTo(eof, io);
        return false;
      }
      return true;
    }

    /** Truncation errors are swallowed. */
    method RollbackTo(eof: nat, io: Io)
      requires eof <= |bytes|
      modifies this
      ensures bytes == if io.truncated then old(bytes)[..eof] else old(bytes)
    {
      if io.truncated {
        bytes := bytes[..eof];
      }
    }
  }

  // ----- runs with crashes and recoveries

  /** Bytes of an unacknowledged record at the end of the file: none, the first `written` bytes of the
      record of `frame`, or such bytes with more records written behind them. */
  datatype Residue = Clean | Residue(frame: CommitFrame, written: nat) | Buried

  datatype Store = Store(log: seq<byte>, acked: seq<CommitFrame>, residue: Residue, crashed: bool)

  datatype Event =
    | Append(frame: CommitFrame, io: Io)
    | Crash(frame: CommitFrame, written: nat)
    | Recover

  /** A writer appends after the last acknowledged frame; a store opens only if replay succeeds. */
  predicate Enabled(crc: Crc, baseGeneration: u64, s: Store, e: Event) {
    match e
    case Append(f, io) => !s.crashed && Follows(baseGeneration, LastCursor(NO_RECORD, s.acked), f)
    case Crash(f, written) =>
      !s.crashed && Follows(baseGeneration, LastCursor(NO_RECORD, s.acked), f) && written <= FrameLen(f)
    case Recover => Replayed(crc, baseGeneration, s.log).Ok?
  }

  /** What an unacknowledged append leaves behind. */
  function Left(r: Residue, f: CommitFrame, written: nat): Residue {
    if written == 0 then r else if r.Clean? then Residue(f, written) else Buried
  }

  function Next(crc: Crc, baseGeneration: u64, s: Store, e: Event): Store
    requires Enabled(crc, baseGeneration, s, e)
  {
    match e
    case Append(f, io) =>
      var record := Record(crc, f);
      var file := FileAfter(s.log, record, io);
      if Appends(record, io) then
        s.(log := file, acked := s.acked + [f], residue := if s.residue.Clean? then Clean else Buried)
      else if io.truncated then s.(log := file)
      else s.(log := file, residue := Left(s.residue, f, if io.written < |record| then io.written else |record|))
    case Crash(f, written) =>
      s.(log := s.log + Record(crc, f)[..written], residue := Left(s.residue, f, written), crashed := true)
    case Recover =>
      var outcome := Replayed(crc, baseGeneration, s.log).value;
      Store(s.log[..outcome.validLen], outcome.frames, Clean, false)
  }

  /** The log holds the acknowledged records, then the residue. */
  ghost predicate Durable(crc: Crc, baseGeneration: u64, s: Store) {
    && !s.residue.Buried?
    && Chain(baseGeneration, NO_RECORD, s.acked)
    && (s.residue.Residue? ==>
          && Follows(baseGeneration, LastCursor(NO_RECORD, s.acked), s.residue.frame)
          && s.residue.written <= FrameLen(s.residue.frame))
    && s.log == Log(crc, baseGeneration, NO_RECORD, s.acked)
                + (if s.residue.Residue? then Record(crc, s.residue.frame)[..s.residue.written] else [])
  }

  /** What replay must return: the acknowledged frames, and the residue's frame only when whole. */
  function Recoverable(s: Store): seq<CommitFrame> {
    if s.residue.Residue? && s.residue.written == FrameLen(s.residue.frame) then s.acked + [s.residue.frame] else s.acked
  }

  lemma {:induction false} ChainSnoc(crc: Crc, baseGeneration: u64, cursor: LsnCursor, frames: seq<CommitFrame>,
      f: CommitFrame)
    requires Chain(baseGeneration, cursor, frames) && Follows(baseGeneration, LastCursor(cursor, frames), f)
    ensures Chain(baseGeneration, cursor, frames + [f])
    ensures Log(crc, baseGeneration, cursor, frames + [f]) == Log(crc, baseGeneration, cursor, frames) + Record(crc, f)
    decreases |frames|
  {
    hide Record;
    if frames == [] {
      assert [f][1..] == [];
    } else {
      ChainSnoc(crc, baseGeneration, After(frames[0]), frames[1..], f);
      assert (frames + [f])[1..] == frames[1..] + [f];
    }
  }

  lemma DurableReplays(crc: Crc, baseGeneration: u64, s: Store)
    requires Durable(crc, baseGeneration, s)
    ensures Replayed(crc, baseGeneration, s.log).Ok?
    ensures var outcome := Replayed(crc, baseGeneration, s.log).value;
      && outcome.frames == Recoverable(s)
      && Chain(baseGeneration, NO_RECORD, outcome.frames)
      && outcome.validLen <= |s.log|
      && s.log[..outcome.validLen] == Log(crc, baseGeneration, NO_RECORD, outcome.frames)
  {
    hide Record, ParseOneRecord, ReplayFrom;
    var log := Log(crc, baseGeneration, NO_RECORD, s.acked);
    var cursor := LastCursor(NO_RECORD, s.acked);
    if s.residue.Clean? {
      ReplayAppended(crc, baseGeneration, NO_RECORD, s.acked, []);
      assert log + [] == log;
    } else {
      var f := s.residue.frame;
      if s.residue.written == FrameLen(f) {
        ChainSnoc(crc, baseGeneration, NO_RECORD, s.acked, f);
        assert s.log == Log(crc, baseGeneration, NO_RECORD, s.acked + [f]) + [];
        ReplayAppended(crc, baseGeneration, NO_RECORD, s.acked + [f], []);
      } else {
        ParseTorn(crc, baseGeneration, cursor, f, s.residue.written);
        ReplayAppended(crc, baseGeneration, NO_RECORD, s.acked, Record(crc, f)[..s.residue.written]);
      }
    }
  }

  /** A step keeps a store durable, and its acknowledged commits, unless it writes behind a residue. */
  lemma StepKeepsDurable(crc: Crc, baseGeneration: u64, s: Store, e: Event)
    requires Durable(crc, baseGeneration, s) && Enabled(crc, baseGeneration, s, e)
    ensures var t := Next(crc, baseGeneration, s, e);
      t.residue.Buried? || (Durable(crc, baseGeneration, t) && s.acked <= t.acked)
  {
    hide Record, ReplayFrom, Replayed;
    match e
    case Append(f, io) =>
      ChainSnoc(crc, baseGeneration, NO_RECORD, s.acked, f);
      assert s.log + [] == s.log;
      assert Record(crc, f)[..FrameLen(f)] == Record(crc, f);
    case Crash(f, written) =>
      assert s.log + [] == s.log;
    case Recover =>
      DurableReplays(crc, baseGeneration, s);
  }

  /** Whatever the file holds, a recovery that succeeds leaves a durable store. */
  lemma RecoveryIsDurable(crc: Crc, baseGeneration: u64, s: Store)
    requires Enabled(crc, baseGeneration, s, Recover)
    ensures Durable(crc, baseGeneration, Next(crc, baseGeneration, s, Recover))
  {
    hide Record, ParseOneRecord, ReplayFrom, Log, Chain;
    var (frames, valid) := ReplayFrom(crc, baseGeneration, s.log, NO_RECORD).value;
    ReplayIsExact(crc, baseGeneration, s.log, frames, valid);
    assert s.log[..valid] + [] == s.log[..valid];
  }

  /** A run: one event per step, each enabled where it happens. */
  ghost predicate IsRun(crc: Crc, baseGeneration: u64, run: seq<Store>, events: seq<Event>) {
    && |run| == |events| + 1
    && run[0] == Store([], [], Clean, false)
    && forall i :: 0 <= i < |events| ==>
         Enabled(crc, baseGeneration, run[i], events[i]) && run[i + 1] == Next(crc, baseGeneration, run[i], events[i])
  }

  /** At every point of every run, unless a record was written behind a residue since the last recovery,
      replay succeeds and returns the acknowledged commits in order, plus the in-flight one exactly when
      it was wholly written; and acknowledged commits stay for as long as that never happens. */
  lemma {:induction false} EveryRunRecovers(crc: Crc, baseGeneration: u64, run: seq<Store>, events: seq<Event>, i: nat)
    requires IsRun(crc, baseGeneration, run, events) && i < |run|
    ensures !run[i].residue.Buried? ==> Durable(crc, baseGeneration, run[i])
    ensures !run[i].residue.Buried? ==>
      && Replayed(crc, baseGeneration, run[i].log).Ok?
      && Replayed(crc, baseGeneration, run[i].log).value.frames == Recoverable(run[i])
    ensures forall j :: 0 <= j <= i && (forall m :: j <= m <= i ==> !run[m].residue.Buried?) ==> run[j].acked <= run[i].acked
  {
    hide Record, ReplayFrom, Replayed, Next, Durable, Recoverable, Enabled;
    if i == 0 {
      assert Durable(crc, baseGeneration, run[0]) by { EmptyIsDurable(crc, baseGeneration); }
    } else {
      EveryRunRecovers(crc, baseGeneration, run, events, i - 1);
      assert run[(i - 1) + 1] == Next(crc, baseGeneration, run[i - 1], events[i - 1]);
      if run[i - 1].residue.Buried? {
        if events[i - 1].Recover? {
          RecoveryIsDurable(crc, baseGeneration, run[i - 1]);
        } else {
          BuriedStays(crc, baseGeneration, run[i - 1], events[i - 1]);
        }
      } else {
        StepKeepsDurable(crc, baseGeneration, run[i - 1], events[i - 1]);
      }
    }
    if !run[i].residue.Buried? {
      DurableReplays(crc, baseGeneration, run[i]);
    }
  }

  lemma BuriedStays(crc: Crc, baseGeneration: u64, s: Store, e: Event)
    requires s.residue.Buried? && !e.Recover? && Enabled(crc, baseGeneration, s, e)
    ensures Next(crc, baseGeneration, s, e).residue.Buried?
  {
    hide Record;
  }

  lemma EmptyIsDurable(crc: Crc, baseGeneration: u64)
    ensures Durable(crc, baseGeneration, Store([], [], Clean, false))
  {
  }

  // ----- an append behind a residue

  lemma {:induction false} ChainAscends(baseGeneration: u64, cursor: LsnCursor, frames: seq<CommitFrame>, i: nat,
      j: nat)
    requires Chain(baseGeneration, cursor, frames) && i <= j < |frames|
    ensures cursor.seen ==> cursor.lastLsn < frames[i].lsn
    ensures i < j ==> frames[i].lsn < frames[j].lsn
    decreases |frames|
  {
    if i > 0 {
      ChainAscends(baseGeneration, After(frames[0]), frames[1..], i - 1, j - 1);
    } else if j > 0 {
      ChainAscends(baseGeneration, After(frames[0]), frames[1..], j - 1, j - 1);
    }
  }

  lemma {:induction false} TwoFit(frames: seq<CommitFrame>, j: nat)
    requires j < |frames|
    ensures (if j > 0 then FrameLen(frames[0]) else 0) + FrameLen(frames[j]) <= TotalLen(frames)
  {
    if j > 0 {
      TwoFit(frames[1..], j - 1);
    }
  }

  /** With at least a header of residue, the tail is read by the residue's header. */
  lemma ResidueHeader(crc: Crc, baseGeneration: u64, f: CommitFrame, g: CommitFrame, k: nat)
    requires Encodable(f) && Encodable(g) && f.baseGeneration == baseGeneration && HEADER_LEN <= k <= FrameLen(f)
    ensures var tail := Record(crc, f)[..k] + Record(crc, g);
      && DecodeHeader(tail[..HEADER_LEN]) == HeaderOf(f, RecordCrc(crc, Record(crc, f)))
      && (Followed(tail) <==> FrameLen(f) < k + FrameLen(g))
      && (Damaged(crc, baseGeneration, tail) <==>
            k + FrameLen(g) < FrameLen(f) || RecordCrc(crc, tail[..FrameLen(f)]) != RecordCrc(crc, Record(crc, f)))
  {
    hide Record, RecordCrc, DecodeHeader, EncodeHeader;
    var tail := Record(crc, f)[..k] + Record(crc, g);
    RecordFacts(crc, f);
    DecodedRecord(crc, f);
    assert tail[..HEADER_LEN] == Record(crc, f)[..HEADER_LEN];
  }

  lemma PrependsJoin(acked: seq<CommitFrame>, len: nat, f: CommitFrame, rest: LogResult<(seq<CommitFrame>, nat)>)
    ensures Prepended(acked, len, Prepended([f], FrameLen(f), rest)) == Prepended(acked + [f], len + FrameLen(f), rest)
  {
    if rest.Ok? {
      assert acked + ([f] + rest.value.0) == acked + [f] + rest.value.0;
    }
  }

  lemma ReplayRegressed(crc: Crc, baseGeneration: u64, cursor: LsnCursor, g: CommitFrame, rest: seq<byte>)
    requires Encodable(g) && g.baseGeneration == baseGeneration && cursor.seen && g.lsn <= cursor.lastLsn
    ensures ReplayFrom(crc, baseGeneration, Record(crc, g) + rest, cursor) == Err(LogCorrupt(g.lsn))
  {
    hide Record, ParseOneRecord;
    ParseRegressed(crc, baseGeneration, cursor, g, rest);
  }

  lemma ReplayDamaged(crc: Crc, baseGeneration: u64, cursor: LsnCursor, bytes: seq<byte>)
    requires Damaged(crc, baseGeneration, bytes)
    ensures ReplayFrom(crc, baseGeneration, bytes, cursor)
         == if Followed(bytes) then Err(DamageError(baseGeneration, DecodeHeader(bytes[..HEADER_LEN]))) else Ok(([], 0))
  {
    hide ParseOneRecord, RecordCrc, DecodeHeader, Followed, DamageError;
    ParseDamaged(crc, baseGeneration, bytes, cursor);
  }

  /** What passes every check is the record of some frame. */
  lemma UndamagedIsRecord(crc: Crc, baseGeneration: u64, bytes: seq<byte>) returns (e: CommitFrame)
    requires |bytes| >= HEADER_LEN && !Damaged(crc, baseGeneration, bytes)
    ensures var h := DecodeHeader(bytes[..HEADER_LEN]);
      && BodyLen(h) <= h.len <= |bytes| && e == DecodedFrame(h, bytes[..h.len])
      && Encodable(e) && FrameLen(e) == h.len && e.baseGeneration == baseGeneration && bytes[..h.len] == Record(crc, e)
  {
    hide RecordCrc, RecordWithCrc, DecodeHeader, DecodedFrame;
    var h := DecodeHeader(bytes[..HEADER_LEN]);
    var record := bytes[..h.len];
    assert record[..HEADER_LEN] == bytes[..HEADER_LEN];
    DecodedFrameParts(crc, h, record);
    e := DecodedFrame(h, record);
    CrcPatch(e, h.crc);
    CrcOfPatched(crc, e, h.crc);
  }

  lemma NothingLeft(crc: Crc, baseGeneration: u64, acked: seq<CommitFrame>, g: CommitFrame)
    requires Chain(baseGeneration, NO_RECORD, acked) && Follows(baseGeneration, LastCursor(NO_RECORD, acked), g)
    ensures var log := Log(crc, baseGeneration, NO_RECORD, acked);
      ReplayFrom(crc, baseGeneration, log + Record(crc, g), NO_RECORD) == Ok((acked + [g], |log| + FrameLen(g)))
  {
    hide Record, ReplayFrom, ParseOneRecord, Log, Chain;
    ChainSnoc(crc, baseGeneration, NO_RECORD, acked, g);
    ReplayAppended(crc, baseGeneration, NO_RECORD, acked + [g], []);
    var log := Log(crc, baseGeneration, NO_RECORD, acked);
    assert log + Record(crc, g) + [] == log + Record(crc, g);
  }

  lemma AllLeft(crc: Crc, baseGeneration: u64, cursor: LsnCursor, f: CommitFrame, g: CommitFrame)
    requires Follows(baseGeneration, cursor, f) && Encodable(g) && g.baseGeneration == baseGeneration && g.lsn <= f.lsn
    ensures ReplayFrom(crc, baseGeneration, Record(crc, f) + Record(crc, g), cursor) == Err(LogCorrupt(g.lsn))
  {
    hide Record, ReplayFrom;
    assert Record(crc, g) + [] == Record(crc, g);
    ReplayOne(crc, baseGeneration, cursor, f, Record(crc, g));
    ReplayRegressed(crc, baseGeneration, After(f), g, []);
  }

  /** The outcomes when `g` is appended and acknowledged behind the first `k` bytes of `f`, both having
      drawn the same next sequence number. Nothing left: recovered. All of `f` left: replay fails, and
      the store does not open. A part left that does not happen to check out with the head of `g`:
      replay fails if the part's header frames itself with bytes to follow, and otherwise `g` is lost
      without an error. A part that does check out is read as a record of its own. */
  lemma AppendOverResidue(crc: Crc, baseGeneration: u64, acked: seq<CommitFrame>, f: CommitFrame, g: CommitFrame,
      k: nat)
    requires Chain(baseGeneration, NO_RECORD, acked) && k <= FrameLen(f) && f.lsn == g.lsn
    requires Follows(baseGeneration, LastCursor(NO_RECORD, acked), f)
    requires Follows(baseGeneration, LastCursor(NO_RECORD, acked), g)
    ensures var log := Log(crc, baseGeneration, NO_RECORD, acked);
      var tail := Record(crc, f)[..k] + Record(crc, g);
      var h := DecodeHeader(tail[..HEADER_LEN]);
      var r := ReplayFrom(crc, baseGeneration, log + tail, NO_RECORD);
      && (k == 0 ==> r == Ok((acked + [g], |log| + FrameLen(g))))
      && (k == FrameLen(f) ==> r == Err(LogCorrupt(g.lsn)))
      && (Damaged(crc, baseGeneration, tail) && Followed(tail) ==> r == Err(DamageError(baseGeneration, h)))
      && (Damaged(crc, baseGeneration, tail) && !Followed(tail) ==> r == Ok((acked, |log|)))
      && (!Damaged(crc, baseGeneration, tail) ==>
            var e := DecodedFrame(h, tail[..h.len]);
            && Encodable(e) && FrameLen(e) == h.len && tail[..h.len] == Record(crc, e)
            && r == if !Follows(baseGeneration, LastCursor(NO_RECORD, acked), e) then Err(LogCorrupt(e.lsn))
                    else Prepended(acked + [e], |log| + h.len, ReplayFrom(crc, baseGeneration, tail[h.len..], After(e))))
  {
    hide Record, RecordCrc, ParseOneRecord, ReplayFrom, Log, Chain, Damaged, Followed, DamageError, DecodeHeader, DecodedFrame;
    var tail := Record(crc, f)[..k] + Record(crc, g);
    var cursor := LastCursor(NO_RECORD, acked);
    var log := Log(crc, baseGeneration, NO_RECORD, acked);
    ReplayPasses(crc, baseGeneration, NO_RECORD, acked, tail);
    if k == 0 {
      assert tail == Record(crc, g);
      NothingLeft(crc, baseGeneration, acked, g);
    }
    if k == FrameLen(f) {
      assert tail == Record(crc, f) + Record(crc, g);
      AllLeft(crc, baseGeneration, cursor, f, g);
    }
    if Damaged(crc, baseGeneration, tail) {
      ReplayDamaged(crc, baseGeneration, cursor, tail);
      assert acked + [] == acked;
    } else {
      var e := UndamagedIsRecord(crc, baseGeneration, tail);
      var rest := tail[FrameLen(e)..];
      assert tail == Record(crc, e) + rest;
      if Follows(baseGeneration, cursor, e) {
        ReplayOne(crc, baseGeneration, cursor, e, rest);
        PrependsJoin(acked, |log|, e, ReplayFrom(crc, baseGeneration, rest, After(e)));
      } else {
        ReplayRegressed(crc, baseGeneration, cursor, e, rest);
      }
    }
  }

  /** When replay succeeds, `g` is among its frames exactly when its record stands where the residue
      began: nothing was left, or the left bytes and the head of `g` repeat the record of `g`. */
  lemma RecoveredOverResidue(crc: Crc, baseGeneration: u64, acked: seq<CommitFrame>, f: CommitFrame, g: CommitFrame,
      k: nat)
    requires Chain(baseGeneration, NO_RECORD, acked) && k <= FrameLen(f) && f.lsn == g.lsn
    requires Follows(baseGeneration, LastCursor(NO_RECORD, acked), f)
    requires Follows(baseGeneration, LastCursor(NO_RECORD, acked), g)
    ensures var tail := Record(crc, f)[..k] + Record(crc, g);
      var r := ReplayFrom(crc, baseGeneration, Log(crc, baseGeneration, NO_RECORD, acked) + tail, NO_RECORD);
      r.Ok? ==> (g in r.value.0 <==> tail[..FrameLen(g)] == Record(crc, g))
  {
    hide Record, RecordCrc, ParseOneRecord, ReplayFrom, Log, Chain;
    var tail := Record(crc, f)[..k] + Record(crc, g);
    var cursor := LastCursor(NO_RECORD, acked);
    ReplayPasses(crc, baseGeneration, NO_RECORD, acked, tail);
    var r := ReplayFrom(crc, baseGeneration, tail, cursor);
    if r.Ok? {
      NotYet(baseGeneration, acked, g);
      if tail[..FrameLen(g)] == Record(crc, g) {
        assert tail == Record(crc, g) + tail[FrameLen(g)..];
        ReplayOne(crc, baseGeneration, cursor, g, tail[FrameLen(g)..]);
      }
      if g in r.value.0 {
        OnlyInPlace(crc, baseGeneration, cursor, f, g, k);
      }
    }
  }

  lemma NotYet(baseGeneration: u64, acked: seq<CommitFrame>, g: CommitFrame)
    requires Chain(baseGeneration, NO_RECORD, acked) && Follows(baseGeneration, LastCursor(NO_RECORD, acked), g)
    ensures g !in acked
  {
    hide Chain;
    if g in acked {
      var i :| 0 <= i < |acked| && acked[i] == g;
      ChainAscends(baseGeneration, NO_RECORD, acked, i, |acked| - 1);
    }
  }

  /** Behind a residue, `g` cannot be read at a later place: a record before it would have the header of
      `f`, and so its sequence number. */
  lemma OnlyInPlace(crc: Crc, baseGeneration: u64, cursor: LsnCursor, f: CommitFrame, g: CommitFrame, k: nat)
    requires Follows(baseGeneration, cursor, f) && Follows(baseGeneration, cursor, g) && f.lsn == g.lsn
    requires k <= FrameLen(f)
    requires var r := ReplayFrom(crc, baseGeneration, Record(crc, f)[..k] + Record(crc, g), cursor); r.Ok? && g in r.value.0
    ensures (Record(crc, f)[..k] + Record(crc, g))[..FrameLen(g)] == Record(crc, g)
  {
    hide Record, RecordCrc, ParseOneRecord, ReplayFrom, Chain, DecodeHeader, DecodedFrame, EncodeHeader;
    var tail := Record(crc, f)[..k] + Record(crc, g);
    var (frames, valid) := ReplayFrom(crc, baseGeneration, tail, cursor).value;
    ReplayedIsAppended(crc, baseGeneration, tail, cursor);
    ReplayPasses(crc, baseGeneration, cursor, frames, []);
    var j :| 0 <= j < |frames| && frames[j] == g;
    var e := frames[0];
    FirstRecord(crc, baseGeneration, cursor, frames);
    assert tail[..FrameLen(e)] == tail[..valid][..FrameLen(e)] == Record(crc, e);
    assert tail[..HEADER_LEN] == tail[..FrameLen(e)][..HEADER_LEN];
    if j > 0 {
      ChainAscends(baseGeneration, cursor, frames, 0, j);
      TwoFit(frames, j);
      RecordFacts(crc, e);
      ResidueHeader(crc, baseGeneration, f, g, k);
      assert false;
    }
  }

  lemma FirstRecord(crc: Crc, baseGeneration: u64, cursor: LsnCursor, frames: seq<CommitFrame>)
    requires Chain(baseGeneration, cursor, frames) && frames != []
    ensures Encodable(frames[0]) && FrameLen(frames[0]) <= |Log(crc, baseGeneration, cursor, frames)|
    ensures Log(crc, baseGeneration, cursor, frames)[..FrameLen(frames[0])] == Record(crc, frames[0])
  {
    hide Record;
  }

  /** So a commit that the append reported as durable can be missing from an error-free replay. */
  lemma AcknowledgedCommitLost(crc: Crc, baseGeneration: u64, f: CommitFrame, g: CommitFrame, k: nat)
    requires Follows(baseGeneration, NO_RECORD, f) && Follows(baseGeneration, NO_RECORD, g)
    requires HEADER_LEN <= k && k + FrameLen(g) < FrameLen(f)
    ensures var torn := FileAfter([], Record(crc, f), Io(k, false, false));
      var file := FileAfter(torn, Record(crc, g), Io(FrameLen(g), true, true));
      Appends(Record(crc, g), Io(FrameLen(g), true, true)) && Replayed(crc, baseGeneration, file) == Ok(Outcome([], 0))
  {
    hide Record, RecordCrc, DecodeHeader, DecodedFrame, EncodeHeader;
    RecordFacts(crc, f);
    var torn := Record(crc, f)[..k];
    assert [] + torn == torn;
    assert (torn + Record(crc, g))[..HEADER_LEN] == Record(crc, f)[..HEADER_LEN];
  }

  /** Such frames exist: a commit with a kilobyte of blob, then an empty one. */
  lemma AcknowledgedCommitLostWitness(crc: Crc)
    ensures var f := CommitFrame(1, 1, 0, [], seq(1000, _ => 0));
      var g := CommitFrame(1, 2, 0, [], []);
      Replayed(crc, 0, Record(crc, f)[..HEADER_LEN] + Record(crc, g)) == Ok(Outcome([], 0))
  {
    hide Record, ReplayFrom;
    var f := CommitFrame(1, 1, 0, [], seq(1000, _ => 0));
    var g := CommitFrame(1, 2, 0, [], []);
    AcknowledgedCommitLost(crc, 0, f, g, HEADER_LEN);
    assert [] + Record(crc, f)[..HEADER_LEN] == Record(crc, f)[..HEADER_LEN];
  }

  /** And when a record was written whole before its sync and its truncation failed, the next commit,
      which draws the same sequence number, leaves a log that no replay accepts. */
  lemma AcknowledgedCommitBlocksOpening(crc: Crc, baseGeneration: u64, acked: seq<CommitFrame>, f: CommitFrame,
      g: CommitFrame)
    requires Chain(baseGeneration, NO_RECORD, acked) && f.lsn == g.lsn
    requires Follows(baseGeneration, LastCursor(NO_RECORD, acked), f)
    requires Follows(baseGeneration, LastCursor(NO_RECORD, acked), g)
    ensures var log := Log(crc, baseGeneration, NO_RECORD, acked);
      var kept := FileAfter(log, Record(crc, f), Io(FrameLen(f), false, false));
      var file := FileAfter(kept, Record(crc, g), Io(FrameLen(g), true, true));
      Appends(Record(crc, g), Io(FrameLen(g), true, true)) && Replayed(crc, baseGeneration, file) == Err(LogCorrupt(g.lsn))
  {
    hide Record, ReplayFrom, Log, Chain;
    AppendOverResidue(crc, baseGeneration, acked, f, g, FrameLen(f));
    var log := Log(crc, baseGeneration, NO_RECORD, acked);
    assert log + Record(crc, f) + Record(crc, g) == log + (Record(crc, f) + Record(crc, g));
    assert Record(crc, f)[..FrameLen(f)] == Record(crc, f);
  }
}
