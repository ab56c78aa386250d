/** The writer's log as a commit frame, and the overlay that recovery folds the replayed frames into
    (`oxgraph-db/src/overlay/log.rs`, `overlay/write.rs`, `database/open.rs`). A mutation is logged as
    nine words and, for text, a slice of the frame's blob; the id watermark closes the frame. Decoding
    inverts logging, so that replay rebuilds what the committed transactions left. */
module MutationLog {
  import opened Options
  import opened Bytes
  import opened Values
  import opened Index
  import opened OverlayIndexes
  import opened Overlay
  import opened Wal
  import opened EqualityPostings
  import opened Postings

  const OP_CREATE_ELEMENT: u32 := 1
  const OP_TOMBSTONE_ELEMENT: u32 := 2
  const OP_CREATE_RELATION: u32 := 3
  const OP_TOMBSTONE_RELATION: u32 := 4
  const OP_CREATE_INCIDENCE: u32 := 5
  const OP_TOMBSTONE_INCIDENCE: u32 := 6
  const OP_SET_RELATION_TYPE: u32 := 7
  const OP_ADD_ELEMENT_LABEL: u32 := 8
  const OP_SET_PROPERTY: u32 := 10
  const OP_REMOVE_PROPERTY: u32 := 11
  const OP_NEXT_ID_WATERMARK: u32 := 18

  /** The nine id allocators; elements, relations and incidences come first. */
  type NextIds = words: seq<u64> | |words| == PAYLOAD_WORDS
    witness [0, 0, 0, 0, 0, 0, 0, 0, 0]

  // ----- one operation

  /** The leading payload words, the rest zero. */
  function Push(kind: u32, flags: u32, words: seq<u64>): MutationOp
    requires |words| <= PAYLOAD_WORDS
  {
    Op(kind, flags, words + seq(PAYLOAD_WORDS - |words|, _ => 0))
  }

  /** Two 16-bit tags in one word. */
  function PackFlags(low: u32, high: u32): u32 {
    low % 0x1_0000 + (high % 0x1_0000) * 0x1_0000
  }

  function InternedText(m: Mutation): seq<byte> {
    if m.SetProperty? then TextOf(m.value) else []
  }

  /** `at` is the length of the blob so far, where a text value is interned. */
  function EncodeMutation(m: Mutation, at: u64): MutationOp
    requires at + |InternedText(m)| <= MAX_WORD
  {
    match m
    case CreateElement(id) => Push(OP_CREATE_ELEMENT, 0, [id])
    case CreateRelation(id) => Push(OP_CREATE_RELATION, 0, [id])
    case CreateIncidence(id, ends) => Push(OP_CREATE_INCIDENCE, 0, [id, ends.relation, ends.element, ends.role])
    case TombstoneElement(id) => Push(OP_TOMBSTONE_ELEMENT, 0, [id])
    case TombstoneRelation(id) => Push(OP_TOMBSTONE_RELATION, 0, [id])
    case TombstoneIncidence(id) => Push(OP_TOMBSTONE_INCIDENCE, 0, [id])
    case AddElementLabel(id, labelId) => Push(OP_ADD_ELEMENT_LABEL, 0, [id, labelId])
    case SetRelationType(id, relationType) => Push(OP_SET_RELATION_TYPE, 0, [id, relationType])
    case SetProperty(s, key, value) =>
      Push(OP_SET_PROPERTY, PackFlags(SubjectTag(s), TypeTag(value)),
        [s.id, key, ScalarOf(value), if value.Text? then at else 0, |TextOf(value)|])
    case RemoveProperty(s, key) => Push(OP_REMOVE_PROPERTY, PackFlags(SubjectTag(s), 0), [s.id, key])
  }

  datatype ReplayOp = Mutate(mutation: Mutation) | Watermark(next: NextIds) | Unmodelled(kind: u32) | Corrupt

  /** What an operation of a replayed frame stands for. */
  function DecodeMutation(op: MutationOp, blob: seq<byte>, utf8: seq<byte> -> bool): ReplayOp {
    var w := op.payload;
    var low, high := op.flags % 0x1_0000, op.flags / 0x1_0000;
    if op.kind == OP_CREATE_ELEMENT then Mutate(CreateElement(w[0]))
    else if op.kind == OP_CREATE_RELATION then Mutate(CreateRelation(w[0]))
    else if op.kind == OP_CREATE_INCIDENCE then Mutate(CreateIncidence(w[0], Ends(w[1], w[2], w[3])))
    else if op.kind == OP_TOMBSTONE_ELEMENT then Mutate(TombstoneElement(w[0]))
    else if op.kind == OP_TOMBSTONE_RELATION then Mutate(TombstoneRelation(w[0]))
    else if op.kind == OP_TOMBSTONE_INCIDENCE then Mutate(TombstoneIncidence(w[0]))
    else if op.kind == OP_ADD_ELEMENT_LABEL then Mutate(AddElementLabel(w[0], w[1]))
    else if op.kind == OP_SET_RELATION_TYPE then Mutate(SetRelationType(w[0], w[1]))
    else if op.kind == OP_SET_PROPERTY then
      match DecodeSubject(low, w[0])
      case None => Corrupt
      case Some(subject) =>
        (match EntryKey(EqualityEntry(w[1], high, w[2], w[3], w[4], 0, 0), blob, utf8)
         case None => Corrupt
         case Some(pair) => Mutate(SetProperty(subject, pair.0, pair.1)))
    else if op.kind == OP_REMOVE_PROPERTY then
      match DecodeSubject(low, w[0])
      case None => Corrupt
      case Some(subject) => Mutate(RemoveProperty(subject, w[1]))
    else if op.kind == OP_NEXT_ID_WATERMARK then Watermark(w)
    else if op.kind == 9 || 12 <= op.kind <= 17 then Unmodelled(op.kind)
    else Corrupt
  }

  /** Decoding is the inverse of logging, wherever in the blob the text landed. */
  lemma MutationRoundTrip(m: Mutation, before: seq<byte>, after: seq<byte>, utf8: seq<byte> -> bool)
    requires |before| + |InternedText(m)| <= MAX_WORD
    requires m.SetProperty? && m.value.Text? ==> utf8(m.value.text)
    ensures DecodeMutation(EncodeMutation(m, |before|), before + InternedText(m) + after, utf8) == Mutate(m)
  {
    match m {
      case SetProperty(s, key, value) =>
        SetPropertyRoundTrip(s, key, value, before, after, utf8);
      case RemoveProperty(s, key) =>
        FlagsRoundTrip(SubjectTag(s), 0);
        hide PackFlags;
      case _ =>
        hide EntryKey, DecodeSubject, PackFlags;
    }
  }

  lemma SetPropertyRoundTrip(s: PropertySubject, key: u64, value: PropertyValue, before: seq<byte>,
      after: seq<byte>, utf8: seq<byte> -> bool)
    requires |before| + |TextOf(value)| <= MAX_WORD && (value.Text? ==> utf8(value.text))
    ensures DecodeMutation(EncodeMutation(SetProperty(s, key, value), |before|), before + TextOf(value) + after,
      utf8) == Mutate(SetProperty(s, key, value))
  {
    SmallTags(s, value);
    hide EntryKey, DecodeSubject, PackFlags, TextOf, TypeTag, ScalarOf, SubjectTag;
    FlagsRoundTrip(SubjectTag(s), TypeTag(value));
    KeyInBlob((key, value), before, after, utf8);
    SubjectRoundTrip(s);
  }

  lemma SmallTags(s: PropertySubject, value: PropertyValue)
    ensures SubjectTag(s) < 0x1_0000 && TypeTag(value) < 0x1_0000
  {
  }

  lemma SubjectRoundTrip(s: PropertySubject)
    ensures DecodeSubject(SubjectTag(s), s.id) == Some(s)
  {
  }

  /** Text interned in the middle of a blob is read back. */
  lemma KeyInBlob(pair: EqualityKey, before: seq<byte>, after: seq<byte>, utf8: seq<byte> -> bool)
    requires |before| + |TextOf(pair.1)| <= MAX_WORD && (pair.1.Text? ==> utf8(pair.1.text))
    ensures EntryKey(EqualityEntry(pair.0, TypeTag(pair.1), ScalarOf(pair.1), if pair.1.Text? then |before| else 0,
      |TextOf(pair.1)|, 0, 0),
      before + TextOf(pair.1) + after, utf8) == Some(pair)
  {
    NewKeyHolds(pair, before, utf8, 0, 0);
    if pair.1.Text? {
      Appended(before, pair.1.text);
      StillSliced(before + pair.1.text, after, |before|, |pair.1.text|);
    }
  }

  lemma StillSliced(blob: seq<byte>, after: seq<byte>, off: u64, len: u64)
    requires off + len <= |blob|
    ensures SlicePool(blob + after, off, len) == SlicePool(blob, off, len)
  {
    assert (blob + after)[off..off + len] == blob[off..off + len];
  }

  lemma FlagsRoundTrip(low: u32, high: u32)
    requires low < 0x1_0000 && high < 0x1_0000
    ensures PackFlags(low, high) % 0x1_0000 == low && PackFlags(low, high) / 0x1_0000 == high
  {
  }

  // ----- a whole log

  function TextTotal(log: seq<Mutation>): nat {
    if log == [] then 0 else TextTotal(log[..|log| - 1]) + |InternedText(log[|log| - 1])|
  }

  function BlobOf(log: seq<Mutation>): (blob: seq<byte>)
    ensures |blob| == TextTotal(log)
  {
    if log == [] then [] else BlobOf(log[..|log| - 1]) + InternedText(log[|log| - 1])
  }

  function OpsOfLog(log: seq<Mutation>): (ops: seq<MutationOp>)
    requires TextTotal(log) <= MAX_WORD
    ensures |ops| == |log|
  {
    if log == [] then []
    else OpsOfLog(log[..|log| - 1]) + [EncodeMutation(log[|log| - 1], TextTotal(log[..|log| - 1]))]
  }

  predicate TextsValid(log: seq<Mutation>, utf8: seq<byte> -> bool) {
    forall i :: 0 <= i < |log| && log[i].SetProperty? && log[i].value.Text? ==> utf8(log[i].value.text)
  }

  /** Takes the log as a frame: its operations with the watermark last, and its interned text. */
  method TakeFrame(log: seq<Mutation>, next: NextIds) returns (ops: seq<MutationOp>, blob: seq<byte>)
    requires TextTotal(log) <= MAX_WORD
    ensures ops == OpsOfLog(log) + [Push(OP_NEXT_ID_WATERMARK, 0, next)] && blob == BlobOf(log)
  {
    ops, blob := [], [];
    for i := 0 to |log|
      invariant blob == BlobOf(log[..i]) && TextTotal(log[..i]) <= MAX_WORD && ops == OpsOfLog(log[..i])
    {
      LogStep(log, i);
      ops := ops + [EncodeMutation(log[i], |blob|)];
      blob := blob + InternedText(log[i]);
    }
    assert log[..|log|] == log;
    ops := ops + [Push(OP_NEXT_ID_WATERMARK, 0, next)];
  }

  lemma LogStep(log: seq<Mutation>, i: nat)
    requires i < |log| && TextTotal(log) <= MAX_WORD
    ensures TextTotal(log[..i + 1]) == TextTotal(log[..i]) + |InternedText(log[i])| <= MAX_WORD
    ensures OpsOfLog(log[..i + 1]) == OpsOfLog(log[..i]) + [EncodeMutation(log[i], TextTotal(log[..i]))]
    ensures BlobOf(log[..i + 1]) == BlobOf(log[..i]) + InternedText(log[i])
  {
    assert log[..i + 1][..i] == log[..i];
    TextGrows(log, i + 1);
  }

  lemma {:induction false} TextGrows(log: seq<Mutation>, i: nat)
    requires i <= |log|
    ensures TextTotal(log[..i]) <= TextTotal(log)
    decreases |log|
  {
    if i < |log| {
      assert log[..|log| - 1][..i] == log[..i];
      TextGrows(log[..|log| - 1], i);
    } else {
      assert log[..i] == log;
    }
  }

  /** Operation `i` of the frame decodes to mutation `i` of the log. */
  lemma {:induction false} FrameDecodes(log: seq<Mutation>, i: nat, utf8: seq<byte> -> bool)
    requires i < |log| && TextTotal(log) <= MAX_WORD && TextsValid(log, utf8)
    ensures DecodeMutation(OpsOfLog(log)[i], BlobOf(log), utf8) == Mutate(log[i])
  {
    BlobAround(log, i);
    hide OpsOfLog, BlobOf, DecodeMutation, EncodeMutation, TextTotal;
    var after := BlobOf(log)[|BlobOf(log[..i + 1])|..];
    MutationRoundTrip(log[i], BlobOf(log[..i]), after, utf8);
  }

  /** The text of mutation `i` sits in the blob between what was interned before and after it. */
  lemma {:induction false} BlobAround(log: seq<Mutation>, i: nat)
    requires i < |log| && TextTotal(log) <= MAX_WORD
    ensures |BlobOf(log[..i])| + |InternedText(log[i])| == |BlobOf(log[..i + 1])| <= |BlobOf(log)| <= MAX_WORD
    ensures BlobOf(log) == BlobOf(log[..i]) + InternedText(log[i]) + BlobOf(log)[|BlobOf(log[..i + 1])|..]
    ensures OpsOfLog(log)[i] == EncodeMutation(log[i], |BlobOf(log[..i])|)
    decreases |log|
  {
    hide InternedText, EncodeMutation;
    var front, last := log[..|log| - 1], log[|log| - 1];
    TextGrows(log, |front|);
    TextGrows(log, i + 1);
    LogStep(log, i);
    if i < |front| {
      BlobAround(front, i);
      assert front[..i] == log[..i] && front[..i + 1] == log[..i + 1];
      hide TextTotal;
      TailGrows(BlobOf(front), InternedText(last), BlobOf(log[..i]) + InternedText(log[i]), |BlobOf(log[..i + 1])|);
    } else {
      assert log[..i + 1] == log && log[..i] == front;
    }
  }

  lemma TailGrows(blob: seq<byte>, more: seq<byte>, head: seq<byte>, at: nat)
    requires at <= |blob| && blob == head + blob[at..]
    ensures blob + more == head + (blob + more)[at..]
  {
    assert (blob + more)[at..] == blob[at..] + more;
  }

  // ----- recovery

  /** The visible records after all logs, in order. */
  function RunAll(r: Records, logs: seq<seq<Mutation>>): Records {
    if logs == [] then r else Run(RunAll(r, logs[..|logs| - 1]), logs[|logs| - 1])
  }

  /** Frame `f` is what a writer committed for `log` with watermark `next`. */
  ghost predicate FrameOf(f: CommitFrame, log: seq<Mutation>, next: NextIds) {
    TextTotal(log) <= MAX_WORD && f.ops == OpsOfLog(log) + [Push(OP_NEXT_ID_WATERMARK, 0, next)] && f.blob == BlobOf(log)
  }

  function Max(a: u64, b: u64): u64 {
    if a < b then b else a
  }

  /** Applies one frame's operations; `None` when one is corrupt. */
  method ApplyFrame(write: WriteOverlay, f: CommitFrame, utf8: seq<byte> -> bool, ghost log: seq<Mutation>,
      ghost next: NextIds) returns (watermark: Option<NextIds>)
    requires write.Indexed() && FrameOf(f, log, next) && TextsValid(log, utf8) && TrackedRun(write.Visible(), log)
    modifies write`elements, write`relations, write`incidences, write`properties, write.index
    ensures write.Indexed() && write.Visible() == Run(old(write.Visible()), log)
    ensures watermark == Some(next)
  {
    hide WriteOverlay.Indexed, OpsOfLog, BlobOf, DecodeMutation, Applied, Tracked, TextTotal, Overlaid;
    ghost var r := write.Visible();
    watermark := None;
    assert write.Indexed() == write.Indexed();
    for i := 0 to |f.ops|
      invariant write.Indexed() && write.Visible() == Run(r, if i <= |log| then log[..i] else log)
      invariant i <= |log| ==> watermark == None
      invariant i > |log| ==> watermark == Some(next)
    {
      if i < |log| {
        assert f.ops[i] == OpsOfLog(log)[i];
        FrameDecodes(log, i, utf8);
        TrackedPrefix(r, log, i + 1);
        assert log[..i + 1] == log[..i] + [log[i]];
        RunExtends(r, log[..i], log[i]);
      } else {
        WatermarkDecodes(f.blob, next, utf8);
        assert log[..|log|] == log;
      }
      match DecodeMutation(f.ops[i], f.blob, utf8) {
        case Mutate(m) => ApplyTracked(write, m);
        case Watermark(n) => watermark := Some(n);
        case Unmodelled(_) =>
        case Corrupt => return None;
      }
    }
  }

  method ApplyTracked(write: WriteOverlay, m: Mutation)
    requires write.Indexed() && Tracked(write.Visible(), m)
    modifies write`elements, write`relations, write`incidences, write`properties, write.index
    ensures write.Indexed() && write.Visible() == Applied(old(write.Visible()), m)
  {
    write.ApplyReplayOp(m);
  }

  lemma WatermarkDecodes(blob: seq<byte>, next: NextIds, utf8: seq<byte> -> bool)
    ensures DecodeMutation(Push(OP_NEXT_ID_WATERMARK, 0, next), blob, utf8) == Watermark(next)
  {
    assert next + [] == next;
  }

  /** Every id of the records is below the watermark. */
  ghost predicate Below(r: Records, next: NextIds) {
    IdsBelow(r, next[0], next[1], next[2])
  }

  function ElementwiseMax(a: NextIds, b: NextIds): (next: NextIds) {
    seq(PAYLOAD_WORDS, i requires 0 <= i < PAYLOAD_WORDS => Max(a[i], b[i]))
  }

  /** `a` is no further than `b` in any allocator. */
  predicate AtMost(a: NextIds, b: NextIds) {
    forall i :: 0 <= i < PAYLOAD_WORDS ==> a[i] <= b[i]
  }

  /** The frames of a log, one per committed transaction. */
  ghost predicate FramesOf(frames: seq<CommitFrame>, logs: seq<seq<Mutation>>, nexts: seq<NextIds>) {
    |frames| == |logs| == |nexts| && forall i :: 0 <= i < |frames| ==> FrameOf(frames[i], logs[i], nexts[i])
  }

  /** Each log was tracked from the state the earlier ones left. */
  ghost predicate TrackedAll(r: Records, logs: seq<seq<Mutation>>) {
    forall i :: 0 <= i < |logs| ==> TrackedRun(RunAll(r, logs[..i]), logs[i])
  }

  /** The last committed watermark: the base's when nothing was committed since. */
  function LastNext(baseNext: NextIds, nexts: seq<NextIds>): NextIds {
    if nexts == [] then baseNext else nexts[|nexts| - 1]
  }

  /** The elementwise maximum of the base's watermark and every frame's. */
  function RecoveredNext(baseNext: NextIds, nexts: seq<NextIds>): NextIds {
    if nexts == [] then baseNext else ElementwiseMax(RecoveredNext(baseNext, nexts[..|nexts| - 1]), nexts[|nexts| - 1])
  }

  /** No committed watermark is past the recovered one, so no id is issued twice. */
  lemma {:induction false} RecoveredIsPastAll(baseNext: NextIds, nexts: seq<NextIds>)
    ensures AtMost(baseNext, RecoveredNext(baseNext, nexts))
    ensures forall i :: 0 <= i < |nexts| ==> AtMost(nexts[i], RecoveredNext(baseNext, nexts))
  {
    if nexts != [] {
      RecoveredIsPastAll(baseNext, nexts[..|nexts| - 1]);
    }
  }

  /** `value` is the greatest of the base's watermark and every frame's for allocator `k`. */
  ghost predicate IsGreatest(k: nat, value: u64, baseNext: NextIds, nexts: seq<NextIds>)
    requires k < PAYLOAD_WORDS
  {
    && baseNext[k] <= value && (forall i :: 0 <= i < |nexts| ==> nexts[i][k] <= value)
    && (value == baseNext[k] || exists i :: 0 <= i < |nexts| && value == nexts[i][k])
  }

  /** Every allocator resumes at the greatest watermark, which the base or some frame recorded. */
  lemma {:induction false} RecoveredIsGreatest(baseNext: NextIds, nexts: seq<NextIds>, k: nat)
    requires k < PAYLOAD_WORDS
    ensures IsGreatest(k, RecoveredNext(baseNext, nexts)[k], baseNext, nexts)
  {
    if nexts != [] {
      var front, last := nexts[..|nexts| - 1], |nexts| - 1;
      RecoveredIsGreatest(baseNext, front, k);
      var value := RecoveredNext(baseNext, nexts)[k];
      if value != nexts[last][k] && value != baseNext[k] {
        var i :| 0 <= i < |front| && value == front[i][k];
        assert nexts[i][k] == value;
      }
      assert forall i :: 0 <= i < last ==> nexts[i][k] == front[i][k];
    }
  }

  /** Applies every frame in order. */
  method FoldFrames(write: WriteOverlay, baseNext: NextIds, frames: seq<CommitFrame>, utf8: seq<byte> -> bool,
      ghost base: Records, ghost logs: seq<seq<Mutation>>, ghost nexts: seq<NextIds>)
    returns (recovered: NextIds, ok: bool)
    requires write.Indexed() && write.Visible() == base
    requires FramesOf(frames, logs, nexts) && TrackedAll(base, logs) && forall i :: 0 <= i < |logs| ==> TextsValid(logs[i], utf8)
    modifies write`elements, write`relations, write`incidences, write`properties, write.index
    ensures ok && write.Indexed() && write.Visible() == RunAll(base, logs)
    ensures recovered == RecoveredNext(baseNext, nexts)
  {
    hide WriteOverlay.Indexed, WriteOverlay.Visible, Overlaid, FrameOf, Run, TrackedRun, TextsValid, ElementwiseMax;
    ok, recovered := true, baseNext;
    for n := 0 to |frames|
      invariant ok && write.Indexed() && write.Visible() == RunAll(base, logs[..n])
      invariant recovered == RecoveredNext(baseNext, nexts[..n])
    {
      assert logs[..n + 1][..n] == logs[..n] && nexts[..n + 1][..n] == nexts[..n];
      var watermark := ApplyFrame(write, frames[n], utf8, logs[n], nexts[n]);
      if watermark.None? {
        return recovered, false;
      }
      recovered := ElementwiseMax(recovered, watermark.value);
    }
    assert logs[..|logs|] == logs && nexts[..|nexts|] == nexts;
  }

  /** Folds replayed frames over the base: the overlay shows what the committed transactions left, its
      index agrees, and every allocator resumes at the greatest watermark recorded. */
  method OpenOverlay(base: Records, baseIndex: BaseIndex, baseNext: NextIds, frames: seq<CommitFrame>, utf8: seq<byte> -> bool,
      ghost logs: seq<seq<Mutation>>, ghost nexts: seq<NextIds>)
    returns (write: WriteOverlay, next: NextIds, ok: bool)
    requires IsIndexOf(baseIndex, base) && Below(base, baseNext)
    requires FramesOf(frames, logs, nexts) && TrackedAll(base, logs)
    requires (forall i :: 0 <= i < |logs| ==> TextsValid(logs[i], utf8))
    requires Below(RunAll(base, logs), LastNext(baseNext, nexts))
    ensures ok && fresh(write) && write.Indexed() && write.Visible() == RunAll(base, logs)
    ensures write.Fresh() && write.nextElement == next[0] && write.nextRelation == next[1] && write.nextIncidence == next[2]
    ensures forall k: nat :: k < PAYLOAD_WORDS ==> IsGreatest(k, next[k], baseNext, nexts)
  {
    hide FramesOf, TrackedAll, TextsValid, RunAll, RecoveredNext, Overlaid, OverlayIndex.Agrees, Below;
    write := NewOverlay(base, baseIndex, baseNext);
    next, ok := FoldFrames(write, baseNext, frames, utf8, base, logs, nexts);
    RecoveredIsPastAll(baseNext, nexts);
    FreshBelow(RunAll(base, logs), LastNext(baseNext, nexts), next);
    BelowFacts(RunAll(base, logs), next);
    write.SetNextIds(next[0], next[1], next[2]);
    forall k: nat | k < PAYLOAD_WORDS ensures IsGreatest(k, next[k], baseNext, nexts) {
      RecoveredIsGreatest(baseNext, nexts, k);
    }
  }

  method NewOverlay(base: Records, baseIndex: BaseIndex, baseNext: NextIds) returns (write: WriteOverlay)
    requires IsIndexOf(baseIndex, base) && Below(base, baseNext)
    ensures fresh(write) && fresh(write.index) && write.Indexed() && write.Visible() == base
  {
    write := new WriteOverlay(base, baseIndex, baseNext[0], baseNext[1], baseNext[2]);
  }

  lemma FreshBelow(r: Records, last: NextIds, recovered: NextIds)
    requires Below(r, last) && AtMost(last, recovered)
    ensures Below(r, recovered)
  {
    assert last[0] <= recovered[0] && last[1] <= recovered[1] && last[2] <= recovered[2];
  }

  lemma BelowFacts(r: Records, next: NextIds)
    requires Below(r, next)
    ensures forall e :: e in r.elements ==> e < next[0]
    ensures forall x :: x in r.relations ==> x < next[1]
    ensures forall i :: i in r.incidences ==> i < next[2]
  {
  }
}
