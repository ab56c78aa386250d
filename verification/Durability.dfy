/** From the write transaction through the log and back (`oxgraph-db/src/database/writer.rs`, `open.rs`).

    A transaction's mutations are framed, encoded and appended; a crash or a failed append may leave any
    prefix of its record; opening replays what is left and folds it over the base. Over every such run
    the reopened store shows the base with exactly the acknowledged transactions applied, and with the
    one in flight if its record was wholly written. */
module Durability {
  import opened Options
  import opened Bytes
  import opened Index
  import opened Overlay
  import opened Wal
  import opened WalRecovery
  import opened MutationLog
  import opened Postings

  /** A committed transaction: what it logged, where it left the id allocators, and its frame. */
  datatype Txn = Txn(log: seq<Mutation>, next: NextIds, frame: CommitFrame)

  function Logs(txns: seq<Txn>): seq<seq<Mutation>> {
    seq(|txns|, i requires 0 <= i < |txns| => txns[i].log)
  }

  function Nexts(txns: seq<Txn>): seq<NextIds> {
    seq(|txns|, i requires 0 <= i < |txns| => txns[i].next)
  }

  function Frames(txns: seq<Txn>): seq<CommitFrame> {
    seq(|txns|, i requires 0 <= i < |txns| => txns[i].frame)
  }

  /** What the records are once the transactions are applied in order. */
  function Shown(base: Records, txns: seq<Txn>): Records {
    RunAll(base, Logs(txns))
  }

  /** The transaction was written against `r`. */
  ghost predicate WrittenOn(utf8: seq<byte> -> bool, r: Records, t: Txn) {
    FrameOf(t.frame, t.log, t.next) && TextsValid(t.log, utf8) && TrackedRun(r, t.log) && Below(Run(r, t.log), t.next)
  }

  /** Each transaction was written against what the earlier ones left. */
  ghost predicate Serial(utf8: seq<byte> -> bool, base: Records, txns: seq<Txn>) {
    txns == [] ||
    (Serial(utf8, base, txns[..|txns| - 1]) && WrittenOn(utf8, Shown(base, txns[..|txns| - 1]), txns[|txns| - 1]))
  }

  lemma ShownSnoc(base: Records, txns: seq<Txn>, t: Txn)
    ensures Shown(base, txns + [t]) == Run(Shown(base, txns), t.log)
    ensures Frames(txns + [t]) == Frames(txns) + [t.frame]
  {
    assert (txns + [t])[..|txns|] == txns;
    assert Logs(txns + [t]) == Logs(txns) + [t.log];
    assert (Logs(txns) + [t.log])[..|txns|] == Logs(txns);
  }

  lemma SerialSnoc(utf8: seq<byte> -> bool, base: Records, txns: seq<Txn>, t: Txn)
    requires Serial(utf8, base, txns) && WrittenOn(utf8, Shown(base, txns), t)
    ensures Serial(utf8, base, txns + [t])
  {
    assert (txns + [t])[..|txns|] == txns;
  }

  /** Serial transactions have the frames, logs and watermarks that folding them over the base asks for. */
  lemma {:induction false} SerialFolds(utf8: seq<byte> -> bool, base: Records, baseNext: NextIds, txns: seq<Txn>)
    requires Serial(utf8, base, txns) && Below(base, baseNext)
    ensures FramesOf(Frames(txns), Logs(txns), Nexts(txns)) && TrackedAll(base, Logs(txns))
    ensures |Logs(txns)| == |txns| && forall i :: 0 <= i < |txns| ==> TextsValid(Logs(txns)[i], utf8)
    ensures Below(Shown(base, txns), LastNext(baseNext, Nexts(txns)))
  {
    hide FramesOf, TrackedAll, TextsValid, Below, WrittenOn, Logs, Nexts, Frames, Shown, LastNext, Serial;
    if txns == [] {
      NothingFolds(base, baseNext);
    } else {
      var front, t := txns[..|txns| - 1], txns[|txns| - 1];
      SerialParts(utf8, base, txns);
      SerialFolds(utf8, base, baseNext, front);
      assert txns == front + [t];
      OneMoreFolds(utf8, base, baseNext, front, t);
    }
  }

  lemma NothingFolds(base: Records, baseNext: NextIds)
    ensures FramesOf(Frames([]), Logs([]), Nexts([])) && TrackedAll(base, Logs([]))
    ensures |Logs([])| == 0 && Shown(base, []) == base && LastNext(baseNext, Nexts([])) == baseNext
  {
    assert Logs([]) == [] && Nexts([]) == [];
  }

  lemma SerialParts(utf8: seq<byte> -> bool, base: Records, txns: seq<Txn>)
    requires Serial(utf8, base, txns) && txns != []
    ensures Serial(utf8, base, txns[..|txns| - 1]) && WrittenOn(utf8, Shown(base, txns[..|txns| - 1]), txns[|txns| - 1])
  {
    hide WrittenOn, Shown;
  }

  lemma OneMoreFolds(utf8: seq<byte> -> bool, base: Records, baseNext: NextIds, txns: seq<Txn>, t: Txn)
    requires FramesOf(Frames(txns), Logs(txns), Nexts(txns)) && TrackedAll(base, Logs(txns))
    requires |Logs(txns)| == |txns| && (forall i :: 0 <= i < |txns| ==> TextsValid(Logs(txns)[i], utf8))
    requires WrittenOn(utf8, Shown(base, txns), t)
    ensures var more := txns + [t];
      && FramesOf(Frames(more), Logs(more), Nexts(more)) && TrackedAll(base, Logs(more))
      && |Logs(more)| == |more| && (forall i :: 0 <= i < |more| ==> TextsValid(Logs(more)[i], utf8))
      && LastNext(baseNext, Nexts(more)) == t.next && Below(Shown(base, more), t.next)
  {
    hide FrameOf, TextsValid, TrackedRun, Below, Run, RunAll;
    ShownSnoc(base, txns, t);
    var more := txns + [t];
    assert Logs(more) == Logs(txns) + [t.log] && Nexts(more) == Nexts(txns) + [t.next];
    forall i | 0 <= i < |more| ensures TrackedRun(RunAll(base, Logs(more)[..i]), Logs(more)[i]) {
      assert Logs(more)[..i] == Logs(txns)[..i];
      assert i == |txns| ==> Logs(txns)[..i] == Logs(txns);
    }
  }

  // ----- committing

  function Allocators(element: u64, relation: u64, incidence: u64, catalogNext: seq<u64>): (next: NextIds)
    requires |catalogNext| == PAYLOAD_WORDS - 3
    ensures next[0] == element && next[1] == relation && next[2] == incidence
  {
    [element, relation, incidence] + catalogNext
  }

  datatype CommitResult = Unchanged | Acknowledged | Failed | TooLarge

  /** Frames what the transaction logged, encodes it and appends it; a transaction that logged nothing
      appends nothing. `catalogNext` are the allocators of the catalog. */
  method Commit(delta: WriteOverlay, catalogNext: seq<u64>, file: DeltaLog, crc: Crc, lsn: u64, txnId: u64,
      baseGeneration: u64, io: Io, ghost utf8: seq<byte> -> bool)
    returns (result: CommitResult, ghost t: Txn)
    requires delta.Valid() && TextsValid(delta.log, utf8) && TextTotal(delta.log) <= MAX_WORD
    requires |catalogNext| == PAYLOAD_WORDS - 3
    modifies file
    ensures t.log == delta.log && t.frame.lsn == lsn && t.frame.txnId == txnId
    ensures t.frame.baseGeneration == baseGeneration
    ensures t.next == [delta.nextElement, delta.nextRelation, delta.nextIncidence] + catalogNext
    ensures WrittenOn(utf8, delta.seed, t) && Run(delta.seed, t.log) == delta.Visible()
    ensures result.Unchanged? <==> delta.log == []
    ensures result.Unchanged? || result.TooLarge? ==> file.bytes == old(file.bytes)
    ensures result.TooLarge? <==> delta.log != [] && !Encodable(t.frame)
    ensures result.Acknowledged? || result.Failed? ==> file.bytes == FileAfter(old(file.bytes), Record(crc, t.frame), io)
    ensures result.Acknowledged? || result.Failed? ==> (result.Acknowledged? <==> Appends(Record(crc, t.frame), io))
  {
    hide Record, Overlaid, WriteOverlay.Indexed, Run, OpsOfLog, BlobOf, TextsValid;
    var next := Allocators(delta.nextElement, delta.nextRelation, delta.nextIncidence, catalogNext);
    var ops, blob := TakeFrame(delta.log, next);
    var frame := CommitFrame(lsn, txnId, baseGeneration, ops, blob);
    t := Txn(delta.log, next, frame);
    assert Below(delta.Visible(), next);
    if delta.log == [] {
      return Unchanged, t;
    }
    var record := EncodeCommit(crc, frame);
    if record.Err? {
      return TooLarge, t;
    }
    var ok := file.AppendCommit(record.value, io);
    result := if ok then Acknowledged else Failed;
  }

  // ----- runs of transactions

  /** The log with the transactions whose commits were acknowledged, and the one whose record was left behind. */
  datatype Db = Db(store: Store, done: seq<Txn>, left: Option<Txn>)

  datatype Event = Try(txn: Txn, io: Io) | CrashIn(txn: Txn, written: nat) | Open

  function LogEvent(e: Event): WalRecovery.Event {
    match e
    case Try(t, io) => WalRecovery.Append(t.frame, io)
    case CrashIn(t, written) => WalRecovery.Crash(t.frame, written)
    case Open => WalRecovery.Recover
  }

  /** The transactions that opening the store finds. */
  function Found(s: Db): seq<Txn> {
    if s.store.residue.Residue? && s.store.residue.written == FrameLen(s.store.residue.frame) && s.left.Some?
    then s.done + [s.left.value] else s.done
  }

  function Step(crc: Crc, baseGeneration: u64, s: Db, e: Event): Db
    requires Enabled(crc, baseGeneration, s.store, LogEvent(e))
  {
    var store := Next(crc, baseGeneration, s.store, LogEvent(e));
    match e
    case Try(t, io) =>
      Db(store, if Appends(Record(crc, t.frame), io) then s.done + [t] else s.done,
        if store.residue == s.store.residue then s.left else Some(t))
    case CrashIn(t, written) => Db(store, s.done, if store.residue == s.store.residue then s.left else Some(t))
    case Open => Db(store, Found(s), None)
  }

  /** Every transaction is written against what the acknowledged ones left. */
  ghost predicate MayStep(crc: Crc, baseGeneration: u64, utf8: seq<byte> -> bool, base: Records, s: Db, e: Event) {
    && Enabled(crc, baseGeneration, s.store, LogEvent(e))
    && (!e.Open? ==> WrittenOn(utf8, Shown(base, s.done), e.txn))
  }

  ghost predicate IsDbRun(crc: Crc, baseGeneration: u64, utf8: seq<byte> -> bool, base: Records, run: seq<Db>,
      events: seq<Event>) {
    && |run| == |events| + 1
    && run[0] == Db(Store([], [], WalRecovery.Clean, false), [], None)
    && forall i :: 0 <= i < |events| ==>
         MayStep(crc, baseGeneration, utf8, base, run[i], events[i]) && run[i + 1] == Step(crc, baseGeneration, run[i], events[i])
  }

  /** The log holds the frames of the acknowledged transactions, and a part of the one left behind. */
  ghost predicate Consistent(crc: Crc, baseGeneration: u64, utf8: seq<byte> -> bool, base: Records, s: Db) {
    && Durable(crc, baseGeneration, s.store) && s.store.acked == Frames(s.done) && Serial(utf8, base, s.done)
    && (s.store.residue.Residue? ==>
          s.left.Some? && s.left.value.frame == s.store.residue.frame && WrittenOn(utf8, Shown(base, s.done), s.left.value))
  }

  lemma FoundIsRecoverable(crc: Crc, baseGeneration: u64, utf8: seq<byte> -> bool, base: Records, s: Db)
    requires Consistent(crc, baseGeneration, utf8, base, s)
    ensures Frames(Found(s)) == Recoverable(s.store) && Serial(utf8, base, Found(s))
  {
    hide Durable, Serial, WrittenOn;
    if s.store.residue.Residue? {
      ShownSnoc(base, s.done, s.left.value);
      SerialSnoc(utf8, base, s.done, s.left.value);
    }
  }

  lemma StepKeepsConsistent(crc: Crc, baseGeneration: u64, utf8: seq<byte> -> bool, base: Records, s: Db, e: Event)
    requires Consistent(crc, baseGeneration, utf8, base, s) && MayStep(crc, baseGeneration, utf8, base, s, e)
    ensures var t := Step(crc, baseGeneration, s, e);
      t.store.residue.Buried? || (Consistent(crc, baseGeneration, utf8, base, t) && s.done <= t.done)
  {
    hide Durable, Serial, WrittenOn, Record, Replayed, Shown;
    StepKeepsDurable(crc, baseGeneration, s.store, LogEvent(e));
    match e {
      case Try(t, io) =>
        ShownSnoc(base, s.done, t);
        SerialSnoc(utf8, base, s.done, t);
      case CrashIn(t, written) =>
      case Open =>
        FoundIsRecoverable(crc, baseGeneration, utf8, base, s);
        DurableReplays(crc, baseGeneration, s.store);
    }
  }

  lemma {:induction false} EveryDbRun(crc: Crc, baseGeneration: u64, utf8: seq<byte> -> bool, base: Records,
      run: seq<Db>, events: seq<Event>, i: nat)
    requires IsDbRun(crc, baseGeneration, utf8, base, run, events) && i < |run|
    requires forall j :: 0 <= j <= i ==> !run[j].store.residue.Buried?
    ensures Consistent(crc, baseGeneration, utf8, base, run[i])
    ensures forall j :: 0 <= j <= i ==> run[j].done <= run[i].done
  {
    hide Step, Consistent, Enabled;
    if i == 0 {
      NothingYet(crc, baseGeneration, utf8, base);
    } else {
      EveryDbRun(crc, baseGeneration, utf8, base, run, events, i - 1);
      assert run[(i - 1) + 1] == Step(crc, baseGeneration, run[i - 1], events[i - 1]);
      StepKeepsConsistent(crc, baseGeneration, utf8, base, run[i - 1], events[i - 1]);
    }
  }

  lemma NothingYet(crc: Crc, baseGeneration: u64, utf8: seq<byte> -> bool, base: Records)
    ensures Consistent(crc, baseGeneration, utf8, base, Db(Store([], [], WalRecovery.Clean, false), [], None))
  {
    EmptyIsDurable(crc, baseGeneration);
    hide Durable;
  }

  /** At every point of every run in which no record was written behind a residue, opening finds exactly
      the acknowledged transactions, in order, and the one left behind if its record is whole. */
  lemma OpeningFindsCommitted(crc: Crc, baseGeneration: u64, utf8: seq<byte> -> bool, base: Records, run: seq<Db>,
      events: seq<Event>, i: nat)
    requires IsDbRun(crc, baseGeneration, utf8, base, run, events) && i < |run|
    requires forall j :: 0 <= j <= i ==> !run[j].store.residue.Buried?
    ensures Replayed(crc, baseGeneration, run[i].store.log).Ok?
    ensures Replayed(crc, baseGeneration, run[i].store.log).value.frames == Frames(Found(run[i]))
    ensures Serial(utf8, base, Found(run[i])) && run[i].done <= Found(run[i])
    ensures forall j :: 0 <= j <= i ==> run[j].done <= run[i].done
  {
    EveryDbRun(crc, baseGeneration, utf8, base, run, events, i);
    hide IsDbRun, Replayed, Durable, Serial, WrittenOn;
    FoundIsRecoverable(crc, baseGeneration, utf8, base, run[i]);
    DurableReplays(crc, baseGeneration, run[i].store);
  }

  /** The last frame's sequence number, or the superblock's without frames, and the greatest transaction id. */
  ghost predicate IsFrontier(frames: seq<CommitFrame>, commitSeq: u64, txnId: u64, lastSeq: u64, lastTxn: u64) {
    && lastSeq == (if frames == [] then commitSeq else frames[|frames| - 1].lsn)
    && txnId <= lastTxn && (forall i :: 0 <= i < |frames| ==> frames[i].txnId <= lastTxn)
    && (lastTxn == txnId || exists i :: 0 <= i < |frames| && lastTxn == frames[i].txnId)
  }

  /** The commit and transaction numbers that the reopened store goes on from. */
  method Frontier(frames: seq<CommitFrame>, commitSeq: u64, txnId: u64) returns (lastSeq: u64, lastTxn: u64)
    ensures IsFrontier(frames, commitSeq, txnId, lastSeq, lastTxn)
  {
    lastSeq, lastTxn := commitSeq, txnId;
    for n := 0 to |frames|
      invariant lastSeq == if n == 0 then commitSeq else frames[n - 1].lsn
      invariant txnId <= lastTxn && forall i :: 0 <= i < n ==> frames[i].txnId <= lastTxn
      invariant lastTxn == txnId || exists i :: 0 <= i < n && lastTxn == frames[i].txnId
    {
      lastSeq := frames[n].lsn;
      lastTxn := if lastTxn < frames[n].txnId then frames[n].txnId else lastTxn;
    }
  }

  /** Opening: replay, then fold over the base. From a log at any such point of any run, the overlay
      shows the base with the transactions found, its index agrees, and its allocators resume where
      the furthest of the base and those transactions left them. */
  method Reopen(crc: Crc, baseGeneration: u64, utf8: seq<byte> -> bool, base: Records, baseIndex: BaseIndex,
      baseNext: NextIds, commitSeq: u64, txnId: u64, log: seq<byte>,
      ghost run: seq<Db>, ghost events: seq<Event>, ghost i: nat)
    returns (write: WriteOverlay, next: NextIds, lastSeq: u64, lastTxn: u64, ok: bool)
    requires IsIndexOf(baseIndex, base) && Below(base, baseNext)
    requires IsDbRun(crc, baseGeneration, utf8, base, run, events) && i < |run| && log == run[i].store.log
    requires forall j :: 0 <= j <= i ==> !run[j].store.residue.Buried?
    ensures ok && fresh(write) && write.Indexed() && write.Fresh() && write.Visible() == Shown(base, Found(run[i]))
    ensures write.nextElement == next[0] && write.nextRelation == next[1] && write.nextIncidence == next[2]
    ensures forall k: nat :: k < PAYLOAD_WORDS ==> IsGreatest(k, next[k], baseNext, Nexts(Found(run[i])))
    ensures IsFrontier(Frames(Found(run[i])), commitSeq, txnId, lastSeq, lastTxn)
  {
    hide Below, Replayed, Serial;
    OpeningFindsCommitted(crc, baseGeneration, utf8, base, run, events, i);
    hide IsDbRun, Found;
    ghost var txns := Found(run[i]);
    SerialFolds(utf8, base, baseNext, txns);
    hide FramesOf, TrackedAll, TextsValid, Logs, Nexts, Frames, IsFrontier, IsGreatest, EndsAt;
    var outcome := Replay(crc, baseGeneration, log);
    lastSeq, lastTxn := Frontier(outcome.value.frames, commitSeq, txnId);
    write, next, ok := OpenOverlay(base, baseIndex, baseNext, outcome.value.frames, utf8, Logs(txns), Nexts(txns));
  }
}
