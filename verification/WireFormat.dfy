/** What stands where in the stored bytes (`oxgraph-db/src/wire.rs`).

    Encoding and decoding are each other's inverse elsewhere; here each field is given its place, its
    width and its numbers, so that what another program wrote is read alike. */
module WireFormat {
  import opened Bytes
  import opened Values
  import opened Index
  import opened Overlay
  import opened Wal
  import opened Postings
  import opened EqualityPostings
  import opened MutationLog

  // ----- numbers

  /** Low bytes come first: the bytes from place `i` on have weight `256^i`. */
  lemma {:induction false} LowBytesFirst(bs: seq<byte>, i: nat)
    requires i <= |bs|
    ensures FromLE(bs) == FromLE(bs[..i]) + Limit(i) * FromLE(bs[i..])
  {
    if i == 0 {
      assert bs[0..] == bs;
    } else {
      LowBytesFirst(bs[1..], i - 1);
      assert bs[1..][..i - 1] == bs[..i][1..] && bs[1..][i - 1..] == bs[i..];
      Associates(Limit(i - 1), FromLE(bs[i..]));
    }
  }

  lemma Associates(a: nat, b: nat)
    ensures 0x100 * (a * b) == (0x100 * a) * b
  {
  }

  lemma Behind<T>(a: seq<T>, b: seq<T>, from: nat, to: nat)
    requires from <= to <= |b|
    ensures (a + b)[|a| + from..|a| + to] == b[from..to]
  {
  }

  /** Words follow one another, eight bytes each. */
  lemma {:induction false} WordAt(ws: seq<u64>, i: nat)
    requires i < |ws|
    ensures EncodeWords(ws)[8 * i..8 * i + 8] == ToLE(ws[i], 8)
  {
    hide ToLE;
    if i > 0 {
      WordAt(ws[1..], i - 1);
      Behind(ToLE(ws[0], 8), EncodeWords(ws[1..]), 8 * (i - 1), 8 * (i - 1) + 8);
    }
  }

  // ----- commit records

  /** Kind and flags, then nine words. */
  lemma OperationLayout(op: MutationOp, k: nat)
    requires k < 9
    ensures EncodeOp(op)[0..4] == ToLE(op.kind, 4) && EncodeOp(op)[4..8] == ToLE(op.flags, 4)
    ensures EncodeOp(op)[8 + 8 * k..8 + 8 * k + 8] == ToLE(op.payload[k], 8)
  {
    hide ToLE;
    WordAt(op.payload, k);
    hide EncodeWords;
    Behind(ToLE(op.kind, 4) + ToLE(op.flags, 4), EncodeWords(op.payload), 8 * k, 8 * k + 8);
  }

  lemma {:induction false} OperationAt(ops: seq<MutationOp>, i: nat)
    requires i < |ops|
    ensures EncodeOps(ops)[80 * i..80 * i + 80] == EncodeOp(ops[i])
    decreases |ops|
  {
    hide EncodeOp;
    var front, last := ops[..|ops| - 1], ops[|ops| - 1];
    if i < |front| {
      OperationAt(front, i);
      assert (EncodeOps(front) + EncodeOp(last))[80 * i..80 * i + 80] == EncodeOps(front)[80 * i..80 * i + 80];
    } else {
      Behind(EncodeOps(front), EncodeOp(last), 0, 80);
    }
  }

  lemma HeaderLayout(h: Header)
    ensures var bs := EncodeHeader(h);
      && bs[0..8] == ToLE(h.baseGeneration, 8) && bs[8..16] == ToLE(h.lsn, 8) && bs[16..24] == ToLE(h.txnId, 8)
      && bs[24..28] == ToLE(h.magic, 4) && bs[28..32] == ToLE(h.len, 4) && bs[32..36] == ToLE(h.opCount, 4)
      && bs[36..40] == ToLE(h.crc, 4)
  {
    hide ToLE;
  }

  lemma MagicBytes()
    ensures ToLE(LOG_MAGIC, 4) == [0x47, 0x4C, 0x58, 0x4F]
  {
    assert ToLE(0x4F58_4C47, 4) == [0x47] + ToLE(0x4F_584C, 3);
    assert ToLE(0x4F_584C, 3) == [0x4C] + ToLE(0x4F58, 2);
    assert ToLE(0x4F58, 2) == [0x58] + ToLE(0x4F, 1);
  }

  /** A commit record: generation, sequence number, transaction, magic, length, operation count and checksum in forty
      bytes, eighty bytes for every operation, and the blob. The checksum covers all but its own field. */
  lemma RecordLayout(crc: Crc, f: CommitFrame)
    requires Encodable(f) && crc.Lawful()
    ensures var r := Record(crc, f);
      && |r| == 40 + 80 * |f.ops| + |f.blob|
      && r[0..8] == ToLE(f.baseGeneration, 8) && r[8..16] == ToLE(f.lsn, 8) && r[16..24] == ToLE(f.txnId, 8)
      && r[24..28] == [0x47, 0x4C, 0x58, 0x4F] && r[28..32] == ToLE(|r|, 4) && r[32..36] == ToLE(|f.ops|, 4)
      && r[36..40] == ToLE(crc.checksum(r[..36] + r[40..]), 4)
      && (forall i :: 0 <= i < |f.ops| ==> r[40 + 80 * i..40 + 80 * i + 80] == EncodeOp(f.ops[i]))
      && r[40 + 80 * |f.ops|..] == f.blob
  {
    var r := Record(crc, f);
    var sum := RecordCrc(crc, RecordWithCrc(f, 0));
    RecordParts(f, sum);
    RecordParts(f, 0);
    HeaderLayout(HeaderOf(f, sum));
    MagicBytes();
    hide RecordWithCrc, EncodeHeader, HeaderPrefix, ToLE, EncodeOps, EncodeOp;
    var head := EncodeHeader(HeaderOf(f, sum));
    InHead(r, head);
    BodyLayout(r, f);
    RecordCrcCoversRest(crc, RecordWithCrc(f, 0));
    assert r[..36] == RecordWithCrc(f, 0)[..36] && r[40..] == RecordWithCrc(f, 0)[40..];
  }

  lemma InHead(r: seq<byte>, head: seq<byte>)
    requires |head| == 40 <= |r| && r[..40] == head
    ensures forall from, to :: 0 <= from <= to <= 40 ==> r[from..to] == head[from..to]
  {
    forall from, to | 0 <= from <= to <= 40 ensures r[from..to] == head[from..to] {
      assert r[..40][from..to] == r[from..to];
    }
  }

  lemma BodyLayout(r: seq<byte>, f: CommitFrame)
    requires |r| >= 40 && r[40..] == EncodeOps(f.ops) + f.blob
    ensures forall i :: 0 <= i < |f.ops| ==> r[40 + 80 * i..40 + 80 * i + 80] == EncodeOp(f.ops[i])
    ensures r[40 + 80 * |f.ops|..] == f.blob
  {
    hide EncodeOps, EncodeOp;
    var ops := EncodeOps(f.ops);
    assert r == r[..40] + (ops + f.blob);
    forall i | 0 <= i < |f.ops| ensures r[40 + 80 * i..40 + 80 * i + 80] == EncodeOp(f.ops[i]) {
      OperationAt(f.ops, i);
      Behind(r[..40], ops + f.blob, 80 * i, 80 * i + 80);
      assert (ops + f.blob)[80 * i..80 * i + 80] == ops[80 * i..80 * i + 80];
    }
    Behind(r[..40], ops + f.blob, |ops|, |ops| + |f.blob|);
    assert (ops + f.blob)[|ops|..|ops| + |f.blob|] == f.blob;
  }

  // ----- mutations

  /** The kind and words of every logged mutation. */
  lemma MutationWords(id: u64, relation: u64, element: u64, role: u64, labelId: u64, relationType: u64, at: u64)
    ensures EncodeMutation(Mutation.CreateElement(id), at) == Op(1, 0, [id, 0, 0, 0, 0, 0, 0, 0, 0])
    ensures EncodeMutation(Mutation.TombstoneElement(id), at) == Op(2, 0, [id, 0, 0, 0, 0, 0, 0, 0, 0])
    ensures EncodeMutation(Mutation.CreateRelation(id), at) == Op(3, 0, [id, 0, 0, 0, 0, 0, 0, 0, 0])
    ensures EncodeMutation(Mutation.TombstoneRelation(id), at) == Op(4, 0, [id, 0, 0, 0, 0, 0, 0, 0, 0])
    ensures EncodeMutation(Mutation.CreateIncidence(id, Ends(relation, element, role)), at)
      == Op(5, 0, [id, relation, element, role, 0, 0, 0, 0, 0])
    ensures EncodeMutation(Mutation.TombstoneIncidence(id), at) == Op(6, 0, [id, 0, 0, 0, 0, 0, 0, 0, 0])
    ensures EncodeMutation(Mutation.SetRelationType(id, relationType), at)
      == Op(7, 0, [id, relationType, 0, 0, 0, 0, 0, 0, 0])
    ensures EncodeMutation(Mutation.AddElementLabel(id, labelId), at) == Op(8, 0, [id, labelId, 0, 0, 0, 0, 0, 0, 0])
  {
  }

  /** Kinds beyond those of the format are corrupt; relation labels and catalog entries are not followed further. */
  lemma OtherKinds(op: MutationOp, blob: seq<byte>, utf8: seq<byte> -> bool)
    ensures op.kind == 0 || op.kind > 18 ==> DecodeMutation(op, blob, utf8) == Corrupt
    ensures DecodeMutation(op, blob, utf8).Unmodelled? <==> op.kind in {9, 12, 13, 14, 15, 16, 17}
  {
    hide EntryKey, DecodeSubject;
  }

  /** The number of a subject's family in a flag word or a posting. */
  predicate FamilyNumber(s: PropertySubject, n: nat) {
    (s.Element? && n == 0) || (s.Relation? && n == 1) || (s.Incidence? && n == 2)
  }

  /** Properties: the family in the low half of the flags, the value's type in the high half, and by type the flag, the
      two's complement or the place of the text in the blob. */
  lemma PropertyWords(s: PropertySubject, key: u64, flag: bool, number: i64, text: seq<byte>, at: u64, family: nat)
    requires FamilyNumber(s, family) && at + |text| <= MAX_WORD
    ensures EncodeMutation(Mutation.SetProperty(s, key, Boolean(flag)), at)
      == Op(10, family, [s.id, key, if flag then 1 else 0, 0, 0, 0, 0, 0, 0])
    ensures EncodeMutation(Mutation.SetProperty(s, key, Integer(number)), at)
      == Op(10, family + 0x1_0000, [s.id, key, if number < 0 then number + 0x1_0000_0000_0000_0000 else number, 0, 0, 0, 0, 0, 0])
    ensures EncodeMutation(Mutation.SetProperty(s, key, Text(text)), at)
      == Op(10, family + 0x2_0000, [s.id, key, 0, at, |text|, 0, 0, 0, 0])
    ensures EncodeMutation(Mutation.RemoveProperty(s, key), at) == Op(11, family, [s.id, key, 0, 0, 0, 0, 0, 0, 0])
  {
    Flags(s, 0, family);
    Flags(s, 1, family);
    Flags(s, 2, family);
    ValueWords(flag, number, text);
    hide PackFlags, ScalarOf, TypeTag, TextOf, SubjectTag, FamilyNumber;
    Five(OP_SET_PROPERTY, family, s.id, key, if flag then 1 else 0, 0, 0);
    Five(OP_SET_PROPERTY, family + 0x1_0000, s.id, key, ScalarOf(Integer(number)), 0, 0);
    Five(OP_SET_PROPERTY, family + 0x2_0000, s.id, key, 0, at, |text|);
  }

  lemma Flags(s: PropertySubject, high: nat, family: nat)
    requires FamilyNumber(s, family) && high <= 2
    ensures PackFlags(SubjectTag(s), high) == family + high * 0x1_0000
  {
  }

  lemma Five(kind: u32, flags: u32, a: u64, b: u64, c: u64, d: u64, e: u64)
    ensures Push(kind, flags, [a, b, c, d, e]) == Op(kind, flags, [a, b, c, d, e, 0, 0, 0, 0])
  {
  }

  /** The id watermark closes a frame. */
  lemma WatermarkWords(next: NextIds)
    ensures Push(OP_NEXT_ID_WATERMARK, 0, next) == Op(18, 0, next)
  {
    assert next + [] == next;
  }

  // ----- posting sections

  /** The lengths of directory and pool, then the two. */
  lemma SectionLayout(dir: seq<byte>, pool: seq<byte>)
    requires |dir| <= MAX_WORD && |pool| <= MAX_WORD
    ensures var bs := Framed(dir, pool);
      && bs[0..8] == ToLE(|dir|, 8) && bs[8..16] == ToLE(|pool|, 8)
      && bs[16..16 + |dir|] == dir && bs[16 + |dir|..] == pool
  {
    hide ToLE;
  }

  lemma {:induction false} SimpleEntryWords(dir: seq<PostingEntry>, j: nat)
    requires j < |dir|
    ensures SimpleWords(dir)[3 * j..3 * j + 3] == [dir[j].key, dir[j].membersOff, dir[j].membersLen]
  {
    if j > 0 {
      SimpleEntryWords(dir[1..], j - 1);
      Behind([dir[0].key, dir[0].membersOff, dir[0].membersLen], SimpleWords(dir[1..]), 3 * (j - 1), 3 * (j - 1) + 3);
    }
  }

  lemma {:induction false} EqualityEntryWords(dir: seq<EqualityEntry>, j: nat)
    requires j < |dir|
    ensures EqualityWords(dir)[7 * j..7 * j + 7] ==
      [dir[j].keyId, dir[j].valueTag, dir[j].scalar, dir[j].textOff, dir[j].textLen, dir[j].membersOff, dir[j].membersLen]
  {
    if j > 0 {
      EqualityEntryWords(dir[1..], j - 1);
      Behind(EntryWords(dir[0]), EqualityWords(dir[1..]), 7 * (j - 1), 7 * (j - 1) + 7);
    }
  }

  /** What an entry says of its value, and two words for each subject. */
  lemma ValueWords(flag: bool, number: i64, text: seq<byte>)
    ensures TypeTag(Boolean(flag)) == 0 && ScalarOf(Boolean(flag)) == if flag then 1 else 0
    ensures TypeTag(Integer(number)) == 1
      && ScalarOf(Integer(number)) == if number < 0 then number + 0x1_0000_0000_0000_0000 else number
    ensures TypeTag(Text(text)) == 2 && ScalarOf(Text(text)) == 0 && TextOf(Text(text)) == text
  {
  }

  lemma {:induction false} SubjectWordsAt(subjects: seq<PropertySubject>, i: nat)
    requires i < |subjects|
    ensures FamilyNumber(subjects[i], SubjectWords(subjects)[2 * i]) && SubjectWords(subjects)[2 * i + 1] == subjects[i].id
    decreases |subjects|
  {
    if i < |subjects| - 1 {
      SubjectWordsAt(subjects[..|subjects| - 1], i);
    }
  }
}
