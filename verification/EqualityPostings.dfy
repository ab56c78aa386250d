/** The persisted equality postings (`oxgraph-db/src/freeze.rs`, `index.rs`). */
module EqualityPostings {
  import opened Options
  import opened Bytes
  import opened Ordered
  import opened Values
  import opened Index
  import opened Postings

  type SubjectRows = Rows<EqualityKey, PropertySubject>

  /** One directory entry: a key, a value by its type tag, and the subjects' place in the pool. A text
      value is a slice of the text pool; whether bytes are UTF-8 is a parameter where that matters. */
  datatype EqualityEntry = EqualityEntry(keyId: u64, valueTag: u32, scalar: u64, textOff: u64, textLen: u64,
      membersOff: u64, membersLen: u64)

  // ----- values and subjects as words

  /** Two's complement. */
  function CastUnsigned(n: i64): u64 {
    if n >= 0 then n else n + 0x1_0000_0000_0000_0000
  }

  function CastSigned(n: u64): i64 {
    if n < 0x8000_0000_0000_0000 then n else n - 0x1_0000_0000_0000_0000
  }

  lemma CastRoundTrip(n: i64)
    ensures CastSigned(CastUnsigned(n)) == n
  {
  }

  function TypeTag(value: PropertyValue): u32 {
    match value
    case Boolean(_) => 0
    case Integer(_) => 1
    case Text(_) => 2
  }

  function ScalarOf(value: PropertyValue): u64 {
    match value
    case Boolean(flag) => if flag then 1 else 0
    case Integer(number) => CastUnsigned(number)
    case Text(_) => 0
  }

  function TextOf(value: PropertyValue): seq<byte> {
    if value.Text? then value.text else []
  }

  /** The `(key, value)` pair an entry stands for; `None` when the entry is malformed. */
  function EntryKey(e: EqualityEntry, text: seq<byte>, utf8: seq<byte> -> bool): Option<EqualityKey> {
    if e.valueTag == 0 then Some((e.keyId, Boolean(e.scalar != 0)))
    else if e.valueTag == 1 then Some((e.keyId, Integer(CastSigned(e.scalar))))
    else if e.valueTag == 2 then
      match SlicePool(text, e.textOff, e.textLen)
      case None => None
      case Some(bytes) => if utf8(bytes) then Some((e.keyId, Text(bytes))) else None
    else None
  }

  /** A `(kind, id)` word pair for each subject. */
  function SubjectWords(subjects: seq<PropertySubject>): (ws: seq<u64>)
    ensures |ws| == 2 * |subjects|
  {
    if subjects == [] then []
    else SubjectWords(subjects[..|subjects| - 1]) + [SubjectTag(subjects[|subjects| - 1]), subjects[|subjects| - 1].id]
  }

  function DecodeSubject(kind: u64, id: u64): Option<PropertySubject> {
    if kind == 0 then Some(Element(id))
    else if kind == 1 then Some(Relation(id))
    else if kind == 2 then Some(Incidence(id))
    else None
  }

  /** The subjects of the first `n` pairs of a run; a pair with an unknown kind is skipped. */
  function SubjectsOf(run: seq<u64>, n: nat): seq<PropertySubject>
    requires 2 * n <= |run|
  {
    if n == 0 then []
    else
      match DecodeSubject(run[2 * n - 2], run[2 * n - 1])
      case Some(subject) => SubjectsOf(run, n - 1) + [subject]
      case None => SubjectsOf(run, n - 1)
  }

  /** Whole pairs of the run; a lone last word is ignored. */
  method DecodeSubjects(run: seq<u64>) returns (out: seq<PropertySubject>)
    ensures out == SubjectsOf(run, |run| / 2)
  {
    out := [];
    for i := 0 to |run| / 2
      invariant out == SubjectsOf(run, i)
    {
      var subject := DecodeSubject(run[2 * i], run[2 * i + 1]);
      if subject.Some? {
        out := out + [subject.value];
      }
    }
  }

  predicate KnownPair(run: seq<u64>, n: nat, i: nat)
    requires 2 * n <= |run|
  {
    i < n && DecodeSubject(run[2 * i], run[2 * i + 1]).Some?
  }

  /** What is decoded are the known pairs among the first `n`, in order; a pair of an unknown kind hides no other. */
  lemma {:induction false} KnownPairs(run: seq<u64>, n: nat) returns (places: seq<nat>)
    requires 2 * n <= |run|
    ensures |places| == |SubjectsOf(run, n)| && forall a, b :: 0 <= a < b < |places| ==> places[a] < places[b]
    ensures forall i: nat :: i in places <==> KnownPair(run, n, i)
    ensures forall a :: 0 <= a < |places| ==>
      places[a] < n && DecodeSubject(run[2 * places[a]], run[2 * places[a] + 1]) == Some(SubjectsOf(run, n)[a])
  {
    places := [];
    if n > 0 {
      places := KnownPairs(run, n - 1);
      assert forall i: nat :: KnownPair(run, n, i) <==> KnownPair(run, n - 1, i) || (i == n - 1 && KnownPair(run, n, i));
      assert run[2 * (n - 1)] == run[2 * n - 2] && run[2 * (n - 1) + 1] == run[2 * n - 1];
      if DecodeSubject(run[2 * n - 2], run[2 * n - 1]).Some? {
        places := places + [n - 1];
      }
    }
  }

  lemma {:induction false} WordsDecode(subjects: seq<PropertySubject>, n: nat)
    requires n <= |subjects|
    ensures SubjectsOf(SubjectWords(subjects), n) == subjects[..n]
  {
    if n > 0 {
      WordsDecode(subjects, n - 1);
      SubjectPair(subjects, n - 1);
      assert subjects[..n] == subjects[..n - 1] + [subjects[n - 1]];
    }
  }

  lemma {:induction false} SubjectPair(subjects: seq<PropertySubject>, i: nat)
    requires i < |subjects|
    ensures DecodeSubject(SubjectWords(subjects)[2 * i], SubjectWords(subjects)[2 * i + 1]) == Some(subjects[i])
    decreases |subjects|
  {
    if i < |subjects| - 1 {
      SubjectPair(subjects[..|subjects| - 1], i);
    }
  }

  // ----- writing

  /** The entry names the row's pair and slices the row's subjects out of the pool. */
  predicate EntryHolds(e: EqualityEntry, pool: seq<u64>, text: seq<byte>, utf8: seq<byte> -> bool,
      row: (EqualityKey, seq<PropertySubject>)) {
    EntryKey(e, text, utf8) == Some(row.0) && SlicePool(pool, e.membersOff, e.membersLen) == Some(SubjectWords(row.1))
  }

  predicate HoldsSubjects(dir: seq<EqualityEntry>, pool: seq<u64>, text: seq<byte>, utf8: seq<byte> -> bool,
      rows: SubjectRows) {
    |dir| == |rows| && forall i :: 0 <= i < |dir| ==> EntryHolds(dir[i], pool, text, utf8, rows[i])
  }

  /** Appending to the pools disturbs no earlier entry. */
  lemma EntryHoldsOn(e: EqualityEntry, pool: seq<u64>, text: seq<byte>, utf8: seq<byte> -> bool,
      row: (EqualityKey, seq<PropertySubject>), words: seq<u64>, bytes: seq<byte>)
    requires EntryHolds(e, pool, text, utf8, row)
    ensures EntryHolds(e, pool + words, text + bytes, utf8, row)
  {
    if e.valueTag == 2 {
      assert (text + bytes)[e.textOff..e.textOff + e.textLen] == text[e.textOff..e.textOff + e.textLen];
    }
    assert (pool + words)[e.membersOff..e.membersOff + e.membersLen] == pool[e.membersOff..e.membersOff + e.membersLen];
  }

  /** Pool words and text bytes that the rows take. */
  function PoolLen(rows: SubjectRows): nat {
    if rows == [] then 0 else PoolLen(rows[..|rows| - 1]) + 2 * |rows[|rows| - 1].1|
  }

  function TextLen(rows: SubjectRows): nat {
    if rows == [] then 0 else TextLen(rows[..|rows| - 1]) + |TextOf(rows[|rows| - 1].0.1)|
  }

  lemma {:induction false} LensGrow(rows: SubjectRows, i: nat)
    requires i <= |rows|
    ensures PoolLen(rows[..i]) <= PoolLen(rows) && TextLen(rows[..i]) <= TextLen(rows)
    decreases |rows|
  {
    if i < |rows| {
      assert rows[..|rows| - 1][..i] == rows[..i];
      LensGrow(rows[..|rows| - 1], i);
    } else {
      assert rows[..i] == rows;
    }
  }

  lemma LensStep(rows: SubjectRows, i: nat)
    ensures PoolLen(rows[..0]) == TextLen(rows[..0]) == 0
    ensures i < |rows| ==> PoolLen(rows[..i + 1]) == PoolLen(rows[..i]) + 2 * |rows[i].1|
    ensures i < |rows| ==> TextLen(rows[..i + 1]) == TextLen(rows[..i]) + |TextOf(rows[i].0.1)|
  {
    if i < |rows| {
      assert rows[..i + 1][..i] == rows[..i];
    }
  }

  predicate TextsAreUtf8(rows: SubjectRows, utf8: seq<byte> -> bool) {
    forall i :: 0 <= i < |rows| && rows[i].0.1.Text? ==> utf8(rows[i].0.1.text)
  }

  /** Subjects and text of row `j` lie right behind those of the rows before it. */
  predicate PlacedBehind(e: EqualityEntry, rows: SubjectRows, j: nat)
    requires j < |rows|
  {
    && e.membersOff == PoolLen(rows[..j]) && e.membersLen == 2 * |rows[j].1|
    && e.textOff == (if rows[j].0.1.Text? then TextLen(rows[..j]) else 0) && e.textLen == |TextOf(rows[j].0.1)|
  }

  method EncodeEquality(rows: SubjectRows, ghost utf8: seq<byte> -> bool)
    returns (dir: seq<EqualityEntry>, pool: seq<u64>, text: seq<byte>)
    requires PoolLen(rows) <= MAX_WORD && TextLen(rows) <= MAX_WORD && TextsAreUtf8(rows, utf8)
    ensures HoldsSubjects(dir, pool, text, utf8, rows)
    ensures |pool| == PoolLen(rows) && |text| == TextLen(rows)
    ensures forall j :: 0 <= j < |rows| ==> PlacedBehind(dir[j], rows, j)
  {
    hide EntryHolds, SubjectWords, TextOf, PoolLen, TextLen, ScalarOf, TypeTag;
    dir, pool, text := [], [], [];
    LensStep(rows, 0);
    for i := 0 to |rows|
      invariant |dir| == i && |pool| == PoolLen(rows[..i]) && |text| == TextLen(rows[..i])
      invariant forall j :: 0 <= j < i ==> EntryHolds(dir[j], pool, text, utf8, rows[j]) && PlacedBehind(dir[j], rows, j)
    {
      LensStep(rows, i);
      LensGrow(rows, i + 1);
      var (pair, subjects) := rows[i];
      var bytes := TextOf(pair.1);
      var textOff := if pair.1.Text? then |text| else 0;
      var words := EncodeSubjects(subjects);
      var entry := EqualityEntry(pair.0, TypeTag(pair.1), ScalarOf(pair.1), textOff, |bytes|, |pool|, |words|);
      NewEntryHolds(pair, subjects, pool, text, utf8);
      forall j | 0 <= j < i ensures EntryHolds(dir[j], pool + words, text + bytes, utf8, rows[j]) {
        EntryHoldsOn(dir[j], pool, text, utf8, rows[j], words, bytes);
      }
      dir, pool, text := dir + [entry], pool + words, text + bytes;
    }
    assert rows[..|rows|] == rows;
  }

  lemma NewEntryHolds(pair: EqualityKey, subjects: seq<PropertySubject>, pool: seq<u64>, text: seq<byte>,
      utf8: seq<byte> -> bool)
    requires pair.1.Text? ==> utf8(pair.1.text)
    requires |pool| + 2 * |subjects| <= MAX_WORD && |text| + |TextOf(pair.1)| <= MAX_WORD
    ensures EntryHolds(EqualityEntry(pair.0, TypeTag(pair.1), ScalarOf(pair.1), if pair.1.Text? then |text| else 0,
      |TextOf(pair.1)|, |pool|, 2 * |subjects|),
      pool + SubjectWords(subjects), text + TextOf(pair.1), utf8, (pair, subjects))
  {
    var words := SubjectWords(subjects);
    hide EntryKey, SubjectWords, TextOf, TypeTag, ScalarOf, SlicePool;
    NewKeyHolds(pair, text, utf8, |pool|, 2 * |subjects|);
    Appended(pool, words);
  }

  lemma NewKeyHolds(pair: EqualityKey, text: seq<byte>, utf8: seq<byte> -> bool, membersOff: u64, membersLen: u64)
    requires pair.1.Text? ==> utf8(pair.1.text)
    requires |text| + |TextOf(pair.1)| <= MAX_WORD
    ensures EntryKey(EqualityEntry(pair.0, TypeTag(pair.1), ScalarOf(pair.1), if pair.1.Text? then |text| else 0,
      |TextOf(pair.1)|, membersOff, membersLen),
      text + TextOf(pair.1), utf8) == Some(pair)
  {
    match pair.1
    case Boolean(_) =>
    case Integer(n) =>
      CastRoundTrip(n);
    case Text(bytes) =>
      Appended(text, bytes);
  }

  method EncodeSubjects(subjects: seq<PropertySubject>) returns (words: seq<u64>)
    ensures words == SubjectWords(subjects)
  {
    words := [];
    for i := 0 to |subjects|
      invariant words == SubjectWords(subjects[..i])
    {
      assert subjects[..i + 1][..i] == subjects[..i];
      words := words + [SubjectTag(subjects[i]), subjects[i].id];
    }
    assert subjects[..|subjects|] == subjects;
  }

  // ----- looking up

  predicate PairsAscend(rows: SubjectRows) {
    forall i, j :: 0 <= i < j < |rows| ==> PairLess(rows[i].0, rows[j].0)
  }

  predicate SubjectsAnswer(found: Option<seq<PropertySubject>>, rows: SubjectRows, pair: EqualityKey) {
    match found
    case None => forall i :: 0 <= i < |rows| ==> rows[i].0 != pair
    case Some(subjects) => exists i :: 0 <= i < |rows| && rows[i].0 == pair && rows[i].1 == subjects
  }

  /** Binary search by the pair each entry reconstructs; a malformed entry would compare less. */
  method EqualitySubjects(dir: seq<EqualityEntry>, pool: seq<u64>, text: seq<byte>, utf8: seq<byte> -> bool,
      pair: EqualityKey, ghost rows: SubjectRows)
    returns (found: Option<seq<PropertySubject>>)
    requires HoldsSubjects(dir, pool, text, utf8, rows) && PairsAscend(rows)
    ensures SubjectsAnswer(found, rows, pair)
  {
    PairOrder();
    hide PairLess, EntryKey, SlicePool;
    var low, high := 0, |dir|;
    while low < high
      invariant 0 <= low <= high <= |dir|
      invariant forall i :: 0 <= i < low ==> PairLess(rows[i].0, pair)
      invariant forall i :: high <= i < |dir| ==> PairLess(pair, rows[i].0)
    {
      var mid := (low + high) / 2;
      EntryAt(dir, pool, text, utf8, rows, mid);
      var candidate := EntryKey(dir[mid], text, utf8);
      if candidate.None? || PairLess(candidate.value, pair) {
        low := mid + 1;
      } else if PairLess(pair, candidate.value) {
        high := mid;
      } else {
        var subjects := RowSubjects(dir, pool, text, utf8, mid, rows);
        return Some(subjects);
      }
    }
    found := None;
  }

  lemma EntryAt(dir: seq<EqualityEntry>, pool: seq<u64>, text: seq<byte>, utf8: seq<byte> -> bool,
      rows: SubjectRows, i: nat)
    requires HoldsSubjects(dir, pool, text, utf8, rows) && i < |dir|
    ensures |dir| == |rows| && EntryKey(dir[i], text, utf8) == Some(rows[i].0) && dir[i].keyId == rows[i].0.0
  {
    assert EntryHolds(dir[i], pool, text, utf8, rows[i]);
  }

  /** Decodes one entry's run. */
  method RowSubjects(dir: seq<EqualityEntry>, pool: seq<u64>, text: seq<byte>, ghost utf8: seq<byte> -> bool,
      i: nat, ghost rows: SubjectRows) returns (subjects: seq<PropertySubject>)
    requires HoldsSubjects(dir, pool, text, utf8, rows) && i < |dir|
    ensures subjects == rows[i].1
  {
    assert EntryHolds(dir[i], pool, text, utf8, rows[i]);
    var run := SlicePool(pool, dir[i].membersOff, dir[i].membersLen);
    subjects := DecodeSubjects(if run.Some? then run.value else []);
    WordsDecode(rows[i].1, |rows[i].1|);
  }

  /** The first entry whose key is not below `key`. */
  method KeyLowerBound(dir: seq<EqualityEntry>, key: u64) returns (at: nat)
    requires forall i, j :: 0 <= i < j < |dir| ==> dir[i].keyId <= dir[j].keyId
    ensures at <= |dir|
    ensures forall i :: 0 <= i < at ==> dir[i].keyId < key
    ensures forall i :: at <= i < |dir| ==> key <= dir[i].keyId
  {
    var low, high := 0, |dir|;
    while low < high
      invariant 0 <= low <= high <= |dir|
      invariant forall i :: 0 <= i < low ==> dir[i].keyId < key
      invariant forall i :: high <= i < |dir| ==> key <= dir[i].keyId
    {
      var mid := (low + high) / 2;
      if dir[mid].keyId < key {
        low := mid + 1;
      } else {
        high := mid;
      }
    }
    at := low;
  }

  /** A contiguous slice of the ordered map: one key's postings, all or those in a value range. */
  datatype Slice = OfKey(key: u64) | Between(key: u64, min: PropertyValue, max: PropertyValue)

  predicate Selects(slice: Slice, k: EqualityKey) {
    k.0 == slice.key && (slice.Between? ==> ValueAtMost(slice.min, k.1) && ValueAtMost(k.1, slice.max))
  }

  /** The rows whose pair is kept, in order: what a slice of the ordered map delivers. */
  function Kept(rows: SubjectRows, slice: Slice): SubjectRows {
    if rows == [] then []
    else Kept(rows[..|rows| - 1], slice) + if Selects(slice, rows[|rows| - 1].0) then [rows[|rows| - 1]] else []
  }

  lemma KeptStep(rows: SubjectRows, slice: Slice, i: nat)
    requires i < |rows|
    ensures Kept(rows[..i + 1], slice) == Kept(rows[..i], slice) + if Selects(slice, rows[i].0) then [rows[i]] else []
    ensures Kept(rows[..0], slice) == [] && rows[..|rows|] == rows
  {
    assert rows[..i + 1][..i] == rows[..i];
  }

  lemma {:induction false} NoneKept(rows: SubjectRows, slice: Slice, lo: nat, hi: nat)
    requires lo <= hi <= |rows| && forall i :: lo <= i < hi ==> !Selects(slice, rows[i].0)
    ensures Kept(rows[..hi], slice) == Kept(rows[..lo], slice)
    ensures Kept(rows[..0], slice) == []
    decreases hi
  {
    if lo < hi {
      NoneKept(rows, slice, lo, hi - 1);
      assert rows[..hi][..hi - 1] == rows[..hi - 1];
    }
  }

  lemma NotBelow(a: PropertyValue, b: PropertyValue)
    ensures ValueLess(a, b) <==> !ValueAtMost(b, a)
  {
    ValueOrder();
  }

  lemma RangeStep(rows: SubjectRows, i: nat, key: u64, min: PropertyValue, max: PropertyValue)
    requires i < |rows| && rows[i].0.0 == key
    ensures Kept(rows[..i + 1], Between(key, min, max)) == Kept(rows[..i], Between(key, min, max)) +
      if ValueLess(rows[i].0.1, min) || ValueLess(max, rows[i].0.1) then [] else [rows[i]]
  {
    KeptStep(rows, Between(key, min, max), i);
    NotBelow(rows[i].0.1, min);
    NotBelow(max, rows[i].0.1);
  }

  lemma KeyStep(rows: SubjectRows, i: nat)
    requires i < |rows|
    ensures Kept(rows[..i + 1], OfKey(rows[i].0.0)) == Kept(rows[..i], OfKey(rows[i].0.0)) + [rows[i]]
  {
    KeptStep(rows, OfKey(rows[i].0.0), i);
  }

  lemma NoKeyAfter(rows: SubjectRows, i: nat, key: u64)
    requires PairsAscend(rows) && i < |rows| && key < rows[i].0.0
    ensures Kept(rows, OfKey(key)) == Kept(rows[..i], OfKey(key))
  {
    forall j | i <= j < |rows| ensures rows[j].0.0 != key {
      assert j == i || PairLess(rows[i].0, rows[j].0);
    }
    NoneKept(rows, OfKey(key), i, |rows|);
    assert rows[..|rows|] == rows;
  }

  lemma KeyIdsOfRows(dir: seq<EqualityEntry>, pool: seq<u64>, text: seq<byte>, utf8: seq<byte> -> bool,
      rows: SubjectRows)
    requires HoldsSubjects(dir, pool, text, utf8, rows) && PairsAscend(rows)
    ensures forall i :: 0 <= i < |dir| ==> dir[i].keyId == rows[i].0.0
    ensures forall i, j :: 0 <= i < j < |dir| ==> dir[i].keyId <= dir[j].keyId
  {
    forall i | 0 <= i < |dir| ensures dir[i].keyId == rows[i].0.0 {
      assert EntryHolds(dir[i], pool, text, utf8, rows[i]);
    }
    forall i, j | 0 <= i < j < |dir| ensures dir[i].keyId <= dir[j].keyId {
      assert PairLess(rows[i].0, rows[j].0);
    }
  }

  method KeyStart(dir: seq<EqualityEntry>, ghost pool: seq<u64>, ghost text: seq<byte>,
      ghost utf8: seq<byte> -> bool, key: u64, ghost rows: SubjectRows) returns (at: nat)
    requires HoldsSubjects(dir, pool, text, utf8, rows) && PairsAscend(rows)
    ensures at <= |dir| == |rows|
    ensures forall i :: 0 <= i < at ==> rows[i].0.0 < key
    ensures forall i :: at <= i < |rows| ==> key <= rows[i].0.0
  {
    KeyIdsOfRows(dir, pool, text, utf8, rows);
    at := KeyLowerBound(dir, key);
  }

  /** The contiguous run of `key`'s postings with a value in `[min, max]`. */
  method RangePostings(dir: seq<EqualityEntry>, pool: seq<u64>, text: seq<byte>, utf8: seq<byte> -> bool, key: u64,
      min: PropertyValue, max: PropertyValue, ghost rows: SubjectRows)
    returns (out: SubjectRows)
    requires HoldsSubjects(dir, pool, text, utf8, rows) && PairsAscend(rows)
    ensures out == Kept(rows, Between(key, min, max))
  {
    ghost var slice := Between(key, min, max);
    var i := KeyStart(dir, pool, text, utf8, key, rows);
    NoneKept(rows, slice, 0, i);
    hide *;
    out := [];
    while i < |dir|
      invariant i <= |dir| && out == Kept(rows[..i], slice)
      invariant forall j :: i <= j < |dir| ==> key <= rows[j].0.0
    {
      var entry := EntryKey(dir[i], text, utf8);
      EntryAt(dir, pool, text, utf8, rows, i);
      if dir[i].keyId != key {
        NoRowAfter(rows, i, key, min, max);
        return;
      }
      RangeStep(rows, i, key, min, max);
      if entry.Some? && !ValueLess(entry.value.1, min) {
        if ValueLess(max, entry.value.1) {
          NoRowAfter(rows, i, key, min, max);
          return;
        }
        var subjects := RowSubjects(dir, pool, text, utf8, i, rows);
        out := out + [(entry.value, subjects)];
      }
      i := i + 1;
    }
    assert rows[..i] == rows;
  }

  /** Past another key, or past the maximum, nothing is in range. */
  lemma NoRowAfter(rows: SubjectRows, i: nat, key: u64, min: PropertyValue, max: PropertyValue)
    requires PairsAscend(rows) && i < |rows| && key <= rows[i].0.0
    requires rows[i].0.0 != key || ValueLess(max, rows[i].0.1)
    ensures Kept(rows, Between(key, min, max)) == Kept(rows[..i], Between(key, min, max))
  {
    var slice := Between(key, min, max);
    ValueOrder();
    forall j | i <= j < |rows| ensures !Selects(slice, rows[j].0) {
      assert j == i || PairLess(rows[i].0, rows[j].0);
    }
    NoneKept(rows, slice, i, |rows|);
    assert rows[..|rows|] == rows;
  }

  /** Every posting of `key`. */
  method KeyPostings(dir: seq<EqualityEntry>, pool: seq<u64>, text: seq<byte>, utf8: seq<byte> -> bool, key: u64,
      ghost rows: SubjectRows) returns (out: SubjectRows)
    requires HoldsSubjects(dir, pool, text, utf8, rows) && PairsAscend(rows)
    ensures out == Kept(rows, OfKey(key))
  {
    ghost var slice := OfKey(key);
    var i := KeyStart(dir, pool, text, utf8, key, rows);
    NoneKept(rows, slice, 0, i);
    hide *;
    out := [];
    while i < |dir|
      invariant i <= |dir| && out == Kept(rows[..i], slice)
      invariant forall j :: i <= j < |dir| ==> key <= rows[j].0.0
    {
      var entry := EntryKey(dir[i], text, utf8);
      EntryAt(dir, pool, text, utf8, rows, i);
      if dir[i].keyId != key {
        NoKeyAfter(rows, i, key);
        return;
      }
      KeyStep(rows, i);
      if entry.Some? {
        var subjects := RowSubjects(dir, pool, text, utf8, i, rows);
        out := out + [(entry.value, subjects)];
      }
      i := i + 1;
    }
    assert rows[..i] == rows;
  }

  // ----- what the slices mean for the owned map

  function Selected(m: map<EqualityKey, set<PropertySubject>>, slice: Slice): set<EqualityKey> {
    set k | k in m && Selects(slice, k)
  }

  /** A slice of the rows lists exactly the selected postings of the map. */
  lemma {:induction false} KeptLists(rows: SubjectRows, m: map<EqualityKey, set<PropertySubject>>, slice: Slice)
    requires AreRows(rows, m, PairLess, SubjectLess)
    ensures ListsPostings(Kept(rows, slice), m, Selected(m, slice))
  {
    KeptRows(rows, slice, |rows|);
    assert rows[..|rows|] == rows;
    var out := Kept(rows, slice);
    hide Kept, Selects, PairLess, Lists, AreRows, Posting;
    forall k | k in Selected(m, slice) ensures exists i :: 0 <= i < |out| && out[i].0 == k {
      KeyKept(rows, m, slice, k);
    }
    forall i | 0 <= i < |out| ensures out[i].0 in Selected(m, slice) && Lists(out[i].1, Posting(m, out[i].0), SubjectLess) {
      OneKept(rows, m, out[i]);
    }
  }

  lemma KeyKept(rows: SubjectRows, m: map<EqualityKey, set<PropertySubject>>, slice: Slice, k: EqualityKey)
    requires AreRows(rows, m, PairLess, SubjectLess) && k in m && Selects(slice, k)
    requires forall j :: 0 <= j < |rows| && Selects(slice, rows[j].0) ==> rows[j] in Kept(rows, slice)
    ensures exists i :: 0 <= i < |Kept(rows, slice)| && Kept(rows, slice)[i].0 == k
  {
    hide Kept, Selects, PairLess, Lists;
    var i :| 0 <= i < |rows| && rows[i].0 == k;
    var out := Kept(rows, slice);
    var j :| 0 <= j < |out| && out[j] == rows[i];
    assert out[j].0 == k;
  }

  lemma OneKept(rows: SubjectRows, m: map<EqualityKey, set<PropertySubject>>, row: (EqualityKey, seq<PropertySubject>))
    requires AreRows(rows, m, PairLess, SubjectLess) && row in rows
    ensures row.0 in m && Lists(row.1, Posting(m, row.0), SubjectLess)
  {
  }

  /** Kept rows are the selected rows, still ascending. */
  lemma {:induction false} KeptRows(rows: SubjectRows, slice: Slice, n: nat)
    requires PairsAscend(rows) && n <= |rows|
    ensures forall j :: 0 <= j < n && Selects(slice, rows[j].0) ==> rows[j] in Kept(rows[..n], slice)
    ensures forall row :: row in Kept(rows[..n], slice) ==> Selects(slice, row.0) && row in rows[..n]
    ensures PairsAscend(Kept(rows[..n], slice))
  {
    if n > 0 {
      KeptStep(rows, slice, n - 1);
      hide Kept, PairLess, Selects, PairsAscend;
      KeptRows(rows, slice, n - 1);
      var front := Kept(rows[..n - 1], slice);
      if Selects(slice, rows[n - 1].0) {
        AscendOn(rows, n - 1, front);
      }
      OneMoreKept(rows, slice, n - 1, front, Kept(rows[..n], slice));
    }
  }

  lemma OneMoreKept(rows: SubjectRows, slice: Slice, n: nat, front: SubjectRows, kept: SubjectRows)
    requires n < |rows| && kept == if Selects(slice, rows[n].0) then front + [rows[n]] else front
    requires forall j :: 0 <= j < n && Selects(slice, rows[j].0) ==> rows[j] in front
    requires forall row :: row in front ==> Selects(slice, row.0) && row in rows[..n]
    ensures forall j :: 0 <= j < n + 1 && Selects(slice, rows[j].0) ==> rows[j] in kept
    ensures forall row :: row in kept ==> Selects(slice, row.0) && row in rows[..n + 1]
  {
    hide Selects;
    assert rows[..n + 1] == rows[..n] + [rows[n]];
  }

  /** Earlier rows stay ascending when a later one joins them. */
  lemma AscendOn(rows: SubjectRows, n: nat, front: SubjectRows)
    requires n < |rows| && PairsAscend(rows) && PairsAscend(front) && forall row :: row in front ==> row in rows[..n]
    ensures PairsAscend(front + [rows[n]])
  {
    hide PairLess;
    forall i | 0 <= i < |front| ensures PairLess(front[i].0, rows[n].0) {
      assert front[i] in front;
      var l :| 0 <= l < n && rows[l] == front[i];
    }
  }

  lemma KeysListed(a: SubjectRows, m: map<EqualityKey, set<PropertySubject>>, keys: set<EqualityKey>)
    requires ListsPostings(a, m, keys)
    ensures Lists(seq(|a|, i requires 0 <= i < |a| => a[i].0), keys, PairLess)
  {
    var ka := seq(|a|, i requires 0 <= i < |a| => a[i].0);
    forall k | k in keys ensures k in ka {
      var i :| 0 <= i < |a| && a[i].0 == k;
      assert ka[i] == k;
    }
  }

  /** Two listings of the same postings are equal, so the persisted and the owned index agree entry by entry. */
  lemma {:induction false} PostingsAreUnique(a: SubjectRows, b: SubjectRows,
      m: map<EqualityKey, set<PropertySubject>>, keys: set<EqualityKey>)
    requires ListsPostings(a, m, keys) && ListsPostings(b, m, keys)
    ensures a == b
  {
    PairOrder();
    SubjectOrder();
    var ka, kb := seq(|a|, i requires 0 <= i < |a| => a[i].0), seq(|b|, i requires 0 <= i < |b| => b[i].0);
    KeysListed(a, m, keys);
    KeysListed(b, m, keys);
    ListingIsUnique(ka, kb, keys, PairLess);
    forall i | 0 <= i < |a| ensures a[i] == b[i] {
      assert ka[i] == kb[i];
      ListingIsUnique(a[i].1, b[i].1, Posting(m, a[i].0), SubjectLess);
    }
  }

  /** The persisted range scan and key scan deliver exactly what the owned map's do. */
  lemma PersistedSlicesAreOwned(rows: SubjectRows, m: map<EqualityKey, set<PropertySubject>>, key: u64,
      min: PropertyValue, max: PropertyValue,
      ranged: SubjectRows, keyed: SubjectRows)
    requires AreRows(rows, m, PairLess, SubjectLess)
    requires ListsPostings(ranged, m, KeysInRange(m, key, min, max)) && ListsPostings(keyed, m, KeysOf(m, key))
    ensures Kept(rows, Between(key, min, max)) == ranged && Kept(rows, OfKey(key)) == keyed
  {
    assert Selected(m, Between(key, min, max)) == KeysInRange(m, key, min, max);
    assert Selected(m, OfKey(key)) == KeysOf(m, key);
    KeptLists(rows, m, Between(key, min, max));
    KeptLists(rows, m, OfKey(key));
    PostingsAreUnique(Kept(rows, Between(key, min, max)), ranged, m, KeysInRange(m, key, min, max));
    PostingsAreUnique(Kept(rows, OfKey(key)), keyed, m, KeysOf(m, key));
  }

  /** The probe answers with the owned map's posting, or `None` with it. */
  lemma SubjectsAreOwned(rows: SubjectRows, m: map<EqualityKey, set<PropertySubject>>, pair: EqualityKey,
      found: Option<seq<PropertySubject>>)
    requires AreRows(rows, m, PairLess, SubjectLess) && SubjectsAnswer(found, rows, pair)
    ensures found.Some? <==> pair in m
    ensures found.Some? ==> Lists(found.value, m[pair], SubjectLess)
  {
  }

  // ----- validation at open

  predicate PairsWellFormed(run: seq<u64>) {
    |run| % 2 == 0 && forall i :: 0 <= i < |run| / 2 ==> DecodeSubject(run[2 * i], run[2 * i + 1]).Some?
  }

  predicate EntryWellFormed(e: EqualityEntry, pool: seq<u64>, text: seq<byte>, utf8: seq<byte> -> bool) {
    && EntryKey(e, text, utf8).Some?
    && SlicePool(pool, e.membersOff, e.membersLen).Some?
    && PairsWellFormed(SlicePool(pool, e.membersOff, e.membersLen).value)
  }

  method ValidateEquality(dir: seq<EqualityEntry>, pool: seq<u64>, text: seq<byte>, utf8: seq<byte> -> bool)
    returns (ok: bool)
    ensures ok <==> forall i :: 0 <= i < |dir| ==> EntryWellFormed(dir[i], pool, text, utf8)
  {
    for n := 0 to |dir|
      invariant forall i :: 0 <= i < n ==> EntryWellFormed(dir[i], pool, text, utf8)
    {
      var run := SlicePool(pool, dir[n].membersOff, dir[n].membersLen);
      if EntryKey(dir[n], text, utf8).None? || run.None? || |run.value| % 2 != 0 {
        return false;
      }
      for i := 0 to |run.value| / 2
        invariant forall j :: 0 <= j < i ==> DecodeSubject(run.value[2 * j], run.value[2 * j + 1]).Some?
      {
        if DecodeSubject(run.value[2 * i], run.value[2 * i + 1]).None? {
          return false;
        }
      }
    }
    ok := true;
  }

  /** What was written validates. */
  lemma HeldIsWellFormed(e: EqualityEntry, pool: seq<u64>, text: seq<byte>, utf8: seq<byte> -> bool,
      row: (EqualityKey, seq<PropertySubject>))
    requires EntryHolds(e, pool, text, utf8, row)
    ensures EntryWellFormed(e, pool, text, utf8)
  {
    forall i | 0 <= i < |row.1| ensures DecodeSubject(SubjectWords(row.1)[2 * i], SubjectWords(row.1)[2 * i + 1]).Some? {
      SubjectPair(row.1, i);
    }
  }

  // ----- bytes: seven words an entry, the tag sharing its word with the reserved zero

  function EntryWords(e: EqualityEntry): seq<u64> {
    [e.keyId, e.valueTag, e.scalar, e.textOff, e.textLen, e.membersOff, e.membersLen]
  }

  function EqualityWords(dir: seq<EqualityEntry>): (ws: seq<u64>)
    ensures |ws| == 7 * |dir|
  {
    if dir == [] then [] else EntryWords(dir[0]) + EqualityWords(dir[1..])
  }

  function EqualityEntries(ws: seq<u64>): seq<EqualityEntry>
    requires |ws| % 7 == 0
  {
    if ws == [] then []
    else [EqualityEntry(ws[0], ws[1] % 0x1_0000_0000, ws[2], ws[3], ws[4], ws[5], ws[6])] + EqualityEntries(ws[7..])
  }

  lemma {:induction false} EqualityEntriesRoundTrip(dir: seq<EqualityEntry>)
    ensures EqualityEntries(EqualityWords(dir)) == dir
  {
    if dir != [] {
      EqualityEntriesRoundTrip(dir[1..]);
      assert EqualityWords(dir)[7..] == EqualityWords(dir[1..]);
    }
  }

  datatype EqualityOpening = OpenedEquality(dir: seq<EqualityEntry>, pool: seq<u64>) | RefusedEquality

  function ReadEquality(section: seq<byte>): EqualityOpening {
    var s := SplitSection(section);
    if s.Malformed? || |s.dir| % 56 != 0 || |s.pool| % 8 != 0 then RefusedEquality
    else
      SevenWords(|s.dir| / 56);
      OpenedEquality(EqualityEntries(DecodeWords(s.dir)), DecodeWords(s.pool))
  }

  lemma SevenWords(entries: nat)
    ensures 56 * entries / 8 % 7 == 0
  {
    assert 56 * entries == 8 * (7 * entries);
  }

  method WriteEquality(rows: SubjectRows, ghost utf8: seq<byte> -> bool)
    returns (section: seq<byte>, text: seq<byte>, ghost dir: seq<EqualityEntry>, ghost pool: seq<u64>)
    requires 56 * |rows| <= MAX_WORD && 8 * PoolLen(rows) <= MAX_WORD && TextLen(rows) <= MAX_WORD
    requires TextsAreUtf8(rows, utf8)
    ensures ReadEquality(section) == OpenedEquality(dir, pool) && HoldsSubjects(dir, pool, text, utf8, rows)
    ensures |text| == TextLen(rows) && |section| == if rows == [] then 0 else 16 + 56 * |rows| + 8 * PoolLen(rows)
  {
    if rows == [] {
      return [], [], [], [];
    }
    var entries, members, texts := EncodeEquality(rows, utf8);
    section, text := Framed(EncodeWords(EqualityWords(entries)), EncodeWords(members)), texts;
    dir, pool := entries, members;
    EqualityReadsBack(dir, pool);
  }

  lemma EqualityReadsBack(dir: seq<EqualityEntry>, pool: seq<u64>)
    requires 56 * |dir| <= MAX_WORD && 8 * |pool| <= MAX_WORD
    ensures ReadEquality(Framed(EncodeWords(EqualityWords(dir)), EncodeWords(pool))) == OpenedEquality(dir, pool)
  {
    hide Framed, EncodeWords, DecodeWords, EqualityWords, EqualityEntries, SplitSection;
    var dirBytes, poolBytes := EncodeWords(EqualityWords(dir)), EncodeWords(pool);
    SplitFramed(dirBytes, poolBytes, []);
    assert Framed(dirBytes, poolBytes) + [] == Framed(dirBytes, poolBytes);
    WordsRoundTrip(EqualityWords(dir));
    WordsRoundTrip(pool);
    EqualityEntriesRoundTrip(dir);
  }
}
