/** Simple posting maps as a persisted directory plus value pool (`oxgraph-db/src/freeze.rs`, `index.rs`). */
module Postings {
  import opened Options
  import opened Bytes
  import opened Ordered
  import opened Values
  import opened Index

  const PREFIX_LEN: nat := 16
  const MAX_WORD: nat := 0xffff_ffff_ffff_ffff

  /** An ordered posting map, row by row: keys ascending, each with its ascending members. */
  type Rows<K, M> = seq<(K, seq<M>)>

  ghost predicate AreRows<K(!new), M(!new)>(rows: Rows<K, M>, m: map<K, set<M>>, keyLess: (K, K) -> bool,
      memberLess: (M, M) -> bool) {
    && (forall i, j :: 0 <= i < j < |rows| ==> keyLess(rows[i].0, rows[j].0))
    && (forall i :: 0 <= i < |rows| ==> rows[i].0 in m && Lists(rows[i].1, m[rows[i].0], memberLess))
    && (forall k :: k in m ==> exists i :: 0 <= i < |rows| && rows[i].0 == k)
  }

  /** Iterating a posting map. */
  method RowsOf<K(!new, ==), M(!new, ==)>(m: map<K, set<M>>, keyLess: (K, K) -> bool, memberLess: (M,
      M) -> bool) returns (rows: Rows<K, M>)
    requires StrictTotalOrder(keyLess) && StrictTotalOrder(memberLess)
    ensures AreRows(rows, m, keyLess, memberLess)
  {
    var keys := Listing(m.Keys, keyLess);
    rows := [];
    for i := 0 to |keys|
      invariant |rows| == i
      invariant forall j :: 0 <= j < i ==> rows[j].0 == keys[j] && Lists(rows[j].1, m[keys[j]], memberLess)
    {
      assert keys[i] in m.Keys;
      var members := Listing(m[keys[i]], memberLess);
      rows := rows + [(keys[i], members)];
    }
    forall k | k in m ensures exists i :: 0 <= i < |rows| && rows[i].0 == k {
      assert k in keys;
      var i :| 0 <= i < |keys| && keys[i] == k;
      assert rows[i].0 == k;
    }
  }

  /** All members, row after row: the value pool. */
  function Flat<K, M>(rows: Rows<K, M>): seq<M> {
    if rows == [] then [] else Flat(rows[..|rows| - 1]) + rows[|rows| - 1].1
  }

  /** Row `j` lies in the pool right after the rows before it. */
  lemma {:induction false} FlatSlice<K, M>(rows: Rows<K, M>, j: nat)
    requires j < |rows|
    ensures |Flat(rows[..j])| + |rows[j].1| <= |Flat(rows)|
    ensures Flat(rows)[|Flat(rows[..j])|..|Flat(rows[..j])| + |rows[j].1|] == rows[j].1
    decreases |rows|
  {
    var front := rows[..|rows| - 1];
    if j < |front| {
      FlatSlice(front, j);
      assert front[..j] == rows[..j];
      assert Flat(rows) == Flat(front) + rows[|rows| - 1].1;
    }
  }

  datatype PostingEntry = PostingEntry(key: u64, membersOff: u64, membersLen: u64)

  function SlicePool<T>(pool: seq<T>, off: u64, len: u64): Option<seq<T>> {
    if off + len <= |pool| then Some(pool[off..off + len]) else None
  }

  /** Every entry of the directory names its row's key and slices its row's members out of the pool. */
  ghost predicate HoldsRows(dir: seq<PostingEntry>, pool: seq<u64>, rows: Rows<u64, u64>) {
    && |dir| == |rows|
    && forall i :: 0 <= i < |dir| ==>
      dir[i].key == rows[i].0 && SlicePool(pool, dir[i].membersOff, dir[i].membersLen) == Some(rows[i].1)
  }

  /** Serializes an ordered posting map into directory and pool. */
  method EncodeSimple(rows: Rows<u64, u64>) returns (dir: seq<PostingEntry>, pool: seq<u64>)
    requires |Flat(rows)| <= MAX_WORD
    ensures HoldsRows(dir, pool, rows) && pool == Flat(rows)
    ensures forall j :: 0 <= j < |rows| ==> EntryOf(dir[j], rows, j)
  {
    dir, pool := [], [];
    for i := 0 to |rows|
      invariant pool == Flat(rows[..i]) && |dir| == i
      invariant forall j :: 0 <= j < i ==> EntryOf(dir[j], rows, j)
    {
      FlatSlice(rows, i);
      assert rows[..i + 1][..i] == rows[..i];
      dir := dir + [PostingEntry(rows[i].0, |pool|, |rows[i].1|)];
      pool := pool + rows[i].1;
    }
    assert rows[..|rows|] == rows;
    forall j | 0 <= j < |rows| ensures SlicePool(pool, dir[j].membersOff, dir[j].membersLen) == Some(rows[j].1) {
      assert EntryOf(dir[j], rows, j);
      FlatSlice(rows, j);
    }
  }

  ghost predicate EntryOf(e: PostingEntry, rows: Rows<u64, u64>, j: nat)
    requires j < |rows|
  {
    e.key == rows[j].0 && e.membersOff == |Flat(rows[..j])| && e.membersLen == |rows[j].1|
  }

  ghost predicate KeysAscend(rows: Rows<u64, u64>) {
    forall i, j :: 0 <= i < j < |rows| ==> rows[i].0 < rows[j].0
  }

  /** What the ordered map answers for `key`. */
  ghost predicate Answers(run: Option<seq<u64>>, rows: Rows<u64, u64>, key: u64) {
    match run
    case None => forall i :: 0 <= i < |rows| ==> rows[i].0 != key
    case Some(members) => exists i :: 0 <= i < |rows| && rows[i].0 == key && rows[i].1 == members
  }

  /** Binary search of the directory, then one slice of the pool. */
  method SimpleLookup(dir: seq<PostingEntry>, pool: seq<u64>, key: u64, ghost rows: Rows<u64, u64>)
    returns (run: Option<seq<u64>>)
    requires HoldsRows(dir, pool, rows) && KeysAscend(rows)
    ensures Answers(run, rows, key)
  {
    hide SlicePool;
    var low, high := 0, |dir|;
    while low < high
      invariant 0 <= low <= high <= |dir|
      invariant forall i :: 0 <= i < low ==> rows[i].0 < key
      invariant forall i :: high <= i < |dir| ==> key < rows[i].0
    {
      var mid := (low + high) / 2;
      if dir[mid].key < key {
        low := mid + 1;
      } else if dir[mid].key > key {
        high := mid;
      } else {
        return SlicePool(pool, dir[mid].membersOff, dir[mid].membersLen);
      }
    }
    run := None;
  }

  /** Looking a key up in the persisted form gives the owned map's posting, or `None` with it. */
  lemma AnswersAreOwned(rows: Rows<u64, u64>, m: map<u64, set<u64>>, key: u64, run: Option<seq<u64>>)
    requires AreRows(rows, m, IdLess, IdLess) && Answers(run, rows, key)
    ensures run.Some? <==> key in m
    ensures run.Some? ==> Lists(run.value, m[key], IdLess)
  {
  }

  // ----- bytes

  datatype Split = Split(dir: seq<byte>, pool: seq<byte>) | Malformed

  /** A two-word length prefix, the directory, then the pool. */
  function Framed(dir: seq<byte>, pool: seq<byte>): seq<byte>
    requires |dir| <= MAX_WORD && |pool| <= MAX_WORD
  {
    ToLE(|dir|, 8) + ToLE(|pool|, 8) + dir + pool
  }

  function SplitSection(bytes: seq<byte>): Split {
    if bytes == [] then Split([], [])
    else if |bytes| < PREFIX_LEN then Malformed
    else
      var dirEnd := PREFIX_LEN + ToU64(bytes[..8]);
      var poolEnd := dirEnd + ToU64(bytes[8..PREFIX_LEN]);
      if |bytes| < poolEnd then Malformed
      else Split(bytes[PREFIX_LEN..dirEnd], bytes[dirEnd..poolEnd])
  }

  lemma FiveParts(a: seq<byte>, b: seq<byte>, c: seq<byte>, d: seq<byte>, e: seq<byte>)
    requires |a| == |b| == 8
    ensures (a + b + c + d + e)[..8] == a && (a + b + c + d + e)[8..16] == b
    ensures (a + b + c + d + e)[16..16 + |c|] == c && (a + b + c + d + e)[16 + |c|..16 + |c| + |d|] == d
  {
  }

  lemma SplitFramed(dir: seq<byte>, pool: seq<byte>, trailing: seq<byte>)
    requires |dir| <= MAX_WORD && |pool| <= MAX_WORD
    ensures SplitSection(Framed(dir, pool) + trailing) == Split(dir, pool)
  {
    U64RoundTrip(|dir|);
    U64RoundTrip(|pool|);
    hide ToLE, ToU64;
    FiveParts(ToLE(|dir|, 8), ToLE(|pool|, 8), dir, pool, trailing);
  }

  lemma Rejoined<T>(s: seq<T>, i: nat, j: nat)
    requires i <= j <= |s|
    ensures s[..i] + s[i..j] == s[..j]
  {
  }

  lemma Appended<T>(a: seq<T>, b: seq<T>)
    requires |a| + |b| <= MAX_WORD
    ensures SlicePool(a + b, |a|, |b|) == Some(b)
  {
    assert (a + b)[|a|..|a| + |b|] == b;
  }

  lemma SplitParts(bytes: seq<byte>)
    requires bytes != [] && SplitSection(bytes).Split?
    ensures var s := SplitSection(bytes); var dirEnd := 16 + |s.dir|; var end := dirEnd + |s.pool|;
      && end <= |bytes| && s.dir == bytes[16..dirEnd] && s.pool == bytes[dirEnd..end]
      && |s.dir| <= MAX_WORD && |s.pool| <= MAX_WORD
      && ToLE(|s.dir|, 8) == bytes[..8] && ToLE(|s.pool|, 8) == bytes[8..16]
  {
    hide ToLE, FromLE;
    EncodeDecoded(bytes[..8]);
    EncodeDecoded(bytes[8..16]);
  }

  /** What splits is a framed section, up to bytes after it that are ignored. */
  lemma FramedSplit(bytes: seq<byte>)
    requires bytes != [] && SplitSection(bytes).Split?
    ensures Framed(SplitSection(bytes).dir, SplitSection(bytes).pool) <= bytes
  {
    var s := SplitSection(bytes);
    var dirEnd := 16 + |s.dir|;
    var end := dirEnd + |s.pool|;
    SplitParts(bytes);
    hide SplitSection, ToLE;
    Rejoined(bytes, 8, 16);
    Rejoined(bytes, 16, dirEnd);
    Rejoined(bytes, dirEnd, end);
  }

  /** Three words an entry. */
  function SimpleWords(dir: seq<PostingEntry>): (ws: seq<u64>)
    ensures |ws| == 3 * |dir|
  {
    if dir == [] then [] else [dir[0].key, dir[0].membersOff, dir[0].membersLen] + SimpleWords(dir[1..])
  }

  function SimpleEntries(ws: seq<u64>): seq<PostingEntry>
    requires |ws| % 3 == 0
  {
    if ws == [] then [] else [PostingEntry(ws[0], ws[1], ws[2])] + SimpleEntries(ws[3..])
  }

  lemma {:induction false} SimpleEntriesRoundTrip(dir: seq<PostingEntry>)
    ensures SimpleEntries(SimpleWords(dir)) == dir
  {
    if dir != [] {
      SimpleEntriesRoundTrip(dir[1..]);
      assert SimpleWords(dir)[3..] == SimpleWords(dir[1..]);
    }
  }

  /** The section of a posting map; an empty map gets none. */
  method WriteSimple(rows: Rows<u64, u64>)
    returns (section: seq<byte>, ghost dir: seq<PostingEntry>, ghost pool: seq<u64>)
    requires 24 * |rows| <= MAX_WORD && 8 * |Flat(rows)| <= MAX_WORD
    ensures ReadSimple(section) == Opened(dir, pool) && HoldsRows(dir, pool, rows)
    ensures pool == Flat(rows) && |section| == if rows == [] then 0 else 16 + 24 * |rows| + 8 * |pool|
  {
    if rows == [] {
      return [], [], [];
    }
    var entries, members := EncodeSimple(rows);
    section := Framed(EncodeWords(SimpleWords(entries)), EncodeWords(members));
    dir, pool := entries, members;
    SimpleReadsBack(dir, pool);
  }

  lemma SimpleReadsBack(dir: seq<PostingEntry>, pool: seq<u64>)
    requires 24 * |dir| <= MAX_WORD && 8 * |pool| <= MAX_WORD
    ensures ReadSimple(Framed(EncodeWords(SimpleWords(dir)), EncodeWords(pool))) == Opened(dir, pool)
  {
    hide Framed, EncodeWords, DecodeWords, SimpleWords, SimpleEntries, SplitSection;
    var dirBytes, poolBytes := EncodeWords(SimpleWords(dir)), EncodeWords(pool);
    SplitFramed(dirBytes, poolBytes, []);
    assert Framed(dirBytes, poolBytes) + [] == Framed(dirBytes, poolBytes);
    WordsRoundTrip(SimpleWords(dir));
    WordsRoundTrip(pool);
    SimpleEntriesRoundTrip(dir);
  }

  datatype Opening = Opened(dir: seq<PostingEntry>, pool: seq<u64>) | Refused

  /** Splits a section and reads both regions as whole arrays. */
  function ReadSimple(section: seq<byte>): Opening {
    var s := SplitSection(section);
    if s.Malformed? || |s.dir| % 24 != 0 || |s.pool| % 8 != 0 then Refused
    else Opened(SimpleEntries(DecodeWords(s.dir)), DecodeWords(s.pool))
  }

  /** Opening checks that every directory entry slices inside its pool. */
  method ValidateSimple(dir: seq<PostingEntry>, pool: seq<u64>) returns (ok: bool)
    ensures ok <==> forall i :: 0 <= i < |dir| ==> SlicePool(pool, dir[i].membersOff, dir[i].membersLen).Some?
  {
    for i := 0 to |dir|
      invariant forall j :: 0 <= j < i ==> SlicePool(pool, dir[j].membersOff, dir[j].membersLen).Some?
    {
      if SlicePool(pool, dir[i].membersOff, dir[i].membersLen).None? {
        return false;
      }
    }
    ok := true;
  }
}
