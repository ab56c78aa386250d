/** Property values and subjects with their total orders (`oxgraph-db/src/value.rs`, `wire.rs`). */
module Values {
  import opened Bytes
  import opened Ordered

  type i64 = x: int | -0x8000_0000_0000_0000 <= x < 0x8000_0000_0000_0000

  /** Text is its UTF-8 bytes; `str` compares byte by byte. */
  datatype PropertyValue = Boolean(flag: bool) | Integer(number: i64) | Text(text: seq<byte>)

  datatype PropertySubject = Element(id: u64) | Relation(id: u64) | Incidence(id: u64)

  /** A property key with one of its values: the key of an equality posting. */
  type EqualityKey = (u64, PropertyValue)

  predicate BytesLess(a: seq<byte>, b: seq<byte>) {
    b != [] && (a == [] || a[0] < b[0] || (a[0] == b[0] && BytesLess(a[1..], b[1..])))
  }

  /** `Boolean < Integer < Text`, then by payload. */
  predicate ValueLess(a: PropertyValue, b: PropertyValue) {
    match (a, b)
    case (Boolean(x), Boolean(y)) => !x && y
    case (Boolean(_), _) => true
    case (Integer(_), Boolean(_)) => false
    case (Integer(x), Integer(y)) => x < y
    case (Integer(_), Text(_)) => true
    case (Text(x), Text(y)) => BytesLess(x, y)
    case (Text(_), _) => false
  }

  predicate ValueAtMost(a: PropertyValue, b: PropertyValue) {
    a == b || ValueLess(a, b)
  }

  predicate PairLess(a: EqualityKey, b: EqualityKey) {
    a.0 < b.0 || (a.0 == b.0 && ValueLess(a.1, b.1))
  }

  function SubjectTag(s: PropertySubject): nat {
    match s
    case Element(_) => 0
    case Relation(_) => 1
    case Incidence(_) => 2
  }

  predicate SubjectLess(a: PropertySubject, b: PropertySubject) {
    SubjectTag(a) < SubjectTag(b) || (SubjectTag(a) == SubjectTag(b) && a.id < b.id)
  }

  lemma {:induction false} BytesOrder(a: seq<byte>, b: seq<byte>, c: seq<byte>)
    ensures !BytesLess(a, a)
    ensures BytesLess(a, b) || a == b || BytesLess(b, a)
    ensures BytesLess(a, b) && BytesLess(b, c) ==> BytesLess(a, c)
    decreases |a| + |b| + |c|
  {
    if a != [] {
      BytesOrder(a[1..], if b == [] then [] else b[1..], if c == [] then [] else c[1..]);
      if b != [] && a[0] == b[0] && a[1..] == b[1..] {
        assert a == [a[0]] + a[1..] == b;
      }
    }
  }

  lemma ValueOrder()
    ensures StrictTotalOrder(ValueLess)
  {
    forall a, b, c
      ensures !ValueLess(a, a)
      ensures ValueLess(a, b) || a == b || ValueLess(b, a)
      ensures ValueLess(a, b) && ValueLess(b, c) ==> ValueLess(a, c)
    {
      BytesOrder(if a.Text? then a.text else [], if b.Text? then b.text else [], if c.Text? then c.text else []);
    }
  }

  /** Text compares at the first byte that differs, and a proper prefix is less. */
  ghost predicate LessAt(a: seq<byte>, b: seq<byte>, k: nat) {
    k <= |a| && k < |b| && a[..k] == b[..k] && (k == |a| || a[k] < b[k])
  }

  lemma {:induction false} BytesLessIsLexicographic(a: seq<byte>, b: seq<byte>)
    ensures BytesLess(a, b) <==> exists k: nat :: LessAt(a, b, k)
  {
    if a == [] || b == [] || a[0] != b[0] {
      if a == [] || (b != [] && a[0] < b[0]) {
        assert b != [] ==> LessAt(a, b, 0);
      }
      forall k: nat | LessAt(a, b, k) ensures BytesLess(a, b) {
        assert k > 0 ==> a[..k][0] == b[..k][0];
      }
    } else {
      BytesLessIsLexicographic(a[1..], b[1..]);
      forall k: nat | LessAt(a[1..], b[1..], k) ensures LessAt(a, b, k + 1) {
        assert a[..k + 1] == [a[0]] + a[1..][..k] && b[..k + 1] == [b[0]] + b[1..][..k];
      }
      forall k: nat | LessAt(a, b, k) ensures k > 0 && LessAt(a[1..], b[1..], k - 1) {
        assert a[1..][..k - 1] == a[..k][1..] && b[1..][..k - 1] == b[..k][1..];
      }
    }
  }

  /** Values of different types compare by type, numbers as numbers, flags with `false` first and texts by bytes. */
  lemma ValuesCompareByTypeThenPayload(x: i64, y: i64, a: seq<byte>, b: seq<byte>, flag: bool)
    ensures ValueLess(Boolean(flag), Integer(x)) && ValueLess(Integer(x), Text(a)) && ValueLess(Boolean(flag), Text(a))
    ensures ValueLess(Integer(x), Integer(y)) <==> x < y
    ensures ValueLess(Boolean(false), Boolean(true))
    ensures ValueLess(Text(a), Text(b)) <==> exists k: nat :: LessAt(a, b, k)
  {
    BytesLessIsLexicographic(a, b);
  }

  /** Subjects compare by family, elements before relations before incidences, and then by id; pairs by key and then
      by value. */
  lemma SubjectsAndPairsCompare(a: u64, b: u64, x: PropertyValue, y: PropertyValue)
    ensures SubjectLess(Element(a), Relation(b)) && SubjectLess(Relation(a), Incidence(b))
    ensures SubjectLess(Element(a), Element(b)) <==> a < b
    ensures SubjectLess(Relation(a), Relation(b)) <==> a < b
    ensures SubjectLess(Incidence(a), Incidence(b)) <==> a < b
    ensures a < b ==> PairLess((a, x), (b, y))
    ensures PairLess((a, x), (a, y)) <==> ValueLess(x, y)
  {
  }

  lemma PairOrder()
    ensures StrictTotalOrder(PairLess)
  {
    ValueOrder();
  }

  lemma SubjectOrder()
    ensures StrictTotalOrder(SubjectLess)
  {
  }

  predicate IdLess(a: u64, b: u64) {
    a < b
  }

  /** `Boolean(false)` is the least value, so a key's postings begin at it. */
  lemma LeastValue(v: PropertyValue)
    ensures ValueAtMost(Boolean(false), v)
  {
  }
}
