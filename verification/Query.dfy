/** `MATCH ELEMENTS WHERE`: the predicate parser, binding, and the two execution plans (`oxgraph-db/src/query.rs`). */
module Query {
  import opened Options
  import opened Bytes
  import opened Ordered
  import opened Values
  import opened Index
  import opened OverlayIndexes
  import opened Writer

  type Token = string

  datatype CompareOp = Eq | Lt | Le | Gt | Ge

  datatype Predicate = Compare(key: Token, op: CompareOp, value: Token) | And(left: Predicate,
      right: Predicate) | Or(left: Predicate, right: Predicate)

  datatype QueryError =
    | ExpectedKey | ExpectedOperator | ExpectedValue | BadOperator | Unbalanced | TrailingTokens
    | UnknownKey(name: Token) | BadLiteral(token: Token) | WrongType(keyId: u64)

  type Answer<+T> = Result<T, QueryError>

  /** A parsed predicate and the cursor after it. */
  datatype Parsed = Parsed(tree: Predicate, cursor: nat)

  // ----- tokens

  function UpperChar(c: char): char {
    if 'a' <= c <= 'z' then c - 'a' + 'A' else c
  }

  function Upper(t: Token): Token {
    seq(|t|, i requires 0 <= i < |t| => UpperChar(t[i]))
  }

  /** The keyword at `c`, in any case. */
  predicate KeywordAt(ts: seq<Token>, c: nat, word: Token) {
    c < |ts| && Upper(ts[c]) == word
  }

  function OpSpelling(op: CompareOp): Token {
    match op
    case Eq => "="
    case Lt => "<"
    case Le => "<="
    case Gt => ">"
    case Ge => ">="
  }

  function ParseOp(t: Token): Answer<CompareOp> {
    if t == "=" then Ok(Eq)
    else if t == "<" then Ok(Lt)
    else if t == "<=" then Ok(Le)
    else if t == ">" then Ok(Gt)
    else if t == ">=" then Ok(Ge)
    else Err(BadOperator)
  }

  // ----- what the recursive descent computes

  function OrAt(ts: seq<Token>, c: nat): (r: Answer<Parsed>)
    requires c <= |ts|
    ensures r.Ok? ==> c < r.value.cursor <= |ts|
    decreases |ts| - c, 4
  {
    match AndAt(ts, c)
    case Err(e) => Err(e)
    case Ok(left) => OrMore(ts, left.tree, left.cursor)
  }

  function OrMore(ts: seq<Token>, left: Predicate, c: nat): (r: Answer<Parsed>)
    requires c <= |ts|
    ensures r.Ok? ==> c <= r.value.cursor <= |ts|
    decreases |ts| - c, 3
  {
    if KeywordAt(ts, c, "OR") then
      match AndAt(ts, c + 1)
      case Err(e) => Err(e)
      case Ok(right) => OrMore(ts, Or(left, right.tree), right.cursor)
    else Ok(Parsed(left, c))
  }

  function AndAt(ts: seq<Token>, c: nat): (r: Answer<Parsed>)
    requires c <= |ts|
    ensures r.Ok? ==> c < r.value.cursor <= |ts|
    decreases |ts| - c, 2
  {
    match FactorAt(ts, c)
    case Err(e) => Err(e)
    case Ok(left) => AndMore(ts, left.tree, left.cursor)
  }

  function AndMore(ts: seq<Token>, left: Predicate, c: nat): (r: Answer<Parsed>)
    requires c <= |ts|
    ensures r.Ok? ==> c <= r.value.cursor <= |ts|
    decreases |ts| - c, 1
  {
    if KeywordAt(ts, c, "AND") then
      match FactorAt(ts, c + 1)
      case Err(e) => Err(e)
      case Ok(right) => AndMore(ts, And(left, right.tree), right.cursor)
    else Ok(Parsed(left, c))
  }

  function FactorAt(ts: seq<Token>, c: nat): (r: Answer<Parsed>)
    requires c <= |ts|
    ensures r.Ok? ==> c < r.value.cursor <= |ts|
    decreases |ts| - c, 0
  {
    if c < |ts| && ts[c] == "(" then
      match OrAt(ts, c + 1)
      case Err(e) => Err(e)
      case Ok(inner) =>
        if inner.cursor < |ts| && ts[inner.cursor] == ")" then Ok(Parsed(inner.tree, inner.cursor + 1)) else Err(Unbalanced)
    else ComparisonAt(ts, c)
  }

  function ComparisonAt(ts: seq<Token>, c: nat): (r: Answer<Parsed>)
    requires c <= |ts|
    ensures r.Ok? ==> r.value.cursor == c + 3 <= |ts|
  {
    if |ts| <= c then Err(ExpectedKey)
    else if |ts| <= c + 1 then Err(ExpectedOperator)
    else if |ts| <= c + 2 then Err(ExpectedValue)
    else
      match ParseOp(ts[c + 1])
      case Err(e) => Err(e)
      case Ok(op) => Ok(Parsed(Compare(ts[c], op, ts[c + 2]), c + 3))
  }

  /** The whole `WHERE` clause. */
  function Whole(ts: seq<Token>): Answer<Predicate> {
    match OrAt(ts, 0)
    case Err(e) => Err(e)
    case Ok(parsed) => if parsed.cursor != |ts| then Err(TrailingTokens) else Ok(parsed.tree)
  }

  // ----- the parser

  method ParseOr(ts: seq<Token>, start: nat) returns (result: Answer<Predicate>, cursor: nat)
    requires start <= |ts|
    ensures Answers(result, cursor, OrAt(ts, start))
    decreases |ts| - start, 2
  {
    result, cursor := ParseAnd(ts, start);
    while result.Ok? && KeywordAt(ts, cursor, "OR")
      invariant result.Ok? ==> start < cursor <= |ts| && OrMore(ts, result.value, cursor) == OrAt(ts, start)
      invariant result.Err? ==> OrAt(ts, start) == Err(result.error)
      decreases if result.Ok? then 1 + |ts| - cursor else 0
    {
      var right, after := ParseAnd(ts, cursor + 1);
      match right {
        case Ok(tree) => result, cursor := Ok(Or(result.value, tree)), after;
        case Err(_) => result := right;
      }
    }
  }

  method ParseAnd(ts: seq<Token>, start: nat) returns (result: Answer<Predicate>, cursor: nat)
    requires start <= |ts|
    ensures Answers(result, cursor, AndAt(ts, start))
    decreases |ts| - start, 1
  {
    result, cursor := ParseFactor(ts, start);
    while result.Ok? && KeywordAt(ts, cursor, "AND")
      invariant result.Ok? ==> start < cursor <= |ts| && AndMore(ts, result.value, cursor) == AndAt(ts, start)
      invariant result.Err? ==> AndAt(ts, start) == Err(result.error)
      decreases if result.Ok? then 1 + |ts| - cursor else 0
    {
      var right, after := ParseFactor(ts, cursor + 1);
      match right {
        case Ok(tree) => result, cursor := Ok(And(result.value, tree)), after;
        case Err(_) => result := right;
      }
    }
  }

  method ParseFactor(ts: seq<Token>, start: nat) returns (result: Answer<Predicate>, cursor: nat)
    requires start <= |ts|
    ensures Answers(result, cursor, FactorAt(ts, start))
    decreases |ts| - start, 0
  {
    cursor := start;
    if cursor < |ts| && ts[cursor] == "(" {
      result, cursor := ParseOr(ts, cursor + 1);
      if result.Err? {
        return;
      }
      if |ts| <= cursor || ts[cursor] != ")" {
        return Err(Unbalanced), cursor;
      }
      cursor := cursor + 1;
      return;
    }
    match ComparisonAt(ts, cursor) {
      case Err(e) => result := Err(e);
      case Ok(parsed) => result, cursor := Ok(parsed.tree), parsed.cursor;
    }
  }

  predicate Answers(result: Answer<Predicate>, cursor: nat, spec: Answer<Parsed>) {
    match spec
    case Ok(parsed) => result == Ok(parsed.tree) && cursor == parsed.cursor
    case Err(e) => result == Err(e)
  }

  // ----- the grammar

  /** Concrete syntax: comparisons, groups, and connectives with the spelling of their keyword. */
  datatype Syntax =
    | Leaf(key: Token, op: CompareOp, value: Token)
    | Group(inner: Syntax)
    | Conjunction(left: Syntax, word: Token, right: Syntax)
    | Disjunction(left: Syntax, word: Token, right: Syntax)

  /** `or := and (OR and)*`, to the left. */
  predicate IsOr(s: Syntax)
    decreases s, 2
  {
    if s.Disjunction? then IsOr(s.left) && Upper(s.word) == "OR" && IsAnd(s.right) else IsAnd(s)
  }

  /** `and := factor (AND factor)*`, to the left. */
  predicate IsAnd(s: Syntax)
    decreases s, 1
  {
    if s.Conjunction? then IsAnd(s.left) && Upper(s.word) == "AND" && IsFactor(s.right) else IsFactor(s)
  }

  /** `factor := "(" or ")" | key op value`, where the key is not an opening parenthesis. */
  predicate IsFactor(s: Syntax)
    decreases s, 0
  {
    match s
    case Leaf(key, _, _) => key != "("
    case Group(inner) => IsOr(inner)
    case _ => false
  }

  function Spelling(s: Syntax): (ts: seq<Token>)
    ensures ts != []
  {
    match s
    case Leaf(key, op, value) => [key, OpSpelling(op), value]
    case Group(inner) => ["("] + Spelling(inner) + [")"]
    case Conjunction(left, word, right) => Spelling(left) + [word] + Spelling(right)
    case Disjunction(left, word, right) => Spelling(left) + [word] + Spelling(right)
  }

  function Meaning(s: Syntax): Predicate {
    match s
    case Leaf(key, op, value) => Compare(key, op, value)
    case Group(inner) => Meaning(inner)
    case Conjunction(left, _, right) => And(Meaning(left), Meaning(right))
    case Disjunction(left, _, right) => Or(Meaning(left), Meaning(right))
  }

  lemma Levels(s: Syntax)
    ensures s.Leaf? || s.Group? ==> IsOr(s) == IsAnd(s) == IsFactor(s)
    ensures s.Conjunction? ==> IsOr(s) == IsAnd(s) && !IsFactor(s)
    ensures s.Disjunction? ==> !IsAnd(s) && !IsFactor(s)
  {
    assert !s.Disjunction? ==> IsOr(s) == IsAnd(s);
    assert !s.Conjunction? ==> IsAnd(s) == IsFactor(s);
  }

  lemma Keywords()
    ensures Upper("AND") == "AND" && Upper("OR") == "OR" && |Upper(")")| == 1
  {
  }

  /** `s` is spelled at `c`. */
  predicate SpelledAt(s: Syntax, ts: seq<Token>, c: nat) {
    c + |Spelling(s)| <= |ts| && ts[c..c + |Spelling(s)|] == Spelling(s)
  }

  lemma Slices(ts: seq<Token>, c: nat, a: seq<Token>, w: Token, b: seq<Token>)
    requires c + |a| + 1 + |b| <= |ts| && ts[c..c + |a| + 1 + |b|] == a + [w] + b
    ensures ts[c..c + |a|] == a && ts[c + |a|] == w && ts[c + |a| + 1..c + |a| + 1 + |b|] == b
  {
    var span := ts[c..c + |a| + 1 + |b|];
    assert span[..|a|] == a && span[|a|] == w && span[|a| + 1..] == b;
    assert span[..|a|] == ts[c..c + |a|] && span[|a| + 1..] == ts[c + |a| + 1..c + |a| + 1 + |b|];
  }

  lemma SpelledParts(left: Syntax, word: Token, right: Syntax, ts: seq<Token>, c: nat)
    requires c + |Spelling(left)| + 1 + |Spelling(right)| <= |ts|
    requires ts[c..c + |Spelling(left)| + 1 + |Spelling(right)|] == Spelling(left) + [word] + Spelling(right)
    ensures SpelledAt(left, ts, c) && ts[c + |Spelling(left)|] == word && SpelledAt(right, ts, c + |Spelling(left)| + 1)
  {
    hide Spelling;
    Slices(ts, c, Spelling(left), word, Spelling(right));
  }

  lemma SpelledLeaf(key: Token, op: CompareOp, value: Token, ts: seq<Token>, c: nat)
    requires SpelledAt(Leaf(key, op, value), ts, c)
    ensures c + 3 <= |ts| && ts[c] == key && ts[c + 1] == OpSpelling(op) && ts[c + 2] == value
    ensures ParseOp(ts[c + 1]) == Ok(op)
  {
    var span := ts[c..c + 3];
    assert span == [key, OpSpelling(op), value];
    assert ts[c] == span[0] && ts[c + 1] == span[1] && ts[c + 2] == span[2];
  }

  lemma GroupSpelling(inner: Syntax)
    ensures Spelling(Group(inner)) == ["("] + Spelling(inner) + [")"]
  {
  }

  lemma SpelledGroup(inner: Syntax, ts: seq<Token>, c: nat)
    requires SpelledAt(Group(inner), ts, c)
    ensures |Spelling(Group(inner))| == |Spelling(inner)| + 2
    ensures ts[c] == "(" && SpelledAt(inner, ts, c + 1) && ts[c + 1 + |Spelling(inner)|] == ")"
  {
    hide Spelling;
    GroupSpelling(inner);
    var body := Spelling(inner);
    assert Spelling(Group(inner)) == [] + ["("] + (body + [")"]);
    Slices(ts, c, [], "(", body + [")"]);
    assert body + [")"] == body + [")"] + [];
    Slices(ts, c + 1, body, ")", []);
  }

  // ----- every sentence is parsed to its meaning

  lemma OrContinues(ts: seq<Token>, left: Predicate, c: nat, right: Predicate, end: nat)
    requires KeywordAt(ts, c, "OR") && end <= |ts| && AndAt(ts, c + 1) == AndMore(ts, right, end)
    requires !KeywordAt(ts, end, "AND")
    ensures OrMore(ts, left, c) == OrMore(ts, Or(left, right), end)
  {
  }

  lemma OrStarts(ts: seq<Token>, c: nat, first: Predicate, end: nat)
    requires c <= |ts| && end <= |ts| && AndAt(ts, c) == AndMore(ts, first, end) && !KeywordAt(ts, end, "AND")
    ensures OrAt(ts, c) == OrMore(ts, first, end)
  {
  }

  lemma {:induction false} OrCompletes(s: Syntax, ts: seq<Token>, c: nat)
    requires IsOr(s) && SpelledAt(s, ts, c) && !KeywordAt(ts, c + |Spelling(s)|, "AND")
    ensures OrAt(ts, c) == OrMore(ts, Meaning(s), c + |Spelling(s)|)
    decreases s, 2
  {
    hide *;
    var end := c + |Spelling(s)|;
    SpelledFits(s, ts, c);
    Levels(s);
    if s.Disjunction? {
      var at := c + |Spelling(s.left)|;
      DisjunctionParts(s, ts, c);
      OrCompletes(s.left, ts, c);
      AndCompletes(s.right, ts, at + 1);
      OrContinues(ts, Meaning(s.left), at, Meaning(s.right), end);
    } else {
      AndCompletes(s, ts, c);
      OrStarts(ts, c, Meaning(s), end);
    }
  }

  lemma DisjunctionParts(s: Syntax, ts: seq<Token>, c: nat)
    requires s.Disjunction? && IsOr(s) && SpelledAt(s, ts, c)
    ensures |Spelling(s)| == |Spelling(s.left)| + 1 + |Spelling(s.right)| && c + |Spelling(s)| <= |ts|
    ensures SpelledAt(s.left, ts, c) && SpelledAt(s.right, ts, c + |Spelling(s.left)| + 1)
    ensures KeywordAt(ts, c + |Spelling(s.left)|, "OR") && !KeywordAt(ts, c + |Spelling(s.left)|, "AND")
    ensures IsOr(s.left) && IsAnd(s.right) && Meaning(s) == Or(Meaning(s.left), Meaning(s.right))
  {
    SpelledParts(s.left, s.word, s.right, ts, c);
  }

  lemma ConjunctionParts(s: Syntax, ts: seq<Token>, c: nat)
    requires s.Conjunction? && IsAnd(s) && SpelledAt(s, ts, c)
    ensures |Spelling(s)| == |Spelling(s.left)| + 1 + |Spelling(s.right)| && c + |Spelling(s)| <= |ts|
    ensures SpelledAt(s.left, ts, c) && SpelledAt(s.right, ts, c + |Spelling(s.left)| + 1)
    ensures KeywordAt(ts, c + |Spelling(s.left)|, "AND")
    ensures IsAnd(s.left) && IsFactor(s.right) && Meaning(s) == And(Meaning(s.left), Meaning(s.right))
  {
    SpelledParts(s.left, s.word, s.right, ts, c);
  }

  lemma AndStarts(ts: seq<Token>, c: nat, first: Predicate, end: nat)
    requires c <= |ts| && end <= |ts| && FactorAt(ts, c) == Ok(Parsed(first, end))
    ensures AndAt(ts, c) == AndMore(ts, first, end)
  {
    hide FactorAt, AndMore;
  }

  lemma AndContinues(ts: seq<Token>, left: Predicate, c: nat, right: Predicate, end: nat)
    requires KeywordAt(ts, c, "AND") && end <= |ts| && FactorAt(ts, c + 1) == Ok(Parsed(right, end))
    ensures AndMore(ts, left, c) == AndMore(ts, And(left, right), end)
  {
  }

  lemma {:induction false} AndCompletes(s: Syntax, ts: seq<Token>, c: nat)
    requires IsAnd(s) && SpelledAt(s, ts, c)
    ensures AndAt(ts, c) == AndMore(ts, Meaning(s), c + |Spelling(s)|)
    decreases s, 1
  {
    hide *;
    SpelledFits(s, ts, c);
    Levels(s);
    if s.Conjunction? {
      var at := c + |Spelling(s.left)|;
      ConjunctionParts(s, ts, c);
      AndCompletes(s.left, ts, c);
      FactorCompletes(s.right, ts, at + 1);
      AndContinues(ts, Meaning(s.left), at, Meaning(s.right), c + |Spelling(s)|);
    } else {
      FactorCompletes(s, ts, c);
      AndStarts(ts, c, Meaning(s), c + |Spelling(s)|);
    }
  }

  lemma {:induction false} FactorCompletes(s: Syntax, ts: seq<Token>, c: nat)
    requires IsFactor(s) && SpelledAt(s, ts, c)
    ensures FactorAt(ts, c) == Ok(Parsed(Meaning(s), c + |Spelling(s)|))
    decreases s, 0
  {
    match s {
      case Leaf(key, op, value) =>
        SpelledLeaf(key, op, value, ts, c);
      case Group(inner) =>
        SpelledGroup(inner, ts, c);
        hide SpelledAt, Spelling;
        Keywords();
        OrCompletes(inner, ts, c + 1);
    }
  }

  // ----- every parse is of a sentence

  /** What `OrAt` (`AndAt`, `FactorAt`) consumed, as a sentence. */
  lemma {:induction false} OrSounds(ts: seq<Token>, c: nat) returns (s: Syntax)
    requires c <= |ts| && OrAt(ts, c).Ok?
    ensures var r := OrAt(ts, c).value;
      IsOr(s) && Meaning(s) == r.tree && SpelledAt(s, ts, c) && r.cursor == c + |Spelling(s)|
    decreases |ts| - c, 4
  {
    var first := AndSounds(ts, c);
    s := OrMoreSounds(ts, c, first);
  }

  lemma {:induction false} OrMoreSounds(ts: seq<Token>, c: nat, first: Syntax) returns (s: Syntax)
    requires IsOr(first) && SpelledAt(first, ts, c) && OrMore(ts, Meaning(first), c + |Spelling(first)|).Ok?
    ensures var r := OrMore(ts, Meaning(first), c + |Spelling(first)|).value;
      IsOr(s) && Meaning(s) == r.tree && SpelledAt(s, ts, c) && r.cursor == c + |Spelling(s)|
    decreases |ts| - c - |Spelling(first)|, 3
  {
    hide *;
    var at := c + |Spelling(first)|;
    SpelledFits(first, ts, c);
    OrMoreOnce(ts, Meaning(first), at);
    if KeywordAt(ts, at, "OR") {
      var right := AndSounds(ts, at + 1);
      DisjunctionJoins(first, right, ts, c);
      s := OrMoreSounds(ts, c, Disjunction(first, ts[at], right));
    } else {
      s := first;
    }
  }

  lemma {:induction false} AndSounds(ts: seq<Token>, c: nat) returns (s: Syntax)
    requires c <= |ts| && AndAt(ts, c).Ok?
    ensures var r := AndAt(ts, c).value;
      IsAnd(s) && Meaning(s) == r.tree && SpelledAt(s, ts, c) && r.cursor == c + |Spelling(s)|
    ensures !s.Disjunction?
    decreases |ts| - c, 2
  {
    var first := FactorSounds(ts, c);
    s := AndMoreSounds(ts, c, first);
  }

  lemma {:induction false} AndMoreSounds(ts: seq<Token>, c: nat, first: Syntax) returns (s: Syntax)
    requires IsAnd(first) && !first.Disjunction? && SpelledAt(first, ts, c)
    requires AndMore(ts, Meaning(first), c + |Spelling(first)|).Ok?
    ensures var r := AndMore(ts, Meaning(first), c + |Spelling(first)|).value;
      IsAnd(s) && Meaning(s) == r.tree && SpelledAt(s, ts, c) && r.cursor == c + |Spelling(s)|
    ensures !s.Disjunction?
    decreases |ts| - c - |Spelling(first)|, 1
  {
    hide *;
    var at := c + |Spelling(first)|;
    SpelledFits(first, ts, c);
    AndMoreOnce(ts, Meaning(first), at);
    if KeywordAt(ts, at, "AND") {
      var right := FactorSounds(ts, at + 1);
      ConjunctionJoins(first, right, ts, c);
      s := AndMoreSounds(ts, c, Conjunction(first, ts[at], right));
    } else {
      s := first;
    }
  }

  lemma {:induction false} FactorSounds(ts: seq<Token>, c: nat) returns (s: Syntax)
    requires c <= |ts| && FactorAt(ts, c).Ok?
    ensures var r := FactorAt(ts, c).value;
      IsFactor(s) && Meaning(s) == r.tree && SpelledAt(s, ts, c) && r.cursor == c + |Spelling(s)|
    decreases |ts| - c, 0
  {
    if ts[c] == "(" {
      var inner := OrSounds(ts, c + 1);
      SpelledFits(inner, ts, c + 1);
      hide SpelledAt, Spelling, OrAt, IsOr;
      GroupJoins(inner, ts, c);
      s := Group(inner);
    } else {
      var op := ParseOp(ts[c + 1]).value;
      s := Leaf(ts[c], op, ts[c + 2]);
      LeafJoins(ts, c, op);
    }
  }

  lemma LeafJoins(ts: seq<Token>, c: nat, op: CompareOp)
    requires c + 3 <= |ts| && ts[c + 1] == OpSpelling(op)
    ensures SpelledAt(Leaf(ts[c], op, ts[c + 2]), ts, c)
  {
    assert ts[c..c + 1] == [ts[c]] && ts[c + 2..c + 3] == [ts[c + 2]];
    Joined(ts, c, [ts[c]], [ts[c + 2]]);
  }

  lemma GroupJoins(inner: Syntax, ts: seq<Token>, c: nat)
    requires SpelledAt(inner, ts, c + 1) && c + 1 + |Spelling(inner)| < |ts|
    requires ts[c] == "(" && ts[c + 1 + |Spelling(inner)|] == ")"
    ensures SpelledAt(Group(inner), ts, c) && |Spelling(Group(inner))| == |Spelling(inner)| + 2
  {
    hide Spelling;
    GroupSpelling(inner);
    Bracketed(ts, c, Spelling(inner));
  }

  lemma Bracketed(ts: seq<Token>, c: nat, body: seq<Token>)
    requires c + |body| + 2 <= |ts| && ts[c + 1..c + 1 + |body|] == body
    ensures ts[c..c + |body| + 2] == [ts[c]] + body + [ts[c + 1 + |body|]]
  {
  }

  /** The loops, one turn unfolded. */
  lemma OrMoreOnce(ts: seq<Token>, left: Predicate, c: nat)
    requires c <= |ts|
    ensures !KeywordAt(ts, c, "OR") ==> OrMore(ts, left, c) == Ok(Parsed(left, c))
    ensures KeywordAt(ts, c, "OR") ==> c < |ts|
    ensures KeywordAt(ts, c, "OR") && AndAt(ts, c + 1).Err? ==> OrMore(ts, left, c).Err?
    ensures KeywordAt(ts, c, "OR") && AndAt(ts, c + 1).Ok? ==>
      OrMore(ts, left, c) == OrMore(ts, Or(left, AndAt(ts, c + 1).value.tree), AndAt(ts, c + 1).value.cursor)
  {
    hide AndAt, Upper;
  }

  lemma AndMoreOnce(ts: seq<Token>, left: Predicate, c: nat)
    requires c <= |ts|
    ensures !KeywordAt(ts, c, "AND") ==> AndMore(ts, left, c) == Ok(Parsed(left, c))
    ensures KeywordAt(ts, c, "AND") ==> c < |ts|
    ensures KeywordAt(ts, c, "AND") && FactorAt(ts, c + 1).Err? ==> AndMore(ts, left, c).Err?
    ensures KeywordAt(ts, c, "AND") && FactorAt(ts, c + 1).Ok? ==>
      AndMore(ts, left, c) == AndMore(ts, And(left, FactorAt(ts, c + 1).value.tree), FactorAt(ts, c + 1).value.cursor)
  {
    hide FactorAt, Upper;
  }

  lemma SpelledFits(s: Syntax, ts: seq<Token>, c: nat)
    requires SpelledAt(s, ts, c)
    ensures c + |Spelling(s)| <= |ts|
  {
  }

  lemma Joined(ts: seq<Token>, c: nat, a: seq<Token>, b: seq<Token>)
    requires c + |a| + 1 + |b| <= |ts| && ts[c..c + |a|] == a && ts[c + |a| + 1..c + |a| + 1 + |b|] == b
    ensures ts[c..c + |a| + 1 + |b|] == a + [ts[c + |a|]] + b
  {
  }

  lemma DisjunctionJoins(left: Syntax, right: Syntax, ts: seq<Token>, c: nat)
    requires IsOr(left) && IsAnd(right) && KeywordAt(ts, c + |Spelling(left)|, "OR")
    requires SpelledAt(left, ts, c) && SpelledAt(right, ts, c + |Spelling(left)| + 1)
    ensures c + |Spelling(left)| < |ts|
    ensures var s := Disjunction(left, ts[c + |Spelling(left)|], right);
      && IsOr(s) && SpelledAt(s, ts, c) && |Spelling(s)| == |Spelling(left)| + 1 + |Spelling(right)|
      && Meaning(s) == Or(Meaning(left), Meaning(right))
  {
    Joined(ts, c, Spelling(left), Spelling(right));
  }

  lemma ConjunctionJoins(left: Syntax, right: Syntax, ts: seq<Token>, c: nat)
    requires IsAnd(left) && IsFactor(right) && KeywordAt(ts, c + |Spelling(left)|, "AND")
    requires SpelledAt(left, ts, c) && SpelledAt(right, ts, c + |Spelling(left)| + 1)
    ensures c + |Spelling(left)| < |ts|
    ensures var s := Conjunction(left, ts[c + |Spelling(left)|], right);
      && IsAnd(s) && SpelledAt(s, ts, c) && |Spelling(s)| == |Spelling(left)| + 1 + |Spelling(right)|
      && Meaning(s) == And(Meaning(left), Meaning(right))
  {
    Joined(ts, c, Spelling(left), Spelling(right));
  }

  // ----- the parser recognizes exactly the grammar

  /** The clause parses to `p` exactly when it is a sentence that means `p`. */
  lemma ParsesExactlyTheGrammar(ts: seq<Token>, p: Predicate)
    ensures Whole(ts) == Ok(p) <==> exists s :: IsOr(s) && Spelling(s) == ts && Meaning(s) == p
  {
    if Whole(ts) == Ok(p) {
      var s := OrSounds(ts, 0);
      assert ts[0..|ts|] == ts;
    }
    if exists s :: IsOr(s) && Spelling(s) == ts && Meaning(s) == p {
      var s :| IsOr(s) && Spelling(s) == ts && Meaning(s) == p;
      assert ts[0..|ts|] == ts;
      OrCompletes(s, ts, 0);
    }
  }

  /** The grammar is unambiguous. */
  lemma SentencesMeanOneThing(s: Syntax, t: Syntax)
    requires IsOr(s) && IsOr(t) && Spelling(s) == Spelling(t)
    ensures Meaning(s) == Meaning(t)
  {
    ParsesExactlyTheGrammar(Spelling(s), Meaning(s));
    ParsesExactlyTheGrammar(Spelling(s), Meaning(t));
  }

  // ----- printing

  /** Fully parenthesized. */
  function Printed(p: Predicate): Syntax {
    match p
    case Compare(key, op, value) => Leaf(key, op, value)
    case And(left, right) => Group(Conjunction(Printed(left), "AND", Printed(right)))
    case Or(left, right) => Group(Disjunction(Printed(left), "OR", Printed(right)))
  }

  predicate KeysPrintable(p: Predicate) {
    match p
    case Compare(key, _, _) => key != "("
    case And(left, right) => KeysPrintable(left) && KeysPrintable(right)
    case Or(left, right) => KeysPrintable(left) && KeysPrintable(right)
  }

  lemma {:induction false} PrintedIsSentence(p: Predicate)
    requires KeysPrintable(p)
    ensures IsFactor(Printed(p)) && Meaning(Printed(p)) == p
  {
    Keywords();
    match p
    case Compare(_, _, _) =>
    case And(left, right) =>
      PrintedIsSentence(left);
      PrintedIsSentence(right);
      Levels(Printed(left));
      Levels(Conjunction(Printed(left), "AND", Printed(right)));
    case Or(left, right) =>
      PrintedIsSentence(left);
      PrintedIsSentence(right);
      Levels(Printed(left));
      Levels(Printed(right));
  }

  lemma {:induction false} SentencesArePrintable(s: Syntax)
    requires IsOr(s) || IsAnd(s) || IsFactor(s)
    ensures KeysPrintable(Meaning(s))
  {
    Levels(s);
    match s
    case Leaf(_, _, _) =>
    case Group(inner) => SentencesArePrintable(inner);
    case Conjunction(left, _, right) =>
      SentencesArePrintable(left);
      SentencesArePrintable(right);
    case Disjunction(left, _, right) =>
      SentencesArePrintable(left);
      SentencesArePrintable(right);
  }

  /** Printing and parsing round-trips exactly the trees without an opening parenthesis as a key. */
  lemma PrintedParsesBack(p: Predicate)
    ensures Whole(Spelling(Printed(p))) == Ok(p) <==> KeysPrintable(p)
  {
    ParsesExactlyTheGrammar(Spelling(Printed(p)), p);
    if KeysPrintable(p) {
      PrintedIsSentence(p);
      Levels(Printed(p));
    }
    if Whole(Spelling(Printed(p))) == Ok(p) {
      var s :| IsOr(s) && Spelling(s) == Spelling(Printed(p)) && Meaning(s) == p;
      SentencesArePrintable(s);
    }
  }

  // ----- how clauses are spelled

  /** The same letters, in either case. */
  predicate SameLetters(t: Token, word: Token) {
    |t| == |word| && forall i :: 0 <= i < |t| ==> t[i] == word[i] || (t[i] as int == word[i] as int + 32)
  }

  /** Keywords are recognised in any case. */
  lemma KeywordsInAnyCase(ts: seq<Token>, c: nat, word: Token)
    requires forall i :: 0 <= i < |word| ==> 'A' <= word[i] <= 'Z'
    ensures KeywordAt(ts, c, word) <==> c < |ts| && SameLetters(ts[c], word)
  {
    if c < |ts| && |ts[c]| == |word| {
      forall i | 0 <= i < |word|
        ensures UpperChar(ts[c][i]) == word[i] <==> ts[c][i] == word[i] || (ts[c][i] as int == word[i] as int + 32)
      {
      }
      assert Upper(ts[c]) == word <==> forall i :: 0 <= i < |word| ==> Upper(ts[c])[i] == word[i];
    }
  }

  /** The five operators. */
  lemma OperatorsSpelled(key: Token, value: Token)
    requires key != "("
    ensures Whole([key, "=", value]) == Ok(Compare(key, Eq, value))
    ensures Whole([key, "<", value]) == Ok(Compare(key, Lt, value))
    ensures Whole([key, "<=", value]) == Ok(Compare(key, Le, value))
    ensures Whole([key, ">", value]) == Ok(Compare(key, Gt, value))
    ensures Whole([key, ">=", value]) == Ok(Compare(key, Ge, value))
  {
    OneComparison(key, Eq, value);
    OneComparison(key, Lt, value);
    OneComparison(key, Le, value);
    OneComparison(key, Gt, value);
    OneComparison(key, Ge, value);
    hide Whole;
  }

  predicate IsOperator(t: Token) {
    t == "=" || t == "<" || t == "<=" || t == ">" || t == ">="
  }

  /** A clause that ends early names what is missing; a comparison with another operator is refused for it. */
  lemma ShortClauses(key: Token, op: Token, value: Token)
    ensures Whole([]) == Err(ExpectedKey)
    ensures key != "(" ==> Whole([key]) == Err(ExpectedOperator) && Whole([key, op]) == Err(ExpectedValue)
    ensures key != "(" && !IsOperator(op) ==> Whole([key, op, value]) == Err(BadOperator)
  {
    FactorFails([]);
    FactorFails([key]);
    FactorFails([key, op]);
    FactorFails([key, op, value]);
    hide Whole;
  }

  lemma FactorFails(ts: seq<Token>)
    ensures FactorAt(ts, 0).Err? ==> Whole(ts) == Err(FactorAt(ts, 0).error)
  {
    hide FactorAt;
    if FactorAt(ts, 0).Err? {
      assert AndAt(ts, 0) == Err(FactorAt(ts, 0).error);
      assert OrAt(ts, 0) == Err(FactorAt(ts, 0).error);
    }
  }

  /** A group that is not closed. */
  lemma UnclosedGroup(s: Syntax)
    requires IsOr(s)
    ensures Whole(["("] + Spelling(s)) == Err(Unbalanced)
  {
    hide Spelling, Upper, Whole;
    var ts := ["("] + Spelling(s);
    assert ts[1..] == Spelling(s);
    OrCompletes(s, ts, 1);
    FactorFails(ts);
  }

  /** A sentence with more behind it than a keyword could continue. */
  lemma TrailingToken(s: Syntax, t: Token)
    requires IsOr(s) && !SameLetters(t, "AND") && !SameLetters(t, "OR")
    ensures Whole(Spelling(s) + [t]) == Err(TrailingTokens)
  {
    var ts := Spelling(s) + [t];
    KeywordsInAnyCase(ts, |Spelling(s)|, "AND");
    KeywordsInAnyCase(ts, |Spelling(s)|, "OR");
    hide Spelling, Upper, SameLetters;
    assert ts[..|Spelling(s)|] == Spelling(s);
    OrCompletes(s, ts, 0);
  }

  lemma OneComparison(key: Token, op: CompareOp, value: Token)
    requires key != "("
    ensures Whole([key, OpSpelling(op), value]) == Ok(Compare(key, op, value))
  {
    var s := Leaf(key, op, value);
    Levels(s);
    ParsesExactlyTheGrammar([key, OpSpelling(op), value], Compare(key, op, value));
    assert IsOr(s) && Spelling(s) == [key, OpSpelling(op), value] && Meaning(s) == Compare(key, op, value);
  }

  // ----- lowering

  datatype LogicalOp = ElementPropertyEqual(key: Token, value: Token) | ElementWhere(tree: Predicate)

  /** A lone equality becomes the indexed probe. */
  function Collapsed(p: Predicate): LogicalOp {
    if p.Compare? && p.op == Eq then ElementPropertyEqual(p.key, p.value) else ElementWhere(p)
  }

  method ParseElementWhere(ts: seq<Token>) returns (result: Answer<LogicalOp>)
    ensures Whole(ts).Err? ==> result == Err(Whole(ts).error)
    ensures Whole(ts).Ok? ==> result == Ok(Collapsed(Whole(ts).value))
  {
    var parsed, cursor := ParseOr(ts, 0);
    match parsed {
      case Err(e) => result := Err(e);
      case Ok(tree) =>
        if cursor != |ts| {
          return Err(TrailingTokens);
        }
        match tree {
          case Compare(key, Eq, value) => result := Ok(ElementPropertyEqual(key, value));
          case _ => result := Ok(ElementWhere(tree));
        }
    }
  }

  /** What the catalog and the literal syntax supply: key names, property literals, and whether a value fits a key. */
  datatype Binder = Binder(keyId: Token -> Option<u64>, literal: Token -> Option<PropertyValue>, fits: (u64,
      PropertyValue) -> bool)

  datatype Bound = BoundCompare(keyId: u64, op: CompareOp, value: PropertyValue) | BoundAnd(left: Bound,
      right: Bound) | BoundOr(left: Bound, right: Bound)

  datatype Plan = PropertyProbe(keyId: u64, value: PropertyValue) | Filter(bound: Bound)

  /** Name first, then literal, then type. */
  function BindComparison(b: Binder, key: Token, value: Token): Answer<(u64, PropertyValue)> {
    match b.keyId(key)
    case None => Err(QueryError.UnknownKey(key))
    case Some(id) =>
      match b.literal(value)
      case None => Err(BadLiteral(value))
      case Some(v) => if b.fits(id, v) then Ok((id, v)) else Err(QueryError.WrongType(id))
  }

  /** Left before right; the first error wins. */
  function Bind(b: Binder, p: Predicate): Answer<Bound> {
    match p
    case Compare(key, op, value) =>
      (match BindComparison(b, key, value)
       case Err(e) => Err(e)
       case Ok(pair) => Ok(BoundCompare(pair.0, op, pair.1)))
    case And(left, right) =>
      (match Bind(b, left)
       case Err(e) => Err(e)
       case Ok(l) => match Bind(b, right) case Err(e) => Err(e) case Ok(r) => Ok(BoundAnd(l, r)))
    case Or(left, right) =>
      (match Bind(b, left)
       case Err(e) => Err(e)
       case Ok(l) => match Bind(b, right) case Err(e) => Err(e) case Ok(r) => Ok(BoundOr(l, r)))
  }

  function Lower(b: Binder, op: LogicalOp): Answer<Plan> {
    match op
    case ElementPropertyEqual(key, value) =>
      (match BindComparison(b, key, value)
       case Err(e) => Err(e)
       case Ok(pair) => Ok(PropertyProbe(pair.0, pair.1)))
    case ElementWhere(tree) =>
      (match Bind(b, tree)
       case Err(e) => Err(e)
       case Ok(bound) => Ok(Filter(bound)))
  }

  // ----- execution

  predicate Holds(op: CompareOp, actual: PropertyValue, value: PropertyValue) {
    match op
    case Eq => actual == value
    case Lt => ValueLess(actual, value)
    case Le => ValueLess(actual, value) || actual == value
    case Gt => ValueLess(value, actual)
    case Ge => ValueLess(value, actual) || actual == value
  }

  /** A missing property satisfies no comparison. */
  predicate Satisfies(p: Properties, bound: Bound, e: u64) {
    match bound
    case BoundCompare(key, op, value) => (Element(e), key) in p && Holds(op, p[(Element(e), key)], value)
    case BoundAnd(left, right) => Satisfies(p, left, e) && Satisfies(p, right, e)
    case BoundOr(left, right) => Satisfies(p, left, e) || Satisfies(p, right, e)
  }

  /** The elements a predicate selects. */
  function Matching(r: Records, bound: Bound): set<u64> {
    set e | e in r.elements && Satisfies(r.properties, bound, e)
  }

  /** Keeps the visible elements that satisfy the predicate, looking at each of them once. */
  method FilterElements(r: Records, bound: Bound) returns (rows: seq<u64>)
    ensures Lists(rows, Matching(r, bound), IdLess)
  {
    var ids := Listing(r.elements.Keys, IdLess);
    rows := [];
    for i := 0 to |ids|
      invariant forall a, b :: 0 <= a < b < |rows| ==> rows[a] < rows[b]
      invariant forall a :: 0 <= a < |rows| && i < |ids| ==> rows[a] < ids[i]
      invariant forall e :: e in rows <==> e in ids[..i] && Satisfies(r.properties, bound, e)
    {
      assert ids[..i + 1] == ids[..i] + [ids[i]];
      assert i + 1 < |ids| ==> IdLess(ids[i], ids[i + 1]);
      if Satisfies(r.properties, bound, ids[i]) {
        rows := rows + [ids[i]];
      }
    }
    assert ids[..|ids|] == ids;
  }

  /** The indexed probe, keeping element subjects. */
  method ScanElementsWithProperty(index: OverlayIndex, base: BaseIndex, key: u64, value: PropertyValue,
      ghost r: Records) returns (rows: seq<u64>)
    requires index.Agrees(base, r)
    ensures Lists(rows, Probed(r.properties, key, value), IdLess)
  {
    var subjects := index.PropertyEqual(base, key, value, r);
    hide OverlayIndex.Agrees;
    rows := [];
    for i := 0 to |subjects|
      invariant forall a, b :: 0 <= a < b < |rows| ==> rows[a] < rows[b]
      invariant forall a, j :: 0 <= a < |rows| && i <= j < |subjects| && subjects[j].Element? ==> rows[a] < subjects[j].id
      invariant forall e :: e in rows <==> Element(e) in subjects[..i]
    {
      assert subjects[..i + 1] == subjects[..i] + [subjects[i]];
      if subjects[i].Element? {
        rows := rows + [subjects[i].id];
      }
    }
    assert subjects[..|subjects|] == subjects;
  }

  /** The ids of element subjects carrying the value, live or not. */
  function Probed(p: Properties, key: u64, value: PropertyValue): (ids: set<u64>)
    ensures forall e :: e in ids <==> Carries(p, Element(e), key, value)
  {
    set x | x in p && x.0.Element? && x.1 == key && Carries(p, x.0, key, value) :: x.0.id
  }

  /** The probe answers the scan's question exactly when no absent element carries the value. */
  lemma ProbeIsFilter(r: Records, key: u64, value: PropertyValue)
    ensures Probed(r.properties, key, value) == Matching(r, BoundCompare(key, Eq, value))
      <==> forall e :: Carries(r.properties, Element(e), key, value) ==> e in r.elements
  {
    var probed, matching := Probed(r.properties, key, value), Matching(r, BoundCompare(key, Eq, value));
    assert forall e :: e in matching <==> e in r.elements && Carries(r.properties, Element(e), key, value);
    if forall e :: Carries(r.properties, Element(e), key, value) ==> e in r.elements {
      assert forall e :: e in probed <==> e in matching;
    }
  }

  // ----- what a parsed predicate means

  /** How a stored value stands to the literal, in the order of values. */
  predicate Stands(op: CompareOp, actual: PropertyValue, value: PropertyValue) {
    match op
    case Eq => actual == value
    case Lt => ValueLess(actual, value)
    case Le => !ValueLess(value, actual)
    case Gt => ValueLess(value, actual)
    case Ge => !ValueLess(actual, value)
  }

  lemma HoldsIsStands(op: CompareOp, actual: PropertyValue, value: PropertyValue)
    ensures Holds(op, actual, value) <==> Stands(op, actual, value)
  {
    ValueOrder();
  }

  /** The comparison's name and literal resolve, to a value of the right type. */
  predicate Binds(b: Binder, key: Token, value: Token) {
    b.keyId(key).Some? && b.literal(value).Some? && b.fits(b.keyId(key).value, b.literal(value).value)
  }

  /** Name before literal before type. */
  predicate FailsWith(b: Binder, key: Token, value: Token, error: QueryError) {
    || (b.keyId(key).None? && error == QueryError.UnknownKey(key))
    || (b.keyId(key).Some? && b.literal(value).None? && error == BadLiteral(value))
    || (b.keyId(key).Some? && b.literal(value).Some? && !b.fits(b.keyId(key).value, b.literal(value).value)
        && error == QueryError.WrongType(b.keyId(key).value))
  }

  /** The comparisons of a predicate from left to right. */
  function Comparisons(p: Predicate): seq<(Token, Token)> {
    match p
    case Compare(key, _, value) => [(key, value)]
    case And(left, right) => Comparisons(left) + Comparisons(right)
    case Or(left, right) => Comparisons(left) + Comparisons(right)
  }

  /** A comparison selects the elements that have the named property with a value that stands so to the literal; a
      conjunction selects what both sides do, a disjunction what either does. */
  ghost predicate Selects(b: Binder, p: Properties, tree: Predicate, e: u64) {
    match tree
    case Compare(key, op, value) =>
      b.keyId(key).Some? && b.literal(value).Some? && (Element(e), b.keyId(key).value) in p
      && Stands(op, p[(Element(e), b.keyId(key).value)], b.literal(value).value)
    case And(left, right) => Selects(b, p, left, e) && Selects(b, p, right, e)
    case Or(left, right) => Selects(b, p, left, e) || Selects(b, p, right, e)
  }

  ghost predicate FirstFailing(b: Binder, comparisons: seq<(Token, Token)>, i: nat, error: QueryError) {
    && i < |comparisons| && FailsWith(b, comparisons[i].0, comparisons[i].1, error)
    && forall j :: 0 <= j < i ==> Binds(b, comparisons[j].0, comparisons[j].1)
  }

  ghost predicate AllBind(b: Binder, comparisons: seq<(Token, Token)>) {
    forall i :: 0 <= i < |comparisons| ==> Binds(b, comparisons[i].0, comparisons[i].1)
  }

  /** Binding keeps the meaning of a predicate. */
  lemma {:induction false} BoundSelects(b: Binder, p: Properties, tree: Predicate, e: u64)
    requires Bind(b, tree).Ok?
    ensures Satisfies(p, Bind(b, tree).value, e) <==> Selects(b, p, tree, e)
  {
    match tree {
      case Compare(key, op, value) =>
        if (Element(e), b.keyId(key).value) in p {
          HoldsIsStands(op, p[(Element(e), b.keyId(key).value)], b.literal(value).value);
        }
      case And(left, right) =>
        BoundSelects(b, p, left, e);
        BoundSelects(b, p, right, e);
      case Or(left, right) =>
        BoundSelects(b, p, left, e);
        BoundSelects(b, p, right, e);
    }
  }

  /** Binding fails with the first comparison from the left that does. */
  lemma {:induction false} BindFailsFirst(b: Binder, tree: Predicate) returns (i: nat)
    ensures Bind(b, tree).Ok? ==> AllBind(b, Comparisons(tree))
    ensures Bind(b, tree).Err? ==> FirstFailing(b, Comparisons(tree), i, Bind(b, tree).error)
  {
    i := 0;
    if tree.And? || tree.Or? {
      i := BindFailsFirst(b, tree.left);
      if Bind(b, tree.left).Ok? {
        var k := BindFailsFirst(b, tree.right);
        i := |Comparisons(tree.left)| + k;
      }
    }
  }

  lemma MatchingIsSelected(b: Binder, r: Records, tree: Predicate)
    requires Bind(b, tree).Ok?
    ensures forall e :: e in Matching(r, Bind(b, tree).value) <==> e in r.elements && Selects(b, r.properties, tree, e)
  {
    forall e ensures e in Matching(r, Bind(b, tree).value) <==> e in r.elements && Selects(b, r.properties, tree, e) {
      BoundSelects(b, r.properties, tree, e);
    }
  }

  /** `rows` lists the elements that the predicate selects, ascending. */
  ghost predicate AnswersWhere(rows: seq<u64>, b: Binder, r: Records, tree: Predicate) {
    && (forall i, j :: 0 <= i < j < |rows| ==> rows[i] < rows[j])
    && forall e: u64 :: e in rows <==> e in r.elements && Selects(b, r.properties, tree, e)
  }

  /** Parses, binds, picks a plan, and runs it. With the index in agreement and no property outliving its
      element, the rows are the elements the parsed predicate selects, ascending, whichever plan ran. */
  method RunWhere(ts: seq<Token>, b: Binder, index: OverlayIndex, base: BaseIndex, r: Records)
    returns (result: Answer<seq<u64>>)
    requires index.Agrees(base, r) && Integrity(r)
    ensures Whole(ts).Err? ==> result == Err(Whole(ts).error)
    ensures result.Ok? <==> Whole(ts).Ok? && AllBind(b, Comparisons(Whole(ts).value))
    ensures result.Ok? ==> AnswersWhere(result.value, b, r, Whole(ts).value)
    ensures Whole(ts).Ok? && result.Err? ==> exists i :: FirstFailing(b, Comparisons(Whole(ts).value), i, result.error)
  {
    hide Selects, Comparisons, Matching, OverlayIndex.Agrees, Whole;
    if Whole(ts).Ok? {
      var i := BindFailsFirst(b, Whole(ts).value);
      if Bind(b, Whole(ts).value).Ok? { MatchingIsSelected(b, r, Whole(ts).value); }
    }
    var op := ParseElementWhere(ts);
    if op.Err? {
      return Err(op.error);
    }
    var plan := Lower(b, op.value);
    if plan.Err? {
      return Err(plan.error);
    }
    var rows;
    match plan.value {
      case PropertyProbe(key, value) =>
        rows := ScanElementsWithProperty(index, base, key, value, r);
        IntegrityCovers(r, key, value);
        ProbeIsFilter(r, key, value);
      case Filter(bound) =>
        rows := FilterElements(r, bound);
    }
    result := Ok(rows);
  }

  lemma IntegrityCovers(r: Records, key: u64, value: PropertyValue)
    requires Integrity(r)
    ensures forall e :: Carries(r.properties, Element(e), key, value) ==> e in r.elements
  {
    forall e | Carries(r.properties, Element(e), key, value) ensures e in r.elements {
      assert SubjectVisible(r, Element(e));
    }
  }
}
