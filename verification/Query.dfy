/** Boolean queries: executing them over a segment, and parsing them. */
module Query {
  import opened Wrappers
  import opened Bytes
  import opened Segment
  import R = Roaring

  datatype Query =
    | TermQuery(term: Term)
    | AndQuery(left: Query, right: Query)
    | OrQuery(left: Query, right: Query)
    | NotQuery(left: Query, right: Query)

  // --- Execution --------------------------------------------------------------------------

  /** Some document added under the id contains the term. */
  ghost predicate Contains(docs: seq<Doc>, id: nat, t: Term) {
    exists i :: 0 <= i < |docs| && docs[i].id == id && t in Tokenize(docs[i].text)
  }

  /** The query holds of the tokens of a document id. */
  ghost predicate Holds(q: Query, docs: seq<Doc>, id: nat) {
    match q
    case TermQuery(t) => Contains(docs, id, t)
    case AndQuery(l, r) => Holds(l, docs, id) && Holds(r, docs, id)
    case OrQuery(l, r) => Holds(l, docs, id) || Holds(r, docs, id)
    case NotQuery(l, r) => Holds(l, docs, id) && !Holds(r, docs, id)
  }

  /** A segment together with the postings and the documents it was written from. */
  ghost predicate SegmentOf(data: Blob, docs: seq<Doc>) {
    exists terms, m :: IsSegment(data, terms, m) && Indexes(m, docs)
  }

  /** Every offset the dictionary gives lies in the segment, and the list there is the term's. */
  lemma TermFound(data: Blob, docs: seq<Doc>, t: Term)
    requires SegmentOf(data, docs)
    ensures forall x :: x in DictOf(data) ==> DictOf(data)[x] <= |data|
    ensures t in DictOf(data) ==> forall id :: id in ListAt(data[DictOf(data)[t]..]) <==> Contains(docs, id, t)
    ensures t !in DictOf(data) ==> forall id :: !Contains(docs, id, t)
  {
    hide IsSegment, DictOf, ListAt, SortIds, Posted, Tokenize;
    var terms, m :| IsSegment(data, terms, m) && Indexes(m, docs);
    forall x | x in DictOf(data)
      ensures DictOf(data)[x] <= |data|
    {
      FetchIsPostings(data, terms, m, x);
    }
    FetchIsPostings(data, terms, m, t);
    assert Get(m, t) == Posted(docs, t);
    if t in m {
      SegmentWidths(data, terms, m);
      WidthOf(m, t);
      SortMeaning(m[t]);
    }
    forall id
      ensures id in Posted(docs, t) <==> Contains(docs, id, t)
    {
      PostedMeaning(docs, t, id);
    }
  }

  lemma SegmentWidths(data: Blob, terms: seq<Term>, m: map<Term, seq<nat>>)
    requires IsSegment(data, terms, m)
    ensures Widths(m)
  {
  }

  method ExecuteTerm(t: Term, data: Blob, dict: map<Term, nat>, ghost docs: seq<Doc>) returns (r: R.Bitmap)
    requires SegmentOf(data, docs) && dict == DictOf(data)
    ensures fresh(r) && r.Valid() && forall id :: R.Has(r.chunks, id) <==> Contains(docs, id, t)
  {
    hide DictOf, ListAt, SegmentOf, Contains, R.WellFormed, R.Has;
    TermFound(data, docs, t);
    var ids := FetchPostings(data, dict, t);
    r := new R.Bitmap();
    EmptyHas();
    for i := 0 to |ids|
      invariant fresh(r) && r.Valid() && forall id :: R.Has(r.chunks, id) <==> id in ids[..i]
    {
      r.Add(ids[i]);
      assert ids[..i + 1] == ids[..i] + [ids[i]];
    }
    assert ids[..|ids|] == ids;
  }

  lemma EmptyHas()
    ensures forall v :: !R.Has(map[], v)
  {
  }

  /** A document id is in the result exactly when the query holds of it. */
  method Execute(q: Query, data: Blob, dict: map<Term, nat>, ghost docs: seq<Doc>) returns (r: R.Bitmap)
    requires SegmentOf(data, docs) && dict == DictOf(data)
    ensures fresh(r) && r.Valid() && forall id :: R.Has(r.chunks, id) <==> Holds(q, docs, id)
    decreases q
  {
    hide DictOf, SegmentOf, Contains, R.WellFormed, R.Has;
    match q
    case TermQuery(t) =>
      r := ExecuteTerm(t, data, dict, docs);
    case AndQuery(left, right) =>
      var a := Execute(left, data, dict, docs);
      var b := Execute(right, data, dict, docs);
      r := R.RoaringIntersect(a, b);
    case OrQuery(left, right) =>
      var a := Execute(left, data, dict, docs);
      var b := Execute(right, data, dict, docs);
      r := R.RoaringUnion(a, b);
    case NotQuery(left, right) =>
      var a := Execute(left, data, dict, docs);
      var b := Execute(right, data, dict, docs);
      r := R.RoaringDifference(a, b);
  }

  /** Search end to end: over the segment an index writes, parsed anew, the result is what the documents say. */
  method WriteAndExecute(index: MemIndex, q: Query) returns (data: Blob, r: R.Bitmap)
    requires index.Valid() && Widths(index.postings)
    ensures r.Valid() && (|data| < U64 ==> forall id :: R.Has(r.chunks, id) <==> Holds(q, index.docs, id))
  {
    hide DictOf, File, SortedTerms, Indexes, Widths, Holds, R.WellFormed, R.Has;
    var terms;
    data, terms := WriteSegment(index.postings);
    if |data| < U64 {
      SortedDistinct(terms);
      assert IsSegment(data, terms, index.postings);
      var dict := InitDict(data);
      r := Execute(q, data, dict, index.docs);
    } else {
      r := new R.Bitmap();
    }
  }

  // --- Parsing ----------------------------------------------------------------------------

  const MAX_DEPTH: nat := 50

  const LPAREN: Blob := [40]
  const RPAREN: Blob := [41]
  const AND: Blob := [65, 78, 68]
  const OR: Blob := [79, 82]
  const NOT: Blob := [78, 79, 84]

  datatype Parsed = Ok(query: Query, rest: seq<Blob>) | Err

  /** The grammar: what each rule makes of the remaining tokens at a nesting depth. */
  function ExpressionRule(ts: seq<Blob>, depth: nat): (p: Parsed)
    requires depth <= MAX_DEPTH
    ensures p.Ok? ==> |p.rest| < |ts|
    decreases MAX_DEPTH - depth, |ts|
  {
    if depth + 1 > MAX_DEPTH then Err
    else
      match TermRule(ts, depth + 1)
      case Err => Err
      case Ok(l, rest) => OrLoop(l, rest, depth + 1)
  }

  function OrLoop(left: Query, ts: seq<Blob>, depth: nat): (p: Parsed)
    requires depth <= MAX_DEPTH
    ensures p.Ok? ==> |p.rest| <= |ts|
    decreases MAX_DEPTH - depth, |ts|
  {
    if ts == [] || ts[0] != OR then Ok(left, ts)
    else
      match TermRule(ts[1..], depth)
      case Err => Err
      case Ok(r, rest) => OrLoop(OrQuery(left, r), rest, depth)
  }

  function TermRule(ts: seq<Blob>, depth: nat): (p: Parsed)
    requires depth <= MAX_DEPTH
    ensures p.Ok? ==> |p.rest| < |ts|
    decreases MAX_DEPTH - depth, |ts|
  {
    if depth + 1 > MAX_DEPTH then Err
    else
      match FactorRule(ts, depth + 1)
      case Err => Err
      case Ok(l, rest) => AndLoop(l, rest, depth + 1)
  }

  function AndLoop(left: Query, ts: seq<Blob>, depth: nat): (p: Parsed)
    requires depth <= MAX_DEPTH
    ensures p.Ok? ==> |p.rest| <= |ts|
    decreases MAX_DEPTH - depth, |ts|
  {
    if ts == [] || (ts[0] != AND && ts[0] != NOT) then Ok(left, ts)
    else
      match FactorRule(ts[1..], depth)
      case Err => Err
      case Ok(r, rest) => AndLoop(if ts[0] == AND then AndQuery(left, r) else NotQuery(left, r), rest, depth)
  }

  function FactorRule(ts: seq<Blob>, depth: nat): (p: Parsed)
    requires depth <= MAX_DEPTH
    ensures p.Ok? ==> |p.rest| < |ts|
    decreases MAX_DEPTH - depth, |ts|
  {
    if depth + 1 > MAX_DEPTH || ts == [] then Err
    else if ts[0] == LPAREN then
      match ExpressionRule(ts[1..], depth + 1)
      case Err => Err
      case Ok(q, rest) => if rest == [] || rest[0] != RPAREN then Err else Ok(q, rest[1..])
    else if ts[0] == [] || ts[0] == RPAREN || ts[0] == AND || ts[0] == OR || ts[0] == NOT then Err
    else Ok(TermQuery(Word(ts[0])), ts[1..])
  }

  function Word(token: Blob): Term {
    var cleaned := Tokenize(token);
    if cleaned == [] then [] else cleaned[0]
  }

  class Parser {
    const tokens: seq<Blob>
    var pos: nat
    var depth: nat

    constructor (tokens: seq<Blob>)
      ensures this.tokens == tokens && pos == 0 && depth == 0
    {
      this.tokens := tokens;
      pos, depth := 0, 0;
    }

    function Current(): Blob
      reads this
    {
      if pos >= |tokens| then [] else tokens[pos]
    }

    /** What the parser has done, given what the grammar says. */
    ghost predicate Did(p: Parsed, q: Option<Query>, before: nat)
      reads this
    {
      match p
      case Err => q.None?
      case Ok(query, rest) => q == Some(query) && pos <= |tokens| && tokens[pos..] == rest && depth == before
    }

    method ParseExpression() returns (q: Option<Query>)
      requires pos <= |tokens| && depth <= MAX_DEPTH
      modifies this
      ensures Did(ExpressionRule(tokens[old(pos)..], old(depth)), q, old(depth))
      decreases MAX_DEPTH - depth
    {
      hide TermRule, FactorRule, AndLoop;
      ghost var d, start := depth, pos;
      depth := depth + 1;
      if depth > MAX_DEPTH {
        return None;
      }
      q := ParseTerm();
      if q.None? {
        return;
      }
      while Current() == OR
        invariant q.Some? && pos <= |tokens| && depth == d + 1
        invariant OrLoop(q.value, tokens[pos..], d + 1) == ExpressionRule(tokens[start..], d)
        decreases |tokens| - pos
      {
        pos := pos + 1;
        assert tokens[pos - 1..][1..] == tokens[pos..];
        var r := ParseTerm();
        if r.None? {
          return None;
        }
        q := Some(OrQuery(q.value, r.value));
      }
      depth := depth - 1;
    }

    method ParseTerm() returns (q: Option<Query>)
      requires pos <= |tokens| && depth <= MAX_DEPTH
      modifies this
      ensures Did(TermRule(tokens[old(pos)..], old(depth)), q, old(depth))
      decreases MAX_DEPTH - depth
    {
      hide ExpressionRule, FactorRule, OrLoop, AndLoop;
      ghost var d, start := depth, pos;
      depth := depth + 1;
      if depth > MAX_DEPTH {
        return None;
      }
      q := ParseFactor();
      if q.None? {
        return;
      }
      while Current() == AND || Current() == NOT
        invariant q.Some? && pos <= |tokens| && depth == d + 1
        invariant AndLoop(q.value, tokens[pos..], d + 1) == TermRule(tokens[start..], d)
        decreases |tokens| - pos
      {
        q := ParseOperand(q.value);
        if q.None? {
          return;
        }
      }
      AndStop(q.value, tokens[pos..], d + 1);
      depth := depth - 1;
    }

    /** One operator and its right operand. */
    method ParseOperand(left: Query) returns (q: Option<Query>)
      requires pos < |tokens| && (tokens[pos] == AND || tokens[pos] == NOT) && 0 < depth <= MAX_DEPTH
      modifies this
      ensures q.None? ==> AndLoop(left, tokens[old(pos)..], old(depth)) == Err
      ensures q.Some? ==> old(pos) < pos <= |tokens| && depth == old(depth)
      ensures q.Some? ==> AndLoop(q.value, tokens[pos..], depth) == AndLoop(left, tokens[old(pos)..], depth)
      decreases MAX_DEPTH - depth, 1
    {
      hide ExpressionRule, FactorRule, OrLoop, AndLoop, TermRule;
      AndStep(left, tokens, pos, depth);
      var op := Current();
      pos := pos + 1;
      q := ParseFactor();
      if q.Some? {
        assert |tokens[pos..]| < |tokens| - old(pos);
        q := Some(if op == AND then AndQuery(left, q.value) else NotQuery(left, q.value));
      }
    }

    method ParseFactor() returns (q: Option<Query>)
      requires pos <= |tokens| && depth <= MAX_DEPTH
      modifies this
      ensures Did(FactorRule(tokens[old(pos)..], old(depth)), q, old(depth))
      decreases MAX_DEPTH - depth, 0
    {
      hide ExpressionRule, TermRule, OrLoop, AndLoop, Word;
      depth := depth + 1;
      if depth > MAX_DEPTH {
        return None;
      }
      var token := Current();
      if token == LPAREN {
        pos := pos + 1;
        assert tokens[pos - 1..][1..] == tokens[pos..];
        q := ParseExpression();
        if q.None? {
          return;
        }
        var close := Current();
        pos := pos + 1;
        if close != RPAREN {
          return None;
        }
        assert tokens[pos - 1..][1..] == tokens[pos..];
      } else {
        if token == [] || token == RPAREN || token == AND || token == OR || token == NOT {
          return None;
        }
        pos := pos + 1;
        assert tokens[pos - 1..][1..] == tokens[pos..];
        q := Some(TermQuery(Word(token)));
      }
      depth := depth - 1;
    }
  }

  lemma AndStep(left: Query, tokens: seq<Blob>, pos: nat, depth: nat)
    requires pos < |tokens| && (tokens[pos] == AND || tokens[pos] == NOT) && depth <= MAX_DEPTH
    ensures AndLoop(left, tokens[pos..], depth) ==
      match FactorRule(tokens[pos + 1..], depth)
      case Err => Err
      case Ok(r, rest) => AndLoop(if tokens[pos] == AND then AndQuery(left, r) else NotQuery(left, r), rest, depth)
  {
    hide FactorRule;
    assert tokens[pos..][1..] == tokens[pos + 1..];
  }

  lemma AndStop(left: Query, ts: seq<Blob>, depth: nat)
    requires Stops(ts) && depth <= MAX_DEPTH
    ensures AndLoop(left, ts, depth) == Ok(left, ts)
  {
  }

  method ParseTokens(tokens: seq<Blob>) returns (q: Option<Query>)
    ensures q == match ExpressionRule(tokens, 0) case Err => None case Ok(query, _) => Some(query)
  {
    hide ExpressionRule;
    var p := new Parser(tokens);
    assert tokens[0..] == tokens;
    q := p.ParseExpression();
  }

  // --- Printing ---------------------------------------------------------------------------

  /** The tokens of a query where an expression (0), a term (1) or a factor (2) is expected. */
  function Print(q: Query, level: nat): (ts: seq<Blob>)
    decreases q, level
  {
    match q
    case TermQuery(t) => [t]
    case OrQuery(l, r) =>
      if level == 0 then Print(l, 0) + ([OR] + Print(r, 1)) else [LPAREN] + (Print(q, 0) + [RPAREN])
    case AndQuery(l, r) =>
      if level <= 1 then Print(l, 1) + ([AND] + Print(r, 2)) else [LPAREN] + (Print(q, 0) + [RPAREN])
    case NotQuery(l, r) =>
      if level <= 1 then Print(l, 1) + ([NOT] + Print(r, 2)) else [LPAREN] + (Print(q, 0) + [RPAREN])
  }

  function Max(a: nat, b: nat): nat { if a >= b then a else b }

  /** How deep the parentheses nest in the printed query. */
  function Nest(q: Query, level: nat): nat
    decreases q, level
  {
    match q
    case TermQuery(t) => 0
    case OrQuery(l, r) => if level == 0 then Max(Nest(l, 0), Nest(r, 1)) else 1 + Nest(q, 0)
    case AndQuery(l, r) => if level <= 1 then Max(Nest(l, 1), Nest(r, 2)) else 1 + Nest(q, 0)
    case NotQuery(l, r) => if level <= 1 then Max(Nest(l, 1), Nest(r, 2)) else 1 + Nest(q, 0)
  }

  predicate CleanQuery(q: Query) {
    match q
    case TermQuery(t) => Clean(t)
    case AndQuery(l, r) => CleanQuery(l) && CleanQuery(r)
    case OrQuery(l, r) => CleanQuery(l) && CleanQuery(r)
    case NotQuery(l, r) => CleanQuery(l) && CleanQuery(r)
  }

  /** The tail does not continue a term. */
  predicate Stops(tail: seq<Blob>) { tail == [] || (tail[0] != AND && tail[0] != NOT) }

  lemma FactorTerm(t: Term, tail: seq<Blob>, d: nat)
    requires Clean(t) && d < MAX_DEPTH
    ensures FactorRule([t] + tail, d) == Ok(TermQuery(t), tail)
  {
    hide ExpressionRule, Tokenize;
    TokenizeClean(t);
    assert AlphaNumeric(t[0]) && LowerCase(t[0]) == t[0];
    assert ([t] + tail)[1..] == tail;
  }

  lemma {:induction false} FactorPrinted(q: Query, tail: seq<Blob>, d: nat)
    requires CleanQuery(q) && d <= MAX_DEPTH
    ensures FactorRule(Print(q, 2) + tail, d) == if d + 1 + 3 * Nest(q, 2) <= MAX_DEPTH then Ok(q, tail) else Err
    decreases q, if q.TermQuery? || q.OrQuery? then 1 else 4
  {
    hide Tokenize, TermRule, AndLoop;
    if d < MAX_DEPTH {
      if q.TermQuery? {
        FactorTerm(q.term, tail, d);
      } else {
        var close := [RPAREN] + tail;
        ParensPrinted(q, tail);
        if q.OrQuery? {
          OrPrinted(q, close, d + 1);
        } else {
          ExpressionPrinted(q, close, d + 1);
        }
        assert close[1..] == tail;
      }
    }
  }

  lemma ParensPrinted(q: Query, tail: seq<Blob>)
    requires !q.TermQuery?
    ensures var ts := Print(q, 2) + tail;
      ts != [] && ts[0] == LPAREN && ts[1..] == Print(q, 0) + ([RPAREN] + tail) && Nest(q, 2) == 1 + Nest(q, 0)
  {
    var inner := Print(q, 0);
    assert Print(q, 2) == [LPAREN] + (inner + [RPAREN]);
    ConcatAssoc(inner, [RPAREN], tail);
  }

  lemma {:induction false} TermPrinted(q: Query, tail: seq<Blob>, d: nat)
    requires CleanQuery(q) && d <= MAX_DEPTH
    ensures TermRule(Print(q, 1) + tail, d) ==
      if d + 2 + 3 * Nest(q, 1) <= MAX_DEPTH then AndLoop(q, tail, d + 1) else Err
    decreases q, 2
  {
    hide Tokenize, ExpressionRule, OrLoop, FactorRule;
    if q.AndQuery? || q.NotQuery? {
      var op := if q.AndQuery? then AND else NOT;
      var after := [op] + (Print(q.right, 2) + tail);
      assert Print(q, 1) + tail == Print(q.left, 1) + after by {
        ConcatAssoc(Print(q.left, 1), [op] + Print(q.right, 2), tail);
        ConcatAssoc([op], Print(q.right, 2), tail);
      }
      TermPrinted(q.left, after, d);
      if d + 1 <= MAX_DEPTH {
        FactorPrinted(q.right, tail, d + 1);
        assert after[1..] == Print(q.right, 2) + tail;
      }
    } else {
      assert Print(q, 1) == Print(q, 2) && Nest(q, 1) == Nest(q, 2);
      if d + 1 <= MAX_DEPTH {
        FactorPrinted(q, tail, d + 1);
      }
    }
  }

  lemma {:induction false} ExpressionPrinted(q: Query, tail: seq<Blob>, d: nat)
    requires CleanQuery(q) && d <= MAX_DEPTH && Stops(tail)
    ensures ExpressionRule(Print(q, 0) + tail, d) ==
      if d + 3 + 3 * Nest(q, 0) <= MAX_DEPTH then OrLoop(q, tail, d + 1) else Err
    decreases q, 3
  {
    hide Tokenize, TermRule, FactorRule, OrLoop;
    if q.OrQuery? {
      OrPrinted(q, tail, d);
    } else {
      assert Print(q, 0) == Print(q, 1) && Nest(q, 0) == Nest(q, 1);
      if d + 1 <= MAX_DEPTH {
        TermPrinted(q, tail, d + 1);
      }
    }
  }

  lemma {:induction false} OrPrinted(q: Query, tail: seq<Blob>, d: nat)
    requires CleanQuery(q) && d <= MAX_DEPTH && Stops(tail) && q.OrQuery?
    ensures ExpressionRule(Print(q, 0) + tail, d) ==
      if d + 3 + 3 * Nest(q, 0) <= MAX_DEPTH then OrLoop(q, tail, d + 1) else Err
    decreases q, 0
  {
    hide Tokenize, TermRule, FactorRule;
    var after := [OR] + (Print(q.right, 1) + tail);
    assert Print(q, 0) + tail == Print(q.left, 0) + after by {
      ConcatAssoc(Print(q.left, 0), [OR] + Print(q.right, 1), tail);
      ConcatAssoc([OR], Print(q.right, 1), tail);
    }
    ExpressionPrinted(q.left, after, d);
    if d + 1 <= MAX_DEPTH {
      TermPrinted(q.right, tail, d + 1);
      assert after[1..] == Print(q.right, 1) + tail;
    }
  }

  /** Printing and parsing: a query over clean terms parses back to itself, using up its tokens, exactly when its
      parentheses nest at most 15 deep; otherwise it is refused.
   */
  lemma ParsePrinted(q: Query)
    requires CleanQuery(q)
    ensures ExpressionRule(Print(q, 0), 0) == if Nest(q, 0) <= 15 then Ok(q, []) else Err
  {
    hide ExpressionRule, Print, Nest;
    ExpressionPrinted(q, [], 0);
    assert Print(q, 0) + [] == Print(q, 0);
  }

  /** Whatever follows, sixteen opening parentheses are too many. */
  lemma {:induction false} TooDeep(ts: seq<Blob>, n: nat, d: nat)
    requires n <= |ts| && d <= MAX_DEPTH && d + 3 * (n + 1) > MAX_DEPTH && forall i :: 0 <= i < n ==> ts[i] == LPAREN
    ensures ExpressionRule(ts, d).Err?
    decreases n
  {
    hide OrLoop, AndLoop, Tokenize;
    if d + 3 <= MAX_DEPTH {
      TooDeep(ts[1..], n - 1, d + 3);
      assert FactorRule(ts, d + 2).Err?;
      assert TermRule(ts, d + 1).Err?;
    }
  }

  // --- The grammar ------------------------------------------------------------------------

  /** The tokens are a factor that means `q`: a word, or an expression in parentheses, nested at most `m` deep. Of a
      word its first run of letters and digits counts.
   */
  ghost predicate IsFactor(q: Query, ts: seq<Blob>, m: nat)
    decreases |ts|, 0
  {
    || (|ts| == 1 && ts[0] !in {[], [40], [41], [65, 78, 68], [79, 82], [78, 79, 84]}
        && q == TermQuery(if Tokenize(ts[0]) == [] then [] else Tokenize(ts[0])[0]))
    || (m > 0 && |ts| >= 2 && ts[0] == [40] && ts[|ts| - 1] == [41] && IsExpression(q, ts[1..|ts| - 1], m - 1))
  }

  /** A term: factors joined by AND and NOT, which bind to the left. */
  ghost predicate IsTerm(q: Query, ts: seq<Blob>, m: nat)
    decreases |ts|, 1
  {
    || IsFactor(q, ts, m)
    || (q.AndQuery? && exists i ::
          0 <= i < |ts| && ts[i] == [65, 78, 68] && IsTerm(q.left, ts[..i], m) && IsFactor(q.right, ts[i + 1..], m))
    || (q.NotQuery? && exists i ::
          0 <= i < |ts| && ts[i] == [78, 79, 84] && IsTerm(q.left, ts[..i], m) && IsFactor(q.right, ts[i + 1..], m))
  }

  /** An expression: terms joined by OR, which binds to the left and weaker than the others. */
  ghost predicate IsExpression(q: Query, ts: seq<Blob>, m: nat)
    decreases |ts|, 2
  {
    || IsTerm(q, ts, m)
    || (q.OrQuery? && exists i ::
          0 <= i < |ts| && ts[i] == [79, 82] && IsExpression(q.left, ts[..i], m) && IsTerm(q.right, ts[i + 1..], m))
  }

  lemma FactorParens(q: Query, ts: seq<Blob>, m: nat)
    requires m > 0 && IsExpression(q, ts, m - 1)
    ensures IsFactor(q, [[40]] + ts + [[41]], m)
  {
    hide IsExpression;
    var all := [[40]] + ts + [[41]];
    assert all[1..|all| - 1] == ts;
  }

  lemma TermJoin(l: Query, a: seq<Blob>, op: Blob, r: Query, b: seq<Blob>, m: nat)
    requires (op == AND || op == NOT) && IsTerm(l, a, m) && IsFactor(r, b, m)
    ensures IsTerm(if op == AND then AndQuery(l, r) else NotQuery(l, r), a + [op] + b, m)
  {
    hide IsFactor;
    var ts, i := a + [op] + b, |a|;
    assert ts[i] == op && ts[..i] == a && ts[i + 1..] == b;
  }

  lemma ExpressionJoin(l: Query, a: seq<Blob>, r: Query, b: seq<Blob>, m: nat)
    requires IsExpression(l, a, m) && IsTerm(r, b, m)
    ensures IsExpression(OrQuery(l, r), a + [OR] + b, m)
  {
    hide IsTerm;
    var ts, i := a + [OR] + b, |a|;
    assert ts[i] == OR && ts[..i] == a && ts[i + 1..] == b;
  }

  /** Neither continues a term nor an expression. */
  predicate Over(tail: seq<Blob>) { Stops(tail) && (tail == [] || tail[0] != OR) }

  // --- What is parsed is derived ----------------------------------------------------------

  lemma {:induction false} FactorSound(ts: seq<Blob>, d: nat) returns (n: nat)
    requires d <= MAX_DEPTH && FactorRule(ts, d).Ok?
    ensures d < MAX_DEPTH && n <= |ts| && FactorRule(ts, d).rest == ts[n..]
    ensures IsFactor(FactorRule(ts, d).query, ts[..n], (MAX_DEPTH - d - 1) / 3)
    decreases MAX_DEPTH - d, |ts|
  {
    hide Tokenize, TermRule, OrLoop, IsTerm;
    if ts[0] == LPAREN {
      var inner := ts[1..];
      var k := ExpressionSound(inner, d + 1);
      n := k + 2;
      var q := FactorRule(ts, d).query;
      FactorParens(q, inner[..k], (MAX_DEPTH - d - 1) / 3);
      assert ts[..n] == [[40]] + inner[..k] + [[41]];
    } else {
      n := 1;
      assert ts[..1] == [ts[0]];
    }
  }

  lemma {:induction false} TermSound(ts: seq<Blob>, d: nat) returns (n: nat)
    requires d <= MAX_DEPTH && TermRule(ts, d).Ok?
    ensures d + 1 < MAX_DEPTH && n <= |ts| && TermRule(ts, d).rest == ts[n..] && Stops(ts[n..])
    ensures IsTerm(TermRule(ts, d).query, ts[..n], (MAX_DEPTH - d - 2) / 3)
    decreases MAX_DEPTH - d, |ts|
  {
    hide FactorRule, IsFactor;
    n := FactorSound(ts, d + 1);
    var l := FactorRule(ts, d + 1).query;
    n := AndLoopSound(ts, n, l, d + 1);
  }

  lemma {:induction false} AndLoopSound(ts: seq<Blob>, n: nat, left: Query, d: nat) returns (k: nat)
    requires d < MAX_DEPTH && n <= |ts| && AndLoop(left, ts[n..], d).Ok?
    requires IsTerm(left, ts[..n], (MAX_DEPTH - d - 1) / 3)
    ensures k <= |ts| && AndLoop(left, ts[n..], d).rest == ts[k..] && Stops(ts[k..])
    ensures IsTerm(AndLoop(left, ts[n..], d).query, ts[..k], (MAX_DEPTH - d - 1) / 3)
    decreases MAX_DEPTH - d, |ts| - n
  {
    hide FactorRule, IsFactor, IsTerm;
    k := n;
    if !Stops(ts[n..]) {
      AndStep(left, ts, n, d);
      var op, tail := ts[n], ts[n + 1..];
      var j := FactorSound(tail, d);
      var r := FactorRule(tail, d).query;
      var next := n + 1 + j;
      TermJoin(left, ts[..n], op, r, tail[..j], (MAX_DEPTH - d - 1) / 3);
      assert ts[..next] == ts[..n] + [op] + tail[..j] && ts[next..] == tail[j..];
      k := AndLoopSound(ts, next, if op == AND then AndQuery(left, r) else NotQuery(left, r), d);
    }
  }

  lemma {:induction false} ExpressionSound(ts: seq<Blob>, d: nat) returns (n: nat)
    requires d <= MAX_DEPTH && ExpressionRule(ts, d).Ok?
    ensures d + 2 < MAX_DEPTH && n <= |ts| && ExpressionRule(ts, d).rest == ts[n..] && Over(ts[n..])
    ensures IsExpression(ExpressionRule(ts, d).query, ts[..n], (MAX_DEPTH - d - 3) / 3)
    decreases MAX_DEPTH - d, |ts|
  {
    hide TermRule, IsTerm;
    n := TermSound(ts, d + 1);
    var l := TermRule(ts, d + 1).query;
    n := OrLoopSound(ts, n, l, d + 1);
  }

  lemma {:induction false} OrLoopSound(ts: seq<Blob>, n: nat, left: Query, d: nat) returns (k: nat)
    requires d + 1 < MAX_DEPTH && n <= |ts| && OrLoop(left, ts[n..], d).Ok? && Stops(ts[n..])
    requires IsExpression(left, ts[..n], (MAX_DEPTH - d - 2) / 3)
    ensures k <= |ts| && OrLoop(left, ts[n..], d).rest == ts[k..] && Over(ts[k..])
    ensures IsExpression(OrLoop(left, ts[n..], d).query, ts[..k], (MAX_DEPTH - d - 2) / 3)
    decreases MAX_DEPTH - d, |ts| - n
  {
    hide TermRule, IsTerm, IsExpression;
    k := n;
    if ts[n..] != [] && ts[n] == OR {
      var tail := ts[n + 1..];
      assert ts[n..][1..] == tail;
      var j := TermSound(tail, d);
      var r := TermRule(tail, d).query;
      var next := n + 1 + j;
      ExpressionJoin(left, ts[..n], r, tail[..j], (MAX_DEPTH - d - 2) / 3);
      assert ts[..next] == ts[..n] + [OR] + tail[..j] && ts[next..] == tail[j..];
      k := OrLoopSound(ts, next, OrQuery(left, r), d);
    }
  }

  // --- What is derived is parsed ----------------------------------------------------------

  lemma {:induction false} FactorComplete(q: Query, ts: seq<Blob>, m: nat, tail: seq<Blob>, d: nat)
    requires IsFactor(q, ts, m) && d + 1 + 3 * m <= MAX_DEPTH
    ensures FactorRule(ts + tail, d) == Ok(q, tail)
    decreases |ts|, 0
  {
    hide Tokenize, ExpressionRule, IsExpression;
    var all := ts + tail;
    if |ts| == 1 && ts[0] != LPAREN {
      assert all[0] == ts[0] && all[1..] == tail;
    } else {
      var inner, close := ts[1..|ts| - 1], [RPAREN] + tail;
      ExpressionComplete(q, inner, m - 1, close, d + 1);
      OrStop(q, close, d + 2);
      assert all[1..] == inner + close && close[1..] == tail;
    }
  }

  lemma OrStop(left: Query, ts: seq<Blob>, depth: nat)
    requires depth <= MAX_DEPTH && (ts == [] || ts[0] != OR)
    ensures OrLoop(left, ts, depth) == Ok(left, ts)
  {
  }

  lemma TermStart(ts: seq<Blob>, d: nat, q: Query, tail: seq<Blob>)
    requires d < MAX_DEPTH && FactorRule(ts, d + 1) == Ok(q, tail)
    ensures TermRule(ts, d) == AndLoop(q, tail, d + 1)
  {
    hide FactorRule, AndLoop;
  }

  lemma {:induction false} TermComplete(q: Query, ts: seq<Blob>, m: nat, tail: seq<Blob>, d: nat)
    requires IsTerm(q, ts, m) && d + 2 + 3 * m <= MAX_DEPTH
    ensures TermRule(ts + tail, d) == AndLoop(q, tail, d + 1)
    decreases |ts|, 1
  {
    hide FactorRule, IsFactor, ExpressionRule, TermRule, AndLoop;
    if IsFactor(q, ts, m) {
      FactorComplete(q, ts, m, tail, d + 1);
      TermStart(ts + tail, d, q, tail);
    } else {
      var op := if q.AndQuery? then AND else NOT;
      var i :| 0 <= i < |ts| && ts[i] == op && IsTerm(q.left, ts[..i], m) && IsFactor(q.right, ts[i + 1..], m);
      var after := [op] + (ts[i + 1..] + tail);
      assert ts + tail == ts[..i] + after;
      TermComplete(q.left, ts[..i], m, after, d);
      FactorComplete(q.right, ts[i + 1..], m, tail, d + 1);
      assert after[0..] == after && after[1..] == ts[i + 1..] + tail;
      AndStep(q.left, after, 0, d + 1);
    }
  }

  lemma {:induction false} ExpressionComplete(q: Query, ts: seq<Blob>, m: nat, tail: seq<Blob>, d: nat)
    requires IsExpression(q, ts, m) && d + 3 + 3 * m <= MAX_DEPTH && Stops(tail)
    ensures ExpressionRule(ts + tail, d) == OrLoop(q, tail, d + 1)
    decreases |ts|, 2
  {
    hide TermRule, IsTerm, FactorRule, AndLoop;
    if IsTerm(q, ts, m) {
      TermComplete(q, ts, m, tail, d + 1);
      AndStop(q, tail, d + 2);
    } else {
      var i :| 0 <= i < |ts| && ts[i] == OR && IsExpression(q.left, ts[..i], m) && IsTerm(q.right, ts[i + 1..], m);
      var after := [OR] + (ts[i + 1..] + tail);
      assert ts + tail == ts[..i] + after;
      ExpressionComplete(q.left, ts[..i], m, after, d);
      TermComplete(q.right, ts[i + 1..], m, tail, d + 1);
      AndStop(q.right, tail, d + 2);
      assert after[1..] == ts[i + 1..] + tail;
    }
  }

  /** The parser is the grammar: it gives `q` if and only if some beginning of the tokens is an expression that means
      `q`, with parentheses nested at most 15 deep, and no operator follows it; what follows is ignored.
   */
  lemma ParseExact(ts: seq<Blob>, q: Query)
    ensures (ExpressionRule(ts, 0).Ok? && ExpressionRule(ts, 0).query == q) <==> Parses(ts, q)
  {
    hide ExpressionRule, IsExpression;
    if ExpressionRule(ts, 0).Ok? {
      var n := ExpressionSound(ts, 0);
      if ExpressionRule(ts, 0).query == q {
        assert Beginning(ts, q, n);
      }
    }
    if n: nat :| Beginning(ts, q, n) {
      ExpressionComplete(q, ts[..n], 15, ts[n..], 0);
      OrStop(q, ts[n..], 1);
      assert ts == ts[..n] + ts[n..];
    }
  }

  ghost predicate Beginning(ts: seq<Blob>, q: Query, n: nat) {
    && n <= |ts| && IsExpression(q, ts[..n], 15)
    && (n < |ts| ==> ts[n] !in {[65, 78, 68], [79, 82], [78, 79, 84]})
  }

  ghost predicate Parses(ts: seq<Blob>, q: Query) {
    exists n: nat :: Beginning(ts, q, n)
  }

  // --- Query texts ------------------------------------------------------------------------

  predicate IsSpace(b: Byte) { 9 <= b <= 13 || b == 32 }

  predicate IsParen(b: Byte) { b == 40 || b == 41 }

  /** Every parenthesis gets a space on either side. */
  function SpaceOut(text: Blob): Blob {
    if text == [] then [] else Spaced(text[0]) + SpaceOut(text[1..])
  }

  function Spaced(b: Byte): Blob { if IsParen(b) then [32, b, 32] else [b] }

  /** The words between runs of white space, the first of which continues `word`. */
  function SplitWords(text: Blob, word: Blob): seq<Blob> {
    if text == [] then Flush(word)
    else if IsSpace(text[0]) then Flush(word) + SplitWords(text[1..], [])
    else SplitWords(text[1..], word + [text[0]])
  }

  function TokensOf(text: Blob): seq<Blob> { SplitWords(SpaceOut(text), []) }

  method ParseQuery(text: Blob) returns (q: Option<Query>)
    ensures q == match ExpressionRule(TokensOf(text), 0) case Err => None case Ok(query, _) => Some(query)
    ensures forall query :: q == Some(query) <==> Parses(TokensOf(text), query)
  {
    hide ExpressionRule, SplitWords, SpaceOut, Parses;
    forall query
      ensures (ExpressionRule(TokensOf(text), 0).Ok? && ExpressionRule(TokensOf(text), 0).query == query)
              <==> Parses(TokensOf(text), query)
    {
      ParseExact(TokensOf(text), query);
    }
    q := ParseTokens(TokensOf(text));
  }

  /** White space stands between tokens and belongs to none. */
  lemma TokensAtSpace(a: Blob, c: Byte, b: Blob)
    requires c == 32 || 9 <= c <= 13
    ensures TokensOf(a + [c] + b) == TokensOf(a) + TokensOf(b)
  {
    hide SplitWords, SpaceOut;
    SpacedParts(a, c, b);
    SplitAtSpace(SpaceOut(a), c, SpaceOut(b), []);
  }

  /** A parenthesis is a token of its own, whatever stands beside it. */
  lemma TokensAtParen(a: Blob, c: Byte, b: Blob)
    requires c == 40 || c == 41
    ensures TokensOf(a + [c] + b) == TokensOf(a) + [[c]] + TokensOf(b)
  {
    hide SplitWords, SpaceOut;
    SpacedParts(a, c, b);
    var x, y := SpaceOut(a), SpaceOut(b);
    assert x + [32, c, 32] + y == x + [32] + ([c] + [32] + y);
    SplitAtSpace(x, 32, [c] + [32] + y, []);
    SplitAtSpace([c], 32, y, []);
    OneByte(c);
    ConcatAssoc(SplitWords(x, []), [[c]], SplitWords(y, []));
  }

  /** A text without white space and parentheses is one token. */
  lemma TokensOfWord(text: Blob)
    requires forall i :: 0 <= i < |text| ==> text[i] != 32 && text[i] != 40 && text[i] != 41 && !(9 <= text[i] <= 13)
    ensures TokensOf(text) == if text == [] then [] else [text]
  {
    SpaceOutWord(text);
    SplitWord(text, [], []);
    assert text + [] == text && [] + text == text;
  }

  lemma SpacedParts(a: Blob, c: Byte, b: Blob)
    ensures SpaceOut(a + [c] + b) == SpaceOut(a) + (if c == 40 || c == 41 then [32, c, 32] else [c]) + SpaceOut(b)
  {
    hide SpaceOut;
    SpaceOutConcat(a + [c], b);
    SpaceOutConcat(a, [c]);
    OneSpaced(c);
  }

  lemma OneSpaced(c: Byte)
    ensures SpaceOut([c]) == if c == 40 || c == 41 then [32, c, 32] else [c]
  {
    assert [c][1..] == [];
  }

  lemma OneByte(c: Byte)
    requires c == 40 || c == 41
    ensures SplitWords([c], []) == [[c]]
  {
    assert [c][1..] == [] && [] + [c] == [c];
  }

  lemma {:induction false} SplitAtSpace(a: Blob, c: Byte, b: Blob, word: Blob)
    requires IsSpace(c)
    ensures SplitWords(a + [c] + b, word) == SplitWords(a, word) + SplitWords(b, [])
    decreases |a|
  {
    var text := a + [c] + b;
    if a == [] {
      assert text[0] == c && text[1..] == b;
    } else {
      assert text[0] == a[0] && text[1..] == a[1..] + [c] + b;
      SplitAtSpace(a[1..], c, b, if IsSpace(a[0]) then [] else word + [a[0]]);
      if IsSpace(a[0]) {
        ConcatAssoc(Flush(word), SplitWords(a[1..], []), SplitWords(b, []));
      }
    }
  }

  /** A parenthesis, or a word without parentheses and white space. */
  predicate Solid(t: Blob) {
    t == LPAREN || t == RPAREN || (t != [] && forall i :: 0 <= i < |t| ==> !IsSpace(t[i]) && !IsParen(t[i]))
  }

  /** The tokens as a text, each followed by a space. */
  function Join(ts: seq<Blob>): Blob {
    if ts == [] then [] else ts[0] + ([32] + Join(ts[1..]))
  }

  lemma {:induction false} SpaceOutConcat(a: Blob, b: Blob)
    ensures SpaceOut(a + b) == SpaceOut(a) + SpaceOut(b)
  {
    hide Spaced;
    if a == [] {
      assert a + b == b;
    } else {
      SpaceOutConcat(a[1..], b);
      assert (a + b)[1..] == a[1..] + b;
      ConcatAssoc(Spaced(a[0]), SpaceOut(a[1..]), SpaceOut(b));
    }
  }

  lemma {:induction false} SpaceOutWord(t: Blob)
    requires forall i :: 0 <= i < |t| ==> !IsParen(t[i])
    ensures SpaceOut(t) == t
  {
    if t != [] {
      SpaceOutWord(t[1..]);
    }
  }

  lemma {:induction false} SplitWord(t: Blob, rest: Blob, word: Blob)
    requires forall i :: 0 <= i < |t| ==> !IsSpace(t[i])
    ensures SplitWords(t + rest, word) == SplitWords(rest, word + t)
    decreases |t|
  {
    if t == [] {
      assert t + rest == rest && word + t == word;
    } else {
      assert (t + rest)[1..] == t[1..] + rest;
      SplitWord(t[1..], rest, word + [t[0]]);
      assert word + [t[0]] + t[1..] == word + t;
    }
  }

  lemma SolidToken(t: Blob)
    requires Solid(t)
    ensures TokensOf(t) == [t]
  {
    hide TokensOf;
    if t == LPAREN || t == RPAREN {
      TokensAtParen([], t[0], []);
      TokensOfWord([]);
      assert [] + [t[0]] + [] == t;
    } else {
      TokensOfWord(t);
    }
  }

  /** Splitting a text of joined tokens gives the tokens. */
  lemma {:induction false} TokensOfJoin(ts: seq<Blob>)
    requires forall i :: 0 <= i < |ts| ==> Solid(ts[i])
    ensures TokensOf(Join(ts)) == ts
  {
    hide TokensOf, Solid;
    if ts == [] {
      TokensOfWord([]);
    } else {
      var rest := Join(ts[1..]);
      TokensOfJoin(ts[1..]);
      ConcatAssoc(ts[0], [32], rest);
      TokensAtSpace(ts[0], 32, rest);
      SolidToken(ts[0]);
    }
  }

  lemma CleanSolid(t: Term)
    requires Clean(t)
    ensures Solid(t)
  {
    forall i | 0 <= i < |t|
      ensures !IsSpace(t[i]) && !IsParen(t[i])
    {
      assert AlphaNumeric(t[i]);
    }
  }

  lemma {:induction false} PrintedSolid(q: Query, level: nat)
    requires CleanQuery(q)
    ensures forall t :: t in Print(q, level) ==> Solid(t)
    decreases q, level
  {
    hide Clean;
    match q
    case TermQuery(t) => CleanSolid(t);
    case OrQuery(l, r) =>
      if level == 0 {
        PrintedSolid(l, 0);
        PrintedSolid(r, 1);
      } else {
        PrintedSolid(q, 0);
      }
    case AndQuery(l, r) =>
      if level <= 1 {
        PrintedSolid(l, 1);
        PrintedSolid(r, 2);
      } else {
        PrintedSolid(q, 0);
      }
    case NotQuery(l, r) =>
      if level <= 1 {
        PrintedSolid(l, 1);
        PrintedSolid(r, 2);
      } else {
        PrintedSolid(q, 0);
      }
  }

  /** The same as a text: a query printed with the fewest parentheses parses back to itself, and is refused when they
      nest more than 15 deep.
   */
  lemma ParseTextPrinted(q: Query)
    requires CleanQuery(q)
    ensures ExpressionRule(TokensOf(Join(Print(q, 0))), 0) == if Nest(q, 0) <= 15 then Ok(q, []) else Err
  {
    hide ExpressionRule, Print, Nest, TokensOf, Join, Solid;
    PrintedSolid(q, 0);
    var ts := Print(q, 0);
    assert forall i :: 0 <= i < |ts| ==> ts[i] in ts;
    TokensOfJoin(ts);
    ParsePrinted(q);
  }
}
