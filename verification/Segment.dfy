/** The full-text index: tokens, posting lists in memory, and the segment file they are written to and read from. */
module Segment {
  import opened Wrappers
  import opened Bytes

  type Term = Blob

  const U32: nat := 0x1_0000_0000

  // --- Tokens -----------------------------------------------------------------------------

  function LowerCase(b: Byte): Byte { if 65 <= b <= 90 then b + 32 else b }

  predicate AlphaNumeric(b: Byte) { 97 <= b <= 122 || 65 <= b <= 90 || 48 <= b <= 57 }

  /** A non-empty run of lower-case letters and digits. */
  predicate Clean(t: Term) {
    t != [] && forall i :: 0 <= i < |t| ==> AlphaNumeric(t[i]) && LowerCase(t[i]) == t[i]
  }

  function Tokenize(text: Blob): seq<Term> { Fields(text, []) }

  function Flush(word: Term): seq<Term> { if word == [] then [] else [word] }

  function Fields(text: Blob, word: Term): seq<Term> {
    if text == [] then Flush(word)
    else
      var c := LowerCase(text[0]);
      if AlphaNumeric(c) then Fields(text[1..], word + [c]) else Flush(word) + Fields(text[1..], [])
  }

  lemma {:induction false} FieldsClean(text: Blob, word: Term)
    requires word == [] || Clean(word)
    ensures forall i :: 0 <= i < |Fields(text, word)| ==> Clean(Fields(text, word)[i])
  {
    if text != [] {
      var c := LowerCase(text[0]);
      FieldsClean(text[1..], if AlphaNumeric(c) then word + [c] else []);
    }
  }

  /** Every token is clean, and a clean word is its own only token. */
  lemma TokenizeClean(text: Blob)
    ensures forall i :: 0 <= i < |Tokenize(text)| ==> Clean(Tokenize(text)[i])
    ensures Clean(text) ==> Tokenize(text) == [text]
  {
    FieldsClean(text, []);
    if Clean(text) {
      FieldsOfWord(text, text, []);
      assert [] + text == text;
    }
  }

  /** Separators stand between tokens and belong to none. */
  lemma TokenizeSplit(a: Blob, c: Byte, b: Blob)
    requires !(48 <= c <= 57 || 65 <= c <= 90 || 97 <= c <= 122)
    ensures Tokenize(a + [c] + b) == Tokenize(a) + Tokenize(b)
  {
    FieldsSplit(a, c, b, []);
  }

  lemma {:induction false} FieldsSplit(a: Blob, c: Byte, b: Blob, word: Term)
    requires !AlphaNumeric(c)
    ensures Fields(a + [c] + b, word) == Fields(a, word) + Fields(b, [])
    decreases |a|
  {
    var text := a + [c] + b;
    if a == [] {
      assert text[0] == c && text[1..] == b;
    } else {
      assert text[0] == a[0] && text[1..] == a[1..] + [c] + b;
      var l := LowerCase(a[0]);
      FieldsSplit(a[1..], c, b, if AlphaNumeric(l) then word + [l] else []);
      if !AlphaNumeric(l) {
        ConcatAssoc(Flush(word), Fields(a[1..], []), Fields(b, []));
      }
    }
  }

  /** A text of letters and digits is one token: itself, with capital letters made small. */
  lemma TokenizeWord(text: Blob, small: Term)
    requires text != [] && |small| == |text|
    requires forall i :: 0 <= i < |text| ==> 48 <= text[i] <= 57 || 65 <= text[i] <= 90 || 97 <= text[i] <= 122
    requires forall i :: 0 <= i < |text| ==> small[i] == if 65 <= text[i] <= 90 then text[i] + 32 else text[i]
    ensures Tokenize(text) == [small] && Tokenize([]) == []
  {
    FieldsOfWord(text, small, []);
    assert [] + small == small;
  }

  lemma {:induction false} FieldsOfWord(text: Blob, small: Term, word: Term)
    requires |small| == |text|
    requires forall i :: 0 <= i < |text| ==> AlphaNumeric(text[i]) && small[i] == LowerCase(text[i])
    ensures Fields(text, word) == Flush(word + small)
    decreases |text|
  {
    if text == [] {
      assert word + small == word;
    } else {
      FieldsOfWord(text[1..], small[1..], word + [small[0]]);
      assert word + [small[0]] + small[1..] == word + small;
    }
  }

  // --- Posting lists in memory ------------------------------------------------------------

  datatype Doc = Doc(id: nat, text: Blob)

  /** The ids of the documents that contain the term, in the order they were added. */
  function Posted(docs: seq<Doc>, t: Term): seq<nat> {
    if docs == [] then []
    else
      var d := docs[|docs| - 1];
      Posted(docs[..|docs| - 1], t) + if t in Tokenize(d.text) then [d.id] else []
  }

  function Get(m: map<Term, seq<nat>>, t: Term): seq<nat> { if t in m then m[t] else [] }

  ghost predicate Indexes(m: map<Term, seq<nat>>, docs: seq<Doc>) {
    (forall t :: Get(m, t) == Posted(docs, t)) && forall t :: t in m ==> m[t] != []
  }

  class MemIndex {
    var postings: map<Term, seq<nat>>
    var docsCount: nat
    ghost var docs: seq<Doc>

    ghost predicate Valid()
      reads this
    {
      Indexes(postings, docs) && docsCount == |docs|
    }

    constructor ()
      ensures Valid() && docs == []
    {
      postings, docsCount, docs := map[], 0, [];
    }

    method Add(id: nat, text: Blob)
      requires Valid()
      modifies this
      ensures Valid() && docs == old(docs) + [Doc(id, text)]
    {
      hide Tokenize, Posted, Entered;
      var tokens := Tokenize(text);
      var seen: set<Term> := {};
      ghost var m0 := postings;
      EnteredNothing(m0, id);
      for i := 0 to |tokens|
        invariant forall t :: t in seen <==> t in tokens[..i]
        invariant Entered(m0, postings, id, seen)
        invariant docs == old(docs) && docsCount == old(docsCount)
      {
        var t := tokens[i];
        assert tokens[..i + 1] == tokens[..i] + [t];
        if t !in seen {
          EnteredStep(m0, postings, id, seen, t);
          postings := postings[t := Get(postings, t) + [id]];
          seen := seen + {t};
        }
      }
      assert tokens[..|tokens|] == tokens;
      docsCount := docsCount + 1;
      docs := docs + [Doc(id, text)];
      PostedSnoc(old(docs), Doc(id, text));
      EnteredAll(m0, postings, id, seen, old(docs), Doc(id, text));
    }
  }

  /** The id is appended to the lists of the terms in `seen`. */
  ghost predicate Entered(was: map<Term, seq<nat>>, m: map<Term, seq<nat>>, id: nat, seen: set<Term>) {
    && (forall t :: Get(m, t) == if t in seen then Get(was, t) + [id] else Get(was, t))
    && ((forall t :: t in was ==> was[t] != []) ==> forall t :: t in m ==> m[t] != [])
  }

  lemma EnteredNothing(m: map<Term, seq<nat>>, id: nat)
    ensures Entered(m, m, id, {})
  {
  }

  lemma EnteredStep(was: map<Term, seq<nat>>, m: map<Term, seq<nat>>, id: nat, seen: set<Term>, t: Term)
    requires Entered(was, m, id, seen) && t !in seen
    ensures Entered(was, m[t := Get(m, t) + [id]], id, seen + {t})
  {
  }

  lemma EnteredAll(was: map<Term, seq<nat>>, m: map<Term, seq<nat>>, id: nat, seen: set<Term>, docs: seq<Doc>, d: Doc)
    requires Entered(was, m, id, seen) && Indexes(was, docs) && id == d.id
    requires forall t :: t in seen <==> t in Tokenize(d.text)
    requires forall t ::
      Posted(docs + [d], t) == if t in Tokenize(d.text) then Posted(docs, t) + [d.id] else Posted(docs, t)
    ensures Indexes(m, docs + [d])
  {
    hide Tokenize, Posted;
  }

  lemma PostedSnoc(docs: seq<Doc>, d: Doc)
    ensures forall t ::
      Posted(docs + [d], t) == if t in Tokenize(d.text) then Posted(docs, t) + [d.id] else Posted(docs, t)
  {
    assert (docs + [d])[..|docs|] == docs;
    assert forall t :: Posted(docs, t) + [] == Posted(docs, t);
  }

  /** A document id is in a term's list exactly when some document added under it contains the term. */
  lemma {:induction false} PostedMeaning(docs: seq<Doc>, t: Term, v: nat)
    ensures v in Posted(docs, t) <==> exists i :: 0 <= i < |docs| && docs[i].id == v && t in Tokenize(docs[i].text)
  {
    hide Tokenize;
    if docs != [] {
      var n := |docs| - 1;
      PostedMeaning(docs[..n], t, v);
      assert forall i :: 0 <= i < n ==> docs[..n][i] == docs[i];
    }
  }

  /** `ids` are the ids of the documents at the ascending places `at`, and these are exactly those with the term. */
  ghost predicate PostedAt(docs: seq<Doc>, t: Term, ids: seq<nat>, at: seq<nat>) {
    && |at| == |ids|
    && (forall i :: 0 <= i < |at| ==> at[i] < |docs| && ids[i] == docs[at[i]].id)
    && (forall i, j :: 0 <= i < j < |at| ==> at[i] < at[j])
    && (forall n: nat :: n < |docs| ==> (n in at <==> t in Tokenize(docs[n].text)))
  }

  /** Each document that contains the term stands in the list once, in the order they were added. */
  lemma {:induction false} PostedOnce(docs: seq<Doc>, t: Term) returns (at: seq<nat>)
    ensures PostedAt(docs, t, Posted(docs, t), at)
  {
    hide Tokenize, PostedAt;
    at := [];
    if docs == [] {
      PostedNowhere(t);
    } else {
      var n := |docs| - 1;
      at := PostedOnce(docs[..n], t);
      PostedMore(docs[..n], docs[n], t, Posted(docs[..n], t), at);
      assert docs == docs[..n] + [docs[n]] && Posted(docs[..n], t) + [] == Posted(docs[..n], t);
      if t in Tokenize(docs[n].text) {
        at := at + [n];
      }
    }
  }

  lemma PostedNowhere(t: Term)
    ensures PostedAt([], t, [], [])
  {
  }

  lemma PostedMore(docs: seq<Doc>, d: Doc, t: Term, ids: seq<nat>, at: seq<nat>)
    requires PostedAt(docs, t, ids, at)
    ensures if t in Tokenize(d.text) then PostedAt(docs + [d], t, ids + [d.id], at + [|docs|])
            else PostedAt(docs + [d], t, ids, at)
  {
    hide Tokenize;
    var all := docs + [d];
    assert forall n :: 0 <= n < |docs| ==> all[n] == docs[n];
    assert |docs| !in at;
  }

  // --- Variable-length integers -----------------------------------------------------------

  function Uvarint(x: nat): (bs: Blob)
    ensures bs != []
  {
    if x < 128 then [x] else [128 + x % 128] + Uvarint(x / 128)
  }

  /** The value and the number of bytes read; byte number `i` is next. Ten bytes at most, 64 bits at most. */
  function ReadUvarint(bs: Blob, i: nat): (r: Option<(nat, nat)>)
    ensures r.Some? ==> 0 < r.value.1 <= |bs|
    decreases |bs|
  {
    if bs == [] || i >= 10 then None
    else if bs[0] < 128 then
      if i == 9 && bs[0] > 1 then None else Some((bs[0], 1))
    else
      match ReadUvarint(bs[1..], i + 1)
      case None => None
      case Some((v, n)) => Some((bs[0] - 128 + 128 * v, n + 1))
  }

  /** What can still be read from byte `i` on. */
  function Capacity(i: nat): nat
    requires i <= 9
    decreases 9 - i
  {
    if i == 9 then 2 else 128 * Capacity(i + 1)
  }

  lemma {:induction false} ReadUvarintWritten(x: nat, rest: Blob, i: nat)
    requires i <= 9 && x < Capacity(i)
    ensures ReadUvarint(Uvarint(x) + rest, i) == Some((x, |Uvarint(x)|))
    decreases x
  {
    if x >= 128 {
      assert i < 9;
      assert x / 128 < Capacity(i + 1);
      ReadUvarintWritten(x / 128, rest, i + 1);
      assert (Uvarint(x) + rest)[1..] == Uvarint(x / 128) + rest;
    }
  }

  lemma CapacityFull()
    ensures Capacity(0) == U64
  {
    assert Capacity(7) == 128 * 128 * 2;
    assert Capacity(5) == 128 * 128 * Capacity(7);
    assert Capacity(3) == 128 * 128 * Capacity(5);
    assert Capacity(1) == 128 * 128 * Capacity(3);
  }

  // --- Posting lists as bytes -------------------------------------------------------------

  ghost predicate Ascending(ids: seq<nat>, last: nat) {
    && (forall i :: 0 <= i < |ids| ==> last <= ids[i] < U64)
    && (forall i, j :: 0 <= i < j < |ids| ==> ids[i] <= ids[j])
  }

  function Insert(x: nat, s: seq<nat>): seq<nat> {
    if s == [] || x <= s[0] then [x] + s else [s[0]] + Insert(x, s[1..])
  }

  function SortIds(s: seq<nat>): seq<nat> {
    if s == [] then [] else Insert(s[0], SortIds(s[1..]))
  }

  lemma {:induction false} InsertMeaning(x: nat, s: seq<nat>, last: nat)
    requires Ascending(s, last) && last <= x < U64
    ensures Ascending(Insert(x, s), last)
    decreases |s|
  {
    if s != [] && x > s[0] {
      InsertMeaning(x, s[1..], s[0]);
    }
  }

  lemma {:induction false} InsertMultiset(x: nat, s: seq<nat>)
    ensures multiset(Insert(x, s)) == multiset(s) + multiset{x}
  {
    if s != [] && x > s[0] {
      InsertMultiset(x, s[1..]);
      assert s == [s[0]] + s[1..];
    }
  }

  lemma {:induction false} SortMeaning(s: seq<nat>)
    requires forall i :: 0 <= i < |s| ==> s[i] < U64
    ensures Ascending(SortIds(s), 0) && multiset(SortIds(s)) == multiset(s)
    ensures |SortIds(s)| == |s| && forall x :: x in SortIds(s) <==> x in s
  {
    if s != [] {
      SortMeaning(s[1..]);
      InsertMeaning(s[0], SortIds(s[1..]), 0);
      InsertMultiset(s[0], SortIds(s[1..]));
      assert s == [s[0]] + s[1..];
    }
    SameMultiset(SortIds(s), s);
  }

  lemma SameMultiset(a: seq<nat>, b: seq<nat>)
    requires multiset(a) == multiset(b)
    ensures |a| == |b| && forall x :: x in a <==> x in b
  {
    assert |multiset(a)| == |a| && |multiset(b)| == |b|;
    forall x
      ensures x in a <==> x in b
    {
      assert x in a <==> x in multiset(a);
      assert x in b <==> x in multiset(b);
    }
  }

  function Deltas(ids: seq<nat>, last: nat): Blob {
    if ids == [] then [] else Uvarint((ids[0] - last) % U64) + Deltas(ids[1..], ids[0])
  }

  function Block(ids: seq<nat>): (bs: Blob)
    ensures |bs| >= 4
  {
    PutLe(|ids|, 4) + Deltas(ids, 0)
  }

  /** `count` ids decoded from the deltas; stops early at bytes that are no number. */
  function ReadIds(bs: Blob, count: nat, last: nat): seq<nat>
    decreases count
  {
    if count == 0 then []
    else
      match ReadUvarint(bs, 0)
      case None => []
      case Some((delta, n)) =>
        var id := (last + delta) % U64;
        [id] + ReadIds(bs[n..], count - 1, id)
  }

  /** Decoding the deltas of an ascending list gives the list. */
  lemma {:induction false} ReadIdsWritten(ids: seq<nat>, last: nat, rest: Blob)
    requires Ascending(ids, last) && last < U64
    ensures ReadIds(Deltas(ids, last) + rest, |ids|, last) == ids
    decreases |ids|
  {
    hide Uvarint, ReadUvarint, Capacity, Ascending;
    if ids != [] {
      AscendingStep(ids, last);
      var d := ids[0] - last;
      assert d % U64 == d && (last + d) % U64 == ids[0];
      var tail := Deltas(ids[1..], ids[0]) + rest;
      CapacityFull();
      ReadUvarintWritten(d, tail, 0);
      ConcatAssoc(Uvarint(d), Deltas(ids[1..], ids[0]), rest);
      assert (Uvarint(d) + tail)[|Uvarint(d)|..] == tail;
      ReadIdsWritten(ids[1..], ids[0], rest);
    }
  }

  lemma AscendingStep(ids: seq<nat>, last: nat)
    requires Ascending(ids, last) && ids != []
    ensures last <= ids[0] < U64 && Ascending(ids[1..], ids[0]) && ids == [ids[0]] + ids[1..]
  {
  }

  // --- The segment file -------------------------------------------------------------------

  function Listed(m: map<Term, seq<nat>>, t: Term): Blob { Block(SortIds(Get(m, t))) }

  /** Where the list of the `i`-th term starts. */
  function Offset(terms: seq<Term>, m: map<Term, seq<nat>>, i: nat): nat
    requires i <= |terms|
  {
    if i == 0 then 0 else Offset(terms, m, i - 1) + |Listed(m, terms[i - 1])|
  }

  /** The lists of the terms from the `i`-th on. */
  function Blocks(terms: seq<Term>, m: map<Term, seq<nat>>, i: nat): Blob
    requires i <= |terms|
    decreases |terms| - i
  {
    if i == |terms| then [] else Listed(m, terms[i]) + Blocks(terms, m, i + 1)
  }

  function Entry(t: Term, offset: nat): Blob { PutLe(|t|, 4) + (t + PutLe(offset, 8)) }

  /** The dictionary from the `i`-th term on. */
  function Dict(terms: seq<Term>, m: map<Term, seq<nat>>, i: nat): Blob
    requires i <= |terms|
    decreases |terms| - i
  {
    if i == |terms| then [] else Entry(terms[i], Offset(terms, m, i)) + Dict(terms, m, i + 1)
  }

  function File(terms: seq<Term>, m: map<Term, seq<nat>>): Blob {
    Blocks(terms, m, 0) + (Dict(terms, m, 0) + PutLe(|Blocks(terms, m, 0)|, 8))
  }

  ghost predicate Distinct(terms: seq<Term>) {
    forall i, j :: 0 <= i < j < |terms| ==> terms[i] != terms[j]
  }

  /** The bytes are a segment for these postings, within the widths of its fields. */
  ghost predicate IsSegment(data: Blob, terms: seq<Term>, m: map<Term, seq<nat>>) {
    && data == File(terms, m) && Distinct(terms) && (forall t :: t in terms <==> t in m)
    && Widths(m) && |data| < U64
  }

  /** The widths the format has for term lengths, list lengths and ids. */
  ghost predicate Widths(m: map<Term, seq<nat>>) {
    forall t :: t in m ==> |t| < U32 && |m[t]| < U32 && forall i :: 0 <= i < |m[t]| ==> m[t][i] < U64
  }

  // --- Writing ----------------------------------------------------------------------------

  ghost predicate SortedTerms(ts: seq<Term>) {
    forall i, j :: 0 <= i < j < |ts| ==> Below(ts[i], ts[j])
  }

  /** Places a new term in an ascending list. */
  method InsertTerm(t: Term, ts: seq<Term>) returns (r: seq<Term>)
    requires SortedTerms(ts) && t !in ts
    ensures SortedTerms(r) && forall x :: x in r <==> x == t || x in ts
  {
    hide Rank, Lex;
    var i := 0;
    while i < |ts| && Lex(ts[i], t)
      invariant 0 <= i <= |ts| && forall j :: 0 <= j < i ==> Below(ts[j], t)
    {
      LexIsBelow(ts[i], t);
      i := i + 1;
    }
    if i < |ts| {
      LexIsBelow(ts[i], t);
      if Rank(ts[i]) == Rank(t) {
        RankInjective(ts[i], t);
        assert false;
      }
    }
    InsertTermAt(t, ts, i);
    r := ts[..i] + [t] + ts[i..];
  }

  lemma InsertTermAt(t: Term, ts: seq<Term>, i: nat)
    requires SortedTerms(ts) && i <= |ts| && (forall j :: 0 <= j < i ==> Below(ts[j], t))
      && (i < |ts| ==> Below(t, ts[i]))
    ensures SortedTerms(ts[..i] + [t] + ts[i..]) && forall x :: x in ts[..i] + [t] + ts[i..] <==> x == t || x in ts
  {
    hide Rank;
    assert forall j :: i < j < |ts| ==> Below(ts[i], ts[j]);
    assert ts == ts[..i] + ts[i..];
  }

  method Terms(m: map<Term, seq<nat>>) returns (ts: seq<Term>)
    ensures SortedTerms(ts) && forall t :: t in ts <==> t in m
  {
    hide SortedTerms;
    ts := [];
    assert SortedTerms(ts) by { NoTerms(); }
    var todo := m.Keys;
    while todo != {}
      invariant SortedTerms(ts) && todo <= m.Keys && forall t :: t in ts <==> t in m && t !in todo
      decreases |todo|
    {
      var t :| t in todo;
      ts := InsertTerm(t, ts);
      todo := todo - {t};
    }
  }

  lemma NoTerms()
    ensures SortedTerms([])
  {
  }

  lemma SortedDistinct(ts: seq<Term>)
    requires SortedTerms(ts)
    ensures Distinct(ts)
  {
    hide Rank;
    forall i, j | 0 <= i < j < |ts|
      ensures ts[i] != ts[j]
    {
      assert Below(ts[i], ts[j]);
    }
  }

  /** Writes the lists in term order, then the dictionary, then where the dictionary starts. */
  method WriteSegment(m: map<Term, seq<nat>>) returns (data: Blob, terms: seq<Term>)
    ensures SortedTerms(terms) && (forall t :: t in terms <==> t in m) && data == File(terms, m)
  {
    hide Rank, SortedTerms, Listed, PutLe, Dict, Blocks, Offset;
    terms := Terms(m);
    var lists, offsets := WriteLists(terms, m);
    var dict := WriteDict(terms, offsets, m);
    data := lists + (dict + PutLe(|lists|, 8));
  }

  /** The lists of the terms one after another, and where each starts. */
  method WriteLists(ts: seq<Term>, m: map<Term, seq<nat>>) returns (data: Blob, offsets: seq<nat>)
    ensures data == Blocks(ts, m, 0)
    ensures |offsets| == |ts| && forall j :: 0 <= j < |ts| ==> offsets[j] == Offset(ts, m, j)
  {
    hide Listed, Offset;
    offsets := [];
    var current := 0;
    data := [];
    assert [] + Blocks(ts, m, 0) == Blocks(ts, m, 0);
    NoOffset(ts, m);
    for i := 0 to |ts|
      invariant data + Blocks(ts, m, i) == Blocks(ts, m, 0)
      invariant |offsets| == i && current == Offset(ts, m, i) && current == |data|
      invariant forall j :: 0 <= j < i ==> offsets[j] == Offset(ts, m, j)
    {
      OffsetStep(ts, m, i);
      offsets := offsets + [current];
      var bs := WriteBlock(Get(m, ts[i]));
      assert bs == Listed(m, ts[i]) by { ListedIs(m, ts[i]); }
      ConcatAssoc(data, bs, Blocks(ts, m, i + 1));
      data := data + bs;
      current := current + |bs|;
    }
    assert data + [] == data;
  }

  lemma NoOffset(ts: seq<Term>, m: map<Term, seq<nat>>)
    ensures Offset(ts, m, 0) == 0
  {
  }

  lemma OffsetStep(ts: seq<Term>, m: map<Term, seq<nat>>, i: nat)
    requires i < |ts|
    ensures Offset(ts, m, i + 1) == Offset(ts, m, i) + |Listed(m, ts[i])|
  {
    hide Listed;
  }

  method WriteDict(ts: seq<Term>, offsets: seq<nat>, ghost m: map<Term, seq<nat>>) returns (dict: Blob)
    requires |offsets| == |ts| && forall j :: 0 <= j < |ts| ==> offsets[j] == Offset(ts, m, j)
    ensures dict == Dict(ts, m, 0)
  {
    hide Entry, Offset;
    dict := [];
    assert [] + Dict(ts, m, 0) == Dict(ts, m, 0);
    for i := 0 to |ts|
      invariant dict + Dict(ts, m, i) == Dict(ts, m, 0)
    {
      var e := Entry(ts[i], offsets[i]);
      ConcatAssoc(dict, e, Dict(ts, m, i + 1));
      dict := dict + e;
    }
    assert dict + [] == dict;
  }

  lemma ListedIs(m: map<Term, seq<nat>>, t: Term)
    ensures Listed(m, t) == Block(SortIds(Get(m, t)))
  {
  }

  method WriteBlock(ids: seq<nat>) returns (bs: Blob)
    ensures bs == Block(SortIds(ids))
  {
    hide SortIds, Uvarint, PutLe;
    var postings := SortIds(ids);
    bs := PutLe(|postings|, 4);
    var last: nat := 0;
    for i := 0 to |postings|
      invariant bs + Deltas(postings[i..], last) == Block(postings)
    {
      var id := postings[i];
      var delta := Uvarint((id - last) % U64);
      assert postings[i..][1..] == postings[i + 1..];
      ConcatAssoc(bs, delta, Deltas(postings[i + 1..], id));
      bs := bs + delta;
      last := id;
    }
    assert postings[|postings|..] == [];
    assert bs + [] == bs;
  }

  // --- Reading the dictionary -------------------------------------------------------------

  /** The entries read from `bs`; a damaged one ends the dictionary. */
  function ParseDict(bs: Blob, dict: map<Term, nat>): map<Term, nat>
    decreases |bs|
  {
    if |bs| < 4 then dict
    else
      var n := Le(bs[..4]);
      if |bs| < 12 + n then dict
      else ParseDict(bs[12 + n..], dict[bs[4..4 + n] := Le(bs[4 + n..12 + n])])
  }

  method InitDict(data: Blob) returns (dict: map<Term, nat>)
    ensures dict == DictOf(data)
  {
    hide Le;
    dict := map[];
    if |data| < 8 {
      return;
    }
    var dictOffset := Le(data[|data| - 8..]);
    if dictOffset >= |data| - 8 {
      return;
    }
    var bs := data[dictOffset..|data| - 8];
    var pos := 0;
    assert bs[0..] == bs;
    while pos + 4 <= |bs|
      invariant 0 <= pos <= |bs|
      invariant ParseDict(bs[pos..], dict) == ParseDict(bs, map[])
    {
      ParseStep(bs, pos, dict);
      var n := Le(bs[pos..pos + 4]);
      if pos + 4 + n > |bs| {
        break;
      }
      var term := bs[pos + 4..pos + 4 + n];
      if pos + 12 + n > |bs| {
        break;
      }
      dict := dict[term := Le(bs[pos + 4 + n..pos + 12 + n])];
      pos := pos + 12 + n;
    }
  }

  lemma ParseStep(bs: Blob, pos: nat, dict: map<Term, nat>)
    requires pos + 4 <= |bs|
    ensures var n := Le(bs[pos..pos + 4]);
      ParseDict(bs[pos..], dict) ==
      if |bs| < pos + 12 + n then dict
      else ParseDict(bs[pos + 12 + n..], dict[bs[pos + 4..pos + 4 + n] := Le(bs[pos + 4 + n..pos + 12 + n])])
  {
    hide Le;
    var rest := bs[pos..];
    var n := Le(bs[pos..pos + 4]);
    assert rest[..4] == bs[pos..pos + 4];
    if pos + 12 + n <= |bs| {
      assert rest[4..4 + n] == bs[pos + 4..pos + 4 + n];
      assert rest[4 + n..12 + n] == bs[pos + 4 + n..pos + 12 + n];
      assert rest[12 + n..] == bs[pos + 12 + n..];
    }
  }

  function DictOf(data: Blob): map<Term, nat> {
    if |data| < 8 || Le(data[|data| - 8..]) >= |data| - 8 then map[]
    else ParseDict(data[Le(data[|data| - 8..])..|data| - 8], map[])
  }

  function AddOffsets(terms: seq<Term>, m: map<Term, seq<nat>>, i: nat, dict: map<Term, nat>): map<Term, nat>
    requires i <= |terms|
    decreases |terms| - i
  {
    if i == |terms| then dict else AddOffsets(terms, m, i + 1, dict[terms[i] := Offset(terms, m, i)])
  }

  lemma EntryParts(t: Term, offset: nat, rest: Blob)
    requires |t| < U32 && offset < U64
    ensures var bs := Entry(t, offset) + rest; var n := |t|;
      |bs| >= 12 + n && Le(bs[..4]) == n && bs[4..4 + n] == t && Le(bs[4 + n..12 + n]) == offset && bs[12 + n..] == rest
  {
    hide Le, PutLe;
    LePut4(|t|);
    LePut8(offset);
    var bs, n := Entry(t, offset) + rest, |t|;
    assert bs[..4] == PutLe(n, 4);
    assert bs[4 + n..12 + n] == PutLe(offset, 8);
  }

  lemma {:induction false} ParseDictWritten(terms: seq<Term>, m: map<Term, seq<nat>>, i: nat, dict: map<Term, nat>)
    requires i <= |terms| && forall j :: 0 <= j < |terms| ==> |terms[j]| < U32 && Offset(terms, m, j) < U64
    ensures ParseDict(Dict(terms, m, i), dict) == AddOffsets(terms, m, i, dict)
    decreases |terms| - i
  {
    hide Le, Entry, Offset;
    if i < |terms| {
      EntryParts(terms[i], Offset(terms, m, i), Dict(terms, m, i + 1));
      ParseDictWritten(terms, m, i + 1, dict[terms[i] := Offset(terms, m, i)]);
    }
  }

  lemma {:induction false} AddOffsetsMeaning(terms: seq<Term>, m: map<Term, seq<nat>>, i: nat, dict: map<Term, nat>)
    requires i <= |terms| && Distinct(terms)
    ensures var r := AddOffsets(terms, m, i, dict);
      && (forall j :: i <= j < |terms| ==> terms[j] in r && r[terms[j]] == Offset(terms, m, j))
      && (forall t :: t !in terms[i..] ==> (t in r <==> t in dict) && (t in r && t in dict ==> r[t] == dict[t]))
    decreases |terms| - i
  {
    hide Offset;
    if i < |terms| {
      AddOffsetsMeaning(terms, m, i + 1, dict[terms[i] := Offset(terms, m, i)]);
      assert terms[i..] == [terms[i]] + terms[i + 1..];
    }
  }

  lemma {:induction false} OffsetBound(terms: seq<Term>, m: map<Term, seq<nat>>, i: nat)
    requires i <= |terms|
    ensures Offset(terms, m, i) <= |Blocks(terms, m, 0)|
    ensures Blocks(terms, m, 0)[Offset(terms, m, i)..] == Blocks(terms, m, i)
  {
    hide Listed;
    if i > 0 {
      OffsetBound(terms, m, i - 1);
      var all, o := Blocks(terms, m, 0), Offset(terms, m, i - 1);
      var b := Listed(m, terms[i - 1]);
      assert all[o..] == b + Blocks(terms, m, i);
      assert all[o + |b|..] == all[o..][|b|..];
    }
  }

  /** Reading the dictionary of a written segment gives each term where its list starts, and no other term. */
  lemma DictOfSegment(data: Blob, terms: seq<Term>, m: map<Term, seq<nat>>)
    requires IsSegment(data, terms, m)
    ensures DictOf(data).Keys == m.Keys
    ensures forall i :: 0 <= i < |terms| ==> terms[i] in m && DictOf(data)[terms[i]] == Offset(terms, m, i)
  {
    hide Le, PutLe, Offset, Blocks, Dict, ParseDict, AddOffsets, Widths;
    TrailerOf(data, terms, m);
    forall i | 0 <= i < |terms|
      ensures |terms[i]| < U32 && Offset(terms, m, i) < U64
    {
      OffsetBound(terms, m, i);
      WidthOf(m, terms[i]);
    }
    ParseDictWritten(terms, m, 0, map[]);
    AddOffsetsMeaning(terms, m, 0, map[]);
    assert terms[0..] == terms;
    forall i | 0 <= i < |terms|
      ensures terms[i] in m
    {
      assert terms[i] in terms;
    }
  }

  lemma WidthOf(m: map<Term, seq<nat>>, t: Term)
    requires Widths(m) && t in m
    ensures |t| < U32 && |m[t]| < U32 && forall i :: 0 <= i < |m[t]| ==> m[t][i] < U64
  {
  }

  lemma TrailerOf(data: Blob, terms: seq<Term>, m: map<Term, seq<nat>>)
    requires IsSegment(data, terms, m)
    ensures DictOf(data) == ParseDict(Dict(terms, m, 0), map[])
  {
    hide Le, PutLe, Offset, Blocks, Entry, ParseDict, Widths, Distinct;
    var blocks, dict := Blocks(terms, m, 0), Dict(terms, m, 0);
    var tail := PutLe(|blocks|, 8);
    LePut8(|blocks|);
    var n := |data| - 8;
    assert n == |blocks| + |dict|;
    ConcatAssoc(blocks, dict, tail);
    assert data[n..] == tail;
    assert data[|blocks|..n] == dict;
    if dict == [] {
      NoEntries();
    }
  }

  lemma NoEntries()
    ensures ParseDict([], map[]) == map[]
  {
  }

  // --- Reading one list -------------------------------------------------------------------

  method FetchPostings(data: Blob, dict: map<Term, nat>, target: Term) returns (results: seq<nat>)
    requires forall t :: t in dict ==> dict[t] <= |data|
    ensures target !in dict ==> results == []
    ensures target in dict ==> results == ListAt(data[dict[target]..])
  {
    hide Le, ReadUvarint;
    if target !in dict {
      return [];
    }
    var bs := data[dict[target]..];
    if |bs| < 4 {
      return [];
    }
    var count := Le(bs[..4]);
    var pos, last: nat := 4, 0;
    results := [];
    for i := 0 to count
      invariant 4 <= pos <= |bs|
      invariant results + ReadIds(bs[pos..], count - i, last) == ReadIds(bs[4..], count, 0)
    {
      var r := ReadUvarint(bs[pos..], 0);
      if r.None? {
        assert results + [] == results;
        return;
      }
      var (delta, n) := r.value;
      var id := (last + delta) % U64;
      assert bs[pos..][n..] == bs[pos + n..];
      ConcatAssoc(results, [id], ReadIds(bs[pos + n..], count - i - 1, id));
      results := results + [id];
      pos, last := pos + n, id;
    }
    assert results + [] == results;
  }

  function ListAt(bs: Blob): seq<nat> {
    if |bs| < 4 then [] else ReadIds(bs[4..], Le(bs[..4]), 0)
  }

  /** A list read back is the list written, in ascending order. */
  lemma ListAtWritten(ids: seq<nat>, rest: Blob)
    requires |ids| < U32 && forall i :: 0 <= i < |ids| ==> ids[i] < U64
    ensures ListAt(Block(SortIds(ids)) + rest) == SortIds(ids)
  {
    hide Le, PutLe, SortIds, Deltas, ReadIds;
    SortMeaning(ids);
    var s := SortIds(ids);
    LePut4(|s|);
    ConcatAssoc(PutLe(|s|, 4), Deltas(s, 0), rest);
    HeadTail(PutLe(|s|, 4), Deltas(s, 0) + rest);
    ReadIdsWritten(s, 0, rest);
  }

  lemma HeadTail(h: Blob, t: Blob)
    requires |h| == 4
    ensures (h + t)[..4] == h && (h + t)[4..] == t
  {
  }

  lemma BlockStands(data: Blob, terms: seq<Term>, m: map<Term, seq<nat>>, i: nat) returns (rest: Blob)
    requires data == File(terms, m) && i < |terms|
    ensures Offset(terms, m, i) <= |data| && data[Offset(terms, m, i)..] == Listed(m, terms[i]) + rest
  {
    hide Offset, Listed, Dict, PutLe;
    OffsetBound(terms, m, i);
    var blocks, o := Blocks(terms, m, 0), Offset(terms, m, i);
    var tail := Dict(terms, m, 0) + PutLe(|blocks|, 8);
    assert data[o..] == blocks[o..] + tail;
    rest := Blocks(terms, m, i + 1) + tail;
    ConcatAssoc(Listed(m, terms[i]), Blocks(terms, m, i + 1), tail);
  }

  /** Fetching a term from a written segment gives its ids in ascending order, and nothing for an unknown term. */
  lemma FetchIsPostings(data: Blob, terms: seq<Term>, m: map<Term, seq<nat>>, t: Term)
    requires IsSegment(data, terms, m)
    ensures t in DictOf(data) <==> t in m
    ensures t in DictOf(data) ==> DictOf(data)[t] <= |data| && ListAt(data[DictOf(data)[t]..]) == SortIds(m[t])
  {
    hide Offset, Listed, File, DictOf, ListAt, Block, SortIds, Widths, Distinct;
    DictOfSegment(data, terms, m);
    if t in m {
      assert t in terms;
      var i :| 0 <= i < |terms| && terms[i] == t;
      var rest := BlockStands(data, terms, m, i);
      ListedIs(m, t);
      WidthOf(m, t);
      ListAtWritten(m[t], rest);
    }
  }
}
