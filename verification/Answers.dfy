/** Every answer column by column, and when a query is refused: what holds in any store at all. */
module Answers {
  import opened Common
  import opened Ordering
  import opened Sm4
  import opened Tables
  import opened Keys
  import opened Dao
  import opened Search
  import opened Exactness

  // ---- The two filters ----

  ghost predicate Around(text: Bytes, before: Bytes, keyword: Bytes, after: Bytes) {
    text == before + keyword + after
  }

  // The keyword stands somewhere in the text.
  ghost predicate Found(text: Bytes, keyword: Bytes) {
    exists before, after :: Around(text, before, keyword, after)
  }

  // std::string::find succeeds exactly on such texts.
  lemma ContainsIff(text: Bytes, keyword: Bytes)
    ensures Contains(text, keyword) <==> Found(text, keyword)
  {
    if Contains(text, keyword) {
      var i: nat :| i <= |text| && OccursAt(text, keyword, i);
      assert Around(text, text[..i], keyword, text[i + |keyword|..]);
    }
    if before, after :| Around(text, before, keyword, after) {
      assert OccursAt(text, keyword, |before|);
    }
  }

  ghost predicate FieldIs(f: Field, r: FullRecord, keyword: Bytes) {
    && (f == Name ==> r.name == keyword) && (f == Phone ==> r.phone == keyword)
    && (f == Address ==> r.address == keyword)
  }

  ghost predicate FieldHas(f: Field, r: FullRecord, keyword: Bytes) {
    && (f == Name ==> Found(r.name, keyword)) && (f == Phone ==> Found(r.phone, keyword))
    && (f == Address ==> Found(r.address, keyword))
  }

  lemma FiltersAre(f: Field, keyword: Bytes, r: FullRecord)
    ensures Equals(f, keyword)(r) <==> FieldIs(f, r, keyword)
    ensures Holds(f, keyword)(r) <==> FieldHas(f, r, keyword)
  {
    ContainsIff(r.Get(f), keyword);
  }

  // An empty ciphertext is an empty value, and no error.
  lemma EmptyField(c: Crypto, keys: KeyState, id: int, row: Row, f: Field, fallback: Bytes)
    requires row.Get(f).cipher == []
    ensures FieldValue(c, keys, id, row, f, fallback) == Ok([])
  {
  }

  // ---- The records of an answer ----

  lemma {:induction false} KeptIff(rs: seq<FullRecord>, p: FullRecord -> bool, r: FullRecord)
    ensures r in Keep(rs, p) <==> r in rs && p(r)
  {
    if rs != [] {
      KeptIff(rs[..|rs| - 1], p, r);
      assert rs == rs[..|rs| - 1] + [rs[|rs| - 1]];
    }
  }

  // Rows of the store, smallest id first, each once.
  ghost predicate InOrder(main: map<int, Row>, rs: seq<FullRecord>) {
    && (forall i :: 0 <= i < |rs| ==> rs[i].id in main)
    && forall i, j :: 0 <= i < j < |rs| ==> rs[i].id < rs[j].id
  }

  lemma {:induction false} KeptInOrder(main: map<int, Row>, rs: seq<FullRecord>, p: FullRecord -> bool)
    requires InOrder(main, rs)
    ensures InOrder(main, Keep(rs, p))
  {
    if rs != [] {
      var front := rs[..|rs| - 1];
      KeptInOrder(main, front, p);
      forall r | r in Keep(front, p) ensures r.id < rs[|rs| - 1].id {
        KeptIff(front, p, r);
        var i :| 0 <= i < |front| && front[i] == r;
        assert rs[i] == r;
      }
    }
  }

  lemma IdsInOrder(main: map<int, Row>, rows: seq<int>, rs: seq<FullRecord>)
    requires StrictlyAscending(rows) && |rs| == |rows|
    requires forall i :: 0 <= i < |rs| ==> rs[i].id == rows[i] && rs[i].id in main
    ensures InOrder(main, rs)
  {
  }

  lemma RowsInOrder(c: Crypto, keys: KeyState, main: map<int, Row>, rows: seq<int>, fallback: Bytes)
    requires StrictlyAscending(rows) && forall i :: 0 <= i < |rows| ==> rows[i] in main
    requires FullRows(c, keys, main, rows, fallback).Ok?
    ensures InOrder(main, FullRows(c, keys, main, rows, fallback).value)
  {
    var rs := FullRows(c, keys, main, rows, fallback).value;
    RowsLength(c, keys, main, rows, fallback);
    forall i | 0 <= i < |rs| ensures rs[i].id == rows[i] {
      RowsOfAnswer(c, keys, main, rows, fallback, i);
    }
    IdsInOrder(main, rows, rs);
  }

  lemma FetchedInOrder(c: Crypto, keys: KeyState, main: map<int, Row>, ids: set<int>, fallback: Bytes)
    ensures
      var r := FetchFullRecords(c, keys, main, ids, fallback);
      r.Ok? ==> InOrder(main, r.value)
  {
    FetchedOrdered(main, ids);
    if FetchFullRecords(c, keys, main, ids, fallback).Ok? {
      RowsInOrder(c, keys, main, Fetched(main, ids), fallback);
    }
  }

  ghost predicate ExactRecords(main: map<int, Row>, f: Field, keyword: Bytes, r: Result<seq<FullRecord>>) {
    r.Ok? ==> InOrder(main, r.value) && forall x :: x in r.value ==> FieldIs(f, x, keyword)
  }

  ghost predicate FuzzyRecords(main: map<int, Row>, f: Field, keyword: Bytes, r: Result<seq<FullRecord>>) {
    r.Ok? ==> InOrder(main, r.value) && forall x :: x in r.value ==> FieldHas(f, x, keyword)
  }

  // Whatever the store holds, an exact query returns only records whose field is the keyword.
  lemma ExactAnswerRecords(c: Crypto, keys: KeyState, t: Tables, f: Field, keyword: Bytes, fallback: Bytes)
    ensures ExactRecords(t.main, f, keyword, ExactAnswer(c, keys, t, f, keyword, fallback))
  {
    var fetched := FetchFullRecords(c, keys, t.main, ExactIds(c, keys, t.main, f, keyword), fallback);
    FetchedInOrder(c, keys, t.main, ExactIds(c, keys, t.main, f, keyword), fallback);
    if fetched.Ok? {
      KeptInOrder(t.main, fetched.value, Equals(f, keyword));
      forall x | x in Keep(fetched.value, Equals(f, keyword)) ensures FieldIs(f, x, keyword) {
        KeptIff(fetched.value, Equals(f, keyword), x);
        FiltersAre(f, keyword, x);
      }
    }
  }

  // And a fuzzy query only records whose field has the keyword in it.
  lemma FuzzyAnswerRecords(c: Crypto, keys: KeyState, t: Tables, f: Field, keyword: Bytes, fallback: Bytes)
    ensures FuzzyRecords(t.main, f, keyword, FuzzyAnswer(c, keys, t, f, keyword, fallback))
  {
    var ids := FuzzyIds(c, keys, t.inverted, f, keyword);
    var fetched := FetchFullRecords(c, keys, t.main, ids, fallback);
    FetchedInOrder(c, keys, t.main, ids, fallback);
    if fetched.Ok? {
      KeptInOrder(t.main, fetched.value, Holds(f, keyword));
      forall x | x in Keep(fetched.value, Holds(f, keyword)) ensures FieldHas(f, x, keyword) {
        KeptIff(fetched.value, Holds(f, keyword), x);
        FiltersAre(f, keyword, x);
      }
    }
  }

  // ---- Bigrams are not enough ----

  // A row with all bigrams of a keyword is a candidate for it.
  lemma BigramsMakeCandidates(c: Crypto, keys: KeyState, inverted: set<Token>, id: int, data: Plain, f: Field,
      keyword: Bytes)
    requires Covered(c, keys.idx, inverted, id, data, f) && |keyword| >= 2 && DistinctHashes(c, keys.idx, keyword)
    requires forall b :: b in SplitBigram(keyword) ==> b in SplitBigram(data.Get(f))
    ensures id in FuzzyIds(c, keys, inverted, f, keyword)
  {
    var tokens := SplitBigram(data.Get(f));
    var v :| v in keys.idx.infos && TokensFor(c, id, f, data.Get(f), keys.idx.infos[v].key) <= inverted;
    var hashes := KeywordHashes(c, keys.idx, v, keyword);
    assert |hashes| == |keyword| - 1;
    forall h | h in hashes ensures Token(h, id, f) in inverted {
      var j :| 0 <= j < |hashes| && hashes[j] == h;
      assert SplitBigram(keyword)[j] in tokens;
      var k :| 0 <= k < |tokens| && tokens[k] == SplitBigram(keyword)[j];
      assert HashTokens(c, tokens, keys.idx.infos[v].key)[k] == h;
      assert Token(h, id, f) in TokensFor(c, id, f, data.Get(f), keys.idx.infos[v].key);
    }
    FuzzyCandidateIff(inverted, hashes, id, f);
  }

  // Unless it has the keyword itself, the check of the plaintext drops it.
  lemma CandidateIsDropped(c: Crypto, keys: KeyState, t: Tables, plain: map<int, Plain>, id: int, f: Field,
      keyword: Bytes, fallback: Bytes, x: FullRecord)
    requires RowReads(c, keys, t.main, plain, id, fallback) && !Found(plain[id].Get(f), keyword)
    requires FuzzyAnswer(c, keys, t, f, keyword, fallback).Ok?
    requires x in FuzzyAnswer(c, keys, t, f, keyword, fallback).value
    ensures x.id != id
  {
    var ids := FuzzyIds(c, keys, t.inverted, f, keyword);
    var rows := Fetched(t.main, ids);
    var fetched := FullRows(c, keys, t.main, rows, fallback).value;
    KeptIff(fetched, Holds(f, keyword), x);
    FiltersAre(f, keyword, x);
    RowsLength(c, keys, t.main, rows, fallback);
    var k :| 0 <= k < |fetched| && fetched[k] == x;
    RowsOfAnswer(c, keys, t.main, rows, fallback, k);
  }

  const ABC: Bytes := [0x61, 0x62, 0x63]
  const BCAB: Bytes := [0x62, 0x63, 0x61, 0x62]

  // "bcab" has the bigrams of "abc" but not "abc".
  lemma BigramsWithoutKeyword()
    ensures !Found(BCAB, ABC) && forall b :: b in SplitBigram(ABC) ==> b in SplitBigram(BCAB)
  {
    var tokens := SplitBigram(BCAB);
    assert tokens[2] == [0x61, 0x62] && tokens[0] == [0x62, 0x63];
    assert SplitBigram(ABC)[0] == [0x61, 0x62] && SplitBigram(ABC)[1] == [0x62, 0x63];
    forall b | b in SplitBigram(ABC) ensures b in tokens {
      var i :| 0 <= i < |SplitBigram(ABC)| && SplitBigram(ABC)[i] == b;
      assert i == 0 || i == 1;
    }
    forall before: Bytes, after: Bytes ensures !Around(BCAB, before, ABC, after) {
      var whole := before + ABC + after;
      assert whole[|before|] == 0x61 && whole[|before| + 1] == 0x62 && whole[|before| + 2] == 0x63;
      assert |before| + 3 <= |whole|;
    }
  }

  // A row with all bigrams of a keyword, but not the keyword, is a candidate and is not returned.
  lemma CandidateNotReturned(c: Crypto, keys: KeyState, t: Tables, plain: map<int, Plain>, id: int, f: Field,
      keyword: Bytes, fallback: Bytes, x: FullRecord)
    requires RowReads(c, keys, t.main, plain, id, fallback) && Covered(c, keys.idx, t.inverted, id, plain[id], f)
    requires |keyword| >= 2 && DistinctHashes(c, keys.idx, keyword) && !Found(plain[id].Get(f), keyword)
    requires forall b :: b in SplitBigram(keyword) ==> b in SplitBigram(plain[id].Get(f))
    ensures id in FuzzyIds(c, keys, t.inverted, f, keyword)
    ensures InAnswer(c, keys, t, f, keyword, fallback, x) ==> x.id != id
  {
    BigramsMakeCandidates(c, keys, t.inverted, id, plain[id], f, keyword);
    if InAnswer(c, keys, t, f, keyword, fallback, x) {
      CandidateIsDropped(c, keys, t, plain, id, f, keyword, fallback, x);
    }
  }

  ghost predicate InAnswer(c: Crypto, keys: KeyState, t: Tables, f: Field, keyword: Bytes, fallback: Bytes,
      x: FullRecord) {
    var r := FuzzyAnswer(c, keys, t, f, keyword, fallback);
    r.Ok? && x in r.value
  }

  // So is a row with the name "bcab" for the keyword "abc".
  lemma BigramsAreNotEnough(c: Crypto, keys: KeyState, t: Tables, plain: map<int, Plain>, id: int, fallback: Bytes,
      abc: Bytes, x: FullRecord)
    requires RowReads(c, keys, t.main, plain, id, fallback) && plain[id].name == BCAB && abc == ABC
    requires Covered(c, keys.idx, t.inverted, id, plain[id], Name) && DistinctHashes(c, keys.idx, abc)
    ensures id in FuzzyIds(c, keys, t.inverted, Name, abc)
    ensures InAnswer(c, keys, t, Name, abc, fallback, x) ==> x.id != id
  {
    BigramsWithoutKeyword();
    CandidateNotReturned(c, keys, t, plain, id, Name, abc, fallback, x);
  }

  // ---- Refusals ----

  // No error of a decryption is taken for that of a guard.
  lemma OpenedErrors(c: Crypto, text: Bytes, key: Bytes)
    ensures Opened(c, text, key).Err? ==> CipherError(Opened(c, text, key).error)
  {
  }

  predicate CipherError(e: Error) {
    e != TooManyCandidates && e != KeywordTooShort && e != KeywordEmpty && e != RateLimited
  }

  lemma FieldErrors(c: Crypto, keys: KeyState, id: int, row: Row, f: Field, fallback: Bytes)
    ensures FieldValue(c, keys, id, row, f, fallback).Err? ==>
      CipherError(FieldValue(c, keys, id, row, f, fallback).error)
  {
    OpenedErrors(c, row.Get(f).cipher, fallback);
  }

  lemma {:induction false} RowErrors(c: Crypto, keys: KeyState, main: map<int, Row>, ids: seq<int>, fallback: Bytes)
    requires forall i :: 0 <= i < |ids| ==> ids[i] in main
    ensures FullRows(c, keys, main, ids, fallback).Err? ==> CipherError(FullRows(c, keys, main, ids, fallback).error)
  {
    if ids != [] {
      var last := ids[|ids| - 1];
      RowErrors(c, keys, main, ids[..|ids| - 1], fallback);
      FieldErrors(c, keys, last, main[last], Name, fallback);
      FieldErrors(c, keys, last, main[last], Phone, fallback);
      FieldErrors(c, keys, last, main[last], Address, fallback);
    }
  }

  lemma FetchErrors(c: Crypto, keys: KeyState, main: map<int, Row>, ids: set<int>, p: FullRecord -> bool,
      fallback: Bytes)
    ensures
      var r := KeepAll(FetchFullRecords(c, keys, main, ids, fallback), p);
      r.Err? ==> CipherError(r.error)
  {
    RowErrors(c, keys, main, Fetched(main, ids), fallback);
  }

  // The guards of a query, in the order in which they are tried.
  ghost predicate Refusals(keyword: Bytes, limited: bool, candidates: nat, r: Result<seq<FullRecord>>) {
    && (r == Err(RateLimited) <==> limited)
    && (r == Err(KeywordTooShort) <==> !limited && |keyword| < 2)
    && (r == Err(TooManyCandidates) <==> !limited && |keyword| >= 2 && candidates > 10000)
  }

  lemma IdsOf(s: set<int>, u: set<int>)
    requires s <= u
    ensures |s| <= |u|
  {
    assert u == s + (u - s);
  }

  // There are no more candidates than rows, or than ids in the index.
  lemma CandidateCount(c: Crypto, keys: KeyState, t: Tables, f: Field, keyword: Bytes)
    ensures |ExactIds(c, keys, t.main, f, keyword)| <= |t.main|
    ensures |FuzzyIds(c, keys, t.inverted, f, keyword)| <= |set x | x in t.inverted :: x.id|
  {
    IdsOf(ExactIds(c, keys, t.main, f, keyword), t.main.Keys);
    IdsOf(FuzzyIds(c, keys, t.inverted, f, keyword), set x | x in t.inverted :: x.id);
  }
}
