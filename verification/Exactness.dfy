/** What the two queries owe to a scan of the plaintexts, and exactly when they pay it. */
module Exactness {
  import opened Common
  import opened Ordering
  import opened Sm4
  import opened Tables
  import opened Keys
  import opened Dao
  import BatchDecryptor
  import opened Search

  // ---- Rows, keys and last written values ----

  // The row's version names a key that opens its ciphertexts to the last written values.
  ghost predicate RowOpens(c: Crypto, enc: KeyRing, row: Row, data: Plain) {
    row.encVersion in enc.infos &&
    forall f: Field :: Opened(c, row.Get(f).cipher, enc.infos[row.encVersion].key) == Ok(data.Get(f))
  }

  // The blind index of the field is the value's hash under some known version.
  ghost predicate BlindKnown(c: Crypto, idx: KeyRing, row: Row, data: Plain, f: Field) {
    exists v :: v in idx.infos && row.Get(f).blind == HmacHex(c, data.Get(f), idx.infos[v].key)
  }

  // The index holds all bigrams of the value under one known version; it may hold more.
  ghost predicate Covered(c: Crypto, idx: KeyRing, inverted: set<Token>, id: int, data: Plain, f: Field) {
    exists v :: v in idx.infos && TokensFor(c, id, f, data.Get(f), idx.infos[v].key) <= inverted
  }

  // The ciphertexts have the sizes of the sealed values, whatever key sealed them.
  ghost predicate Sized(row: Row, data: Plain) {
    forall f: Field :: |row.Get(f).cipher| == SealedSize(|data.Get(f)|)
  }

  ghost predicate AllSized(main: map<int, Row>, plain: map<int, Plain>)
    requires main.Keys == plain.Keys
  {
    forall id :: id in main ==> Sized(main[id], plain[id])
  }

  predicate AllReadable(main: map<int, Row>) {
    forall id :: id in main ==> Readable(main[id])
  }

  ghost predicate ShortValues(plain: map<int, Plain>) {
    forall id, f: Field :: id in plain ==> |plain[id].Get(f)| <= 2031
  }

  // The blind indexes of all values that can be searched for are right.
  ghost predicate IndexIntact(c: Crypto, idx: KeyRing, main: map<int, Row>, plain: map<int, Plain>)
    requires main.Keys == plain.Keys
  {
    forall id, f: Field :: id in main && |plain[id].Get(f)| >= 2 ==> BlindKnown(c, idx, main[id], plain[id], f)
  }

  ghost predicate AllCovered(c: Crypto, idx: KeyRing, t: Tables, plain: map<int, Plain>)
    requires t.main.Keys == plain.Keys
  {
    forall id, f: Field :: id in t.main ==> Covered(c, idx, t.inverted, id, plain[id], f)
  }

  // A row that opens reads back, whatever the tags and the fallback key are.
  lemma FieldValueIsTrue(c: Crypto, keys: KeyState, id: int, row: Row, data: Plain, f: Field, fallback: Bytes)
    requires RowOpens(c, keys.enc, row, data)
    ensures FieldValue(c, keys, id, row, f, fallback) == Ok(data.Get(f))
  {
    var cipher := row.Get(f).cipher;
    var key := keys.enc.infos[row.encVersion].key;
    assert Opened(c, cipher, key) == Ok(data.Get(f));
    OpenedLength(c, cipher, key);
    assert RecordOf(id, row, f).cipher == cipher;
  }

  lemma FullRowIsTrue(c: Crypto, keys: KeyState, main: map<int, Row>, plain: map<int, Plain>, id: int, fallback: Bytes)
    requires id in main && id in plain && RowOpens(c, keys.enc, main[id], plain[id])
    ensures FullRow(c, keys, id, main[id], fallback) == Ok(TrueRecord(main, plain, id))
  {
    FieldValueIsTrue(c, keys, id, main[id], plain[id], Name, fallback);
    FieldValueIsTrue(c, keys, id, main[id], plain[id], Phone, fallback);
    FieldValueIsTrue(c, keys, id, main[id], plain[id], Address, fallback);
  }

  lemma OpenRowsRead(c: Crypto, keys: KeyState, main: map<int, Row>, plain: map<int, Plain>, fallback: Bytes)
    requires main.Keys == plain.Keys && forall id :: id in main ==> RowOpens(c, keys.enc, main[id], plain[id])
    ensures Reads(c, keys, main, plain, fallback)
  {
    forall id | id in main ensures FullRow(c, keys, id, main[id], fallback) == Ok(TrueRecord(main, plain, id)) {
      FullRowIsTrue(c, keys, main, plain, id, fallback);
    }
  }

  // ---- The fetch buffers ----

  // A row fits the fetch buffers exactly when its three values have at most 2031 bytes.
  lemma ReadableIff(row: Row, data: Plain)
    requires Sized(row, data)
    ensures Readable(row) <==> forall f: Field :: |data.Get(f)| <= 2031
  {
    forall f: Field ensures |row.Get(f).cipher| <= COLUMN_BUFFER <==> |data.Get(f)| <= 2031 {
      assert |row.Get(f).cipher| == SealedSize(|data.Get(f)|);
    }
    assert row.Get(Name) == row.name && row.Get(Phone) == row.phone && row.Get(Address) == row.address;
  }

  lemma AllReadableIff(main: map<int, Row>, plain: map<int, Plain>)
    requires main.Keys == plain.Keys && AllSized(main, plain)
    ensures AllReadable(main) <==> ShortValues(plain)
  {
    forall id | id in main ensures Readable(main[id]) <==> forall f: Field :: |plain[id].Get(f)| <= 2031 {
      ReadableIff(main[id], plain[id]);
    }
  }

  // ---- Exact queries ----

  lemma EqualMatches(main: map<int, Row>, plain: map<int, Plain>, f: Field, keyword: Bytes, id: int)
    requires main.Keys == plain.Keys
    ensures id in Matches(plain, Equals(f, keyword), main) <==> id in main && plain[id].Get(f) == keyword
  {
    if id in main {
      assert TrueRecord(main, plain, id).Get(f) == plain[id].Get(f);
    }
  }

  // A row is a candidate for its own value exactly when its blind index is known.
  lemma CandidateIff(c: Crypto, keys: KeyState, main: map<int, Row>, plain: map<int, Plain>, f: Field, id: int)
    requires main.Keys == plain.Keys && id in main
    ensures id in ExactIds(c, keys, main, f, plain[id].Get(f)) <==> BlindKnown(c, keys.idx, main[id], plain[id], f)
  {
  }

  // One exact query is the equality filter exactly when every row with the value has a known
  // blind index and is reached by the fetch loop; the hash need not be injective.
  lemma ExactQueryIff(c: Crypto, keys: KeyState, t: Tables, plain: map<int, Plain>, f: Field, keyword: Bytes,
      fallback: Bytes)
    requires Reads(c, keys, t.main, plain, fallback)
    ensures ExactAnswer(c, keys, t, f, keyword, fallback) == Ok(Scan(t.main, plain, Equals(f, keyword))) <==>
            forall id :: id in t.main && plain[id].Get(f) == keyword ==>
              (BlindKnown(c, keys.idx, t.main[id], plain[id], f)
               && ReachedIn(t.main, ExactIds(c, keys, t.main, f, keyword), id))
  {
    var ids := ExactIds(c, keys, t.main, f, keyword);
    QueryIff(c, keys, t.main, plain, ids, Equals(f, keyword), fallback);
    forall id
      ensures id in Matches(plain, Equals(f, keyword), t.main) <==> id in t.main && plain[id].Get(f) == keyword
    {
      EqualMatches(t.main, plain, f, keyword, id);
    }
    forall id | id in t.main && plain[id].Get(f) == keyword
      ensures id in ids <==> BlindKnown(c, keys.idx, t.main[id], plain[id], f)
    {
      CandidateIff(c, keys, t.main, plain, f, id);
    }
  }

  // What exact search on one field owes: the scan, for every admissible keyword.
  ghost predicate ExactOnFieldRight(c: Crypto, keys: KeyState, t: Tables, plain: map<int, Plain>, f: Field,
      fallback: Bytes)
    requires t.main.Keys == plain.Keys
  {
    forall keyword :: |keyword| >= 2 ==>
      ExactAnswer(c, keys, t, f, keyword, fallback) == Ok(Scan(t.main, plain, Equals(f, keyword)))
  }

  // What exact search owes: the scan, for every field and admissible keyword.
  ghost predicate ExactSearchRight(c: Crypto, keys: KeyState, t: Tables, plain: map<int, Plain>, fallback: Bytes)
    requires t.main.Keys == plain.Keys
  {
    forall f: Field :: ExactOnFieldRight(c, keys, t, plain, f, fallback)
  }

  // Without any assumption: when exact search is right, every row with a value of two bytes
  // or more fits the buffers, reads back, and has a known blind index for that value.
  lemma RightSearchNeeds(c: Crypto, keys: KeyState, t: Tables, plain: map<int, Plain>, fallback: Bytes, id: int,
      f: Field)
    requires t.main.Keys == plain.Keys && ExactSearchRight(c, keys, t, plain, fallback)
    requires id in t.main && |plain[id].Get(f)| >= 2
    ensures BlindKnown(c, keys.idx, t.main[id], plain[id], f) && Readable(t.main[id])
    ensures FullRow(c, keys, id, t.main[id], fallback) == Ok(TrueRecord(t.main, plain, id))
  {
    var keyword := plain[id].Get(f);
    assert ExactOnFieldRight(c, keys, t, plain, f, fallback);
    assert ExactAnswer(c, keys, t, f, keyword, fallback) == Ok(Scan(t.main, plain, Equals(f, keyword)));
    EqualMatches(t.main, plain, f, keyword, id);
    RightAnswerNeeds(c, keys, t.main, plain, ExactIds(c, keys, t.main, f, keyword), Equals(f, keyword), fallback, id);
    CandidateIff(c, keys, t.main, plain, f, id);
  }

  // ---- Fuzzy queries ----

  // A keyword that occurs at i has its bigrams at i and after.
  lemma BigramAt(text: Bytes, keyword: Bytes, i: nat, j: nat)
    requires OccursAt(text, keyword, i) && |keyword| >= 2 && j < |SplitBigram(keyword)|
    ensures |text| >= 2 && i + j < |SplitBigram(text)| && SplitBigram(text)[i + j] == SplitBigram(keyword)[j]
  {
    var w := text[i..i + |keyword|];
    assert w[j] == text[i + j] && w[j + 1] == text[i + j + 1];
    assert keyword[j..j + 2] == text[i + j..i + j + 2];
  }

  lemma BigramsOccur(text: Bytes, keyword: Bytes, j: nat)
    requires Contains(text, keyword) && |keyword| >= 2 && j < |SplitBigram(keyword)|
    ensures SplitBigram(keyword)[j] in SplitBigram(text)
  {
    var i: nat :| i <= |text| && OccursAt(text, keyword, i);
    BigramAt(text, keyword, i, j);
  }

  // A covered row that contains the keyword is a candidate under the version that
  // covers it, if the keyword's bigrams hash to distinct values there.
  lemma CoveredIsCandidate(c: Crypto, idx: KeyRing, inverted: set<Token>, v: int, id: int, f: Field, text: Bytes,
      keyword: Bytes)
    requires v in idx.infos && TokensFor(c, id, f, text, idx.infos[v].key) <= inverted
    requires |keyword| >= 2 && Contains(text, keyword) && Distinct(KeywordHashes(c, idx, v, keyword))
    ensures id in FuzzyCandidates(inverted, KeywordHashes(c, idx, v, keyword), f)
  {
    var key := idx.infos[v].key;
    var hashes := KeywordHashes(c, idx, v, keyword);
    assert |hashes| == |keyword| - 1;
    forall h | h in hashes ensures Token(h, id, f) in inverted {
      var j :| 0 <= j < |hashes| && hashes[j] == h;
      BigramsOccur(text, keyword, j);
      var k :| 0 <= k < |SplitBigram(text)| && SplitBigram(text)[k] == SplitBigram(keyword)[j];
      assert HashTokens(c, SplitBigram(text), key)[k] == h;
      assert Token(h, id, f) in TokensFor(c, id, f, text, key);
    }
    FuzzyCandidateIff(inverted, hashes, id, f);
  }

  // The keyword's bigrams hash to distinct values under every version.
  ghost predicate DistinctHashes(c: Crypto, idx: KeyRing, keyword: Bytes) {
    forall v :: v in idx.infos ==> Distinct(KeywordHashes(c, idx, v, keyword))
  }

  lemma CoveredIsFound(c: Crypto, keys: KeyState, inverted: set<Token>, id: int, data: Plain, f: Field, keyword: Bytes)
    requires Covered(c, keys.idx, inverted, id, data, f)
    requires |keyword| >= 2 && DistinctHashes(c, keys.idx, keyword) && Contains(data.Get(f), keyword)
    ensures id in FuzzyIds(c, keys, inverted, f, keyword)
  {
    var idx := keys.idx;
    var v :| v in idx.infos && TokensFor(c, id, f, data.Get(f), idx.infos[v].key) <= inverted;
    CoveredIsCandidate(c, idx, inverted, v, id, f, data.Get(f), keyword);
  }

  lemma MatchesContain(main: map<int, Row>, plain: map<int, Plain>, f: Field, keyword: Bytes, id: int)
    requires main.Keys == plain.Keys
    ensures id in Matches(plain, Holds(f, keyword), main) <==> id in main && Contains(plain[id].Get(f), keyword)
  {
    if id in main {
      assert TrueRecord(main, plain, id).Get(f) == plain[id].Get(f);
    }
  }

  // One fuzzy query is the substring filter exactly when every row that contains the keyword
  // is a candidate under some version and is reached by the fetch loop.
  lemma FuzzyQueryIff(c: Crypto, keys: KeyState, t: Tables, plain: map<int, Plain>, f: Field, keyword: Bytes,
      fallback: Bytes)
    requires Reads(c, keys, t.main, plain, fallback)
    ensures FuzzyAnswer(c, keys, t, f, keyword, fallback) == Ok(Scan(t.main, plain, Holds(f, keyword))) <==>
            forall id :: id in t.main && Contains(plain[id].Get(f), keyword) ==>
              (id in FuzzyIds(c, keys, t.inverted, f, keyword)
               && ReachedIn(t.main, FuzzyIds(c, keys, t.inverted, f, keyword), id))
  {
    QueryIff(c, keys, t.main, plain, FuzzyIds(c, keys, t.inverted, f, keyword), Holds(f, keyword), fallback);
    forall id
      ensures id in Matches(plain, Holds(f, keyword), t.main) <==> id in t.main && Contains(plain[id].Get(f), keyword)
    {
      MatchesContain(t.main, plain, f, keyword, id);
    }
  }

  // What fuzzy search owes: the scan, for every field and every keyword whose hashes are distinct.
  ghost predicate FuzzySearchRight(c: Crypto, keys: KeyState, t: Tables, plain: map<int, Plain>, fallback: Bytes)
    requires t.main.Keys == plain.Keys
  {
    forall f: Field, keyword :: |keyword| >= 2 && DistinctHashes(c, keys.idx, keyword) ==>
      FuzzyAnswer(c, keys, t, f, keyword, fallback) == Ok(Scan(t.main, plain, Holds(f, keyword)))
  }

  // The first two bytes of a text are a keyword it contains, with one bigram.
  lemma PrefixKeyword(c: Crypto, idx: KeyRing, text: Bytes)
    requires |text| >= 2
    ensures Contains(text, text[..2]) && |SplitBigram(text[..2])| == 1 && DistinctHashes(c, idx, text[..2])
  {
    assert OccursAt(text, text[..2], 0);
  }

  lemma RightFuzzyIsShort(c: Crypto, keys: KeyState, t: Tables, plain: map<int, Plain>, fallback: Bytes)
    requires t.main.Keys == plain.Keys && AllSized(t.main, plain) && FuzzySearchRight(c, keys, t, plain, fallback)
    ensures ShortValues(plain)
  {
    forall id, f: Field | id in t.main ensures |plain[id].Get(f)| <= 2031 {
      if |plain[id].Get(f)| >= 2 {
        PrefixKeyword(c, keys.idx, plain[id].Get(f));
        RightFuzzyNeeds(c, keys, t, plain, id, f, plain[id].Get(f)[..2], fallback);
        ReadableIff(t.main[id], plain[id]);
      }
    }
  }

  // Without any assumption: when a fuzzy answer is right, every row that contains the keyword
  // is a candidate, fits the buffers and reads back.
  lemma RightFuzzyNeeds(c: Crypto, keys: KeyState, t: Tables, plain: map<int, Plain>, id: int, f: Field, keyword: Bytes,
      fallback: Bytes)
    requires t.main.Keys == plain.Keys && id in t.main && Contains(plain[id].Get(f), keyword)
    requires FuzzyAnswer(c, keys, t, f, keyword, fallback) == Ok(Scan(t.main, plain, Holds(f, keyword)))
    ensures id in FuzzyIds(c, keys, t.inverted, f, keyword) && Readable(t.main[id])
    ensures FullRow(c, keys, id, t.main[id], fallback) == Ok(TrueRecord(t.main, plain, id))
  {
    MatchesContain(t.main, plain, f, keyword, id);
    var ids := FuzzyIds(c, keys, t.inverted, f, keyword);
    RightAnswerNeeds(c, keys, t.main, plain, ids, Holds(f, keyword), fallback, id);
  }

  // So a row with a value of more than 2031 bytes is missing under every keyword it contains.
  lemma LongValueIsMissed(c: Crypto, keys: KeyState, t: Tables, plain: map<int, Plain>, id: int, f: Field, g: Field,
      keyword: Bytes, fallback: Bytes)
    requires t.main.Keys == plain.Keys && AllSized(t.main, plain) && id in t.main
    requires Contains(plain[id].Get(f), keyword) && |plain[id].Get(g)| > 2031
    ensures FuzzyAnswer(c, keys, t, f, keyword, fallback) != Ok(Scan(t.main, plain, Holds(f, keyword)))
  {
    ReadableIff(t.main[id], plain[id]);
    if FuzzyAnswer(c, keys, t, f, keyword, fallback) == Ok(Scan(t.main, plain, Holds(f, keyword))) {
      RightFuzzyNeeds(c, keys, t, plain, id, f, keyword, fallback);
    }
  }

  // Candidates that the buffers hold and that include every row with the keyword are enough.
  lemma FoundIsScan(c: Crypto, keys: KeyState, t: Tables, plain: map<int, Plain>, f: Field, keyword: Bytes,
      fallback: Bytes)
    requires Reads(c, keys, t.main, plain, fallback) && AllReadable(t.main)
    requires forall id :: id in t.main && Contains(plain[id].Get(f), keyword) ==>
      id in FuzzyIds(c, keys, t.inverted, f, keyword)
    ensures FuzzyAnswer(c, keys, t, f, keyword, fallback) == Ok(Scan(t.main, plain, Holds(f, keyword)))
  {
    FuzzyQueryIff(c, keys, t, plain, f, keyword, fallback);
  }

  lemma FuzzyIsScan(c: Crypto, keys: KeyState, t: Tables, plain: map<int, Plain>, f: Field, keyword: Bytes,
      fallback: Bytes)
    requires Reads(c, keys, t.main, plain, fallback) && AllReadable(t.main)
    requires |keyword| >= 2 && DistinctHashes(c, keys.idx, keyword)
    requires forall id :: id in t.main && Contains(plain[id].Get(f), keyword) ==>
      Covered(c, keys.idx, t.inverted, id, plain[id], f)
    ensures FuzzyAnswer(c, keys, t, f, keyword, fallback) == Ok(Scan(t.main, plain, Holds(f, keyword)))
  {
    forall id | id in t.main && Contains(plain[id].Get(f), keyword)
      ensures id in FuzzyIds(c, keys, t.inverted, f, keyword)
    {
      CoveredIsFound(c, keys, t.inverted, id, plain[id], f, keyword);
    }
    FoundIsScan(c, keys, t, plain, f, keyword, fallback);
  }

  // A row without tokens is missing under every keyword it contains.
  lemma TokenlessIsMissed(c: Crypto, keys: KeyState, t: Tables, plain: map<int, Plain>, id: int, f: Field,
      keyword: Bytes, fallback: Bytes)
    requires t.main.Keys == plain.Keys && id in t.main && |keyword| >= 2 && Contains(plain[id].Get(f), keyword)
    requires forall h :: Token(h, id, f) !in t.inverted
    ensures FuzzyAnswer(c, keys, t, f, keyword, fallback) != Ok(Scan(t.main, plain, Holds(f, keyword)))
  {
    forall v | v in keys.idx.infos
      ensures id !in FuzzyCandidates(t.inverted, KeywordHashes(c, keys.idx, v, keyword), f)
    {
      var hashes := KeywordHashes(c, keys.idx, v, keyword);
      assert |hashes| == |keyword| - 1;
      assert hashes[0] in hashes && Token(hashes[0], id, f) !in t.inverted;
      FuzzyCandidateIff(t.inverted, hashes, id, f);
    }
    if FuzzyAnswer(c, keys, t, f, keyword, fallback) == Ok(Scan(t.main, plain, Holds(f, keyword))) {
      RightFuzzyNeeds(c, keys, t, plain, id, f, keyword, fallback);
    }
  }

  // ---- Rows that are not covered ----

  // The fields of all rows are covered but for some.
  ghost predicate CoveredExcept(c: Crypto, idx: KeyRing, t: Tables, plain: map<int, Plain>, pending: set<(int, Field)>)
    requires t.main.Keys == plain.Keys
  {
    forall id, f: Field :: id in t.main && (id, f) !in pending ==> Covered(c, idx, t.inverted, id, plain[id], f)
  }

  // The rows a fuzzy query finds: candidates that are delivered and contain the keyword.
  function FoundIds(c: Crypto, keys: KeyState, t: Tables, plain: map<int, Plain>, f: Field,
      keyword: Bytes): (r: set<int>)
    requires t.main.Keys == plain.Keys
    ensures r <= Matches(plain, Holds(f, keyword), t.main)
  {
    Delivered(t.main, plain, FuzzyIds(c, keys, t.inverted, f, keyword), Holds(f, keyword))
  }

  lemma FuzzyAnswerFound(c: Crypto, keys: KeyState, t: Tables, plain: map<int, Plain>, f: Field, keyword: Bytes,
      fallback: Bytes)
    requires Reads(c, keys, t.main, plain, fallback)
    ensures FuzzyAnswer(c, keys, t, f, keyword, fallback)
         == Ok(ListOf(t.main, plain, FoundIds(c, keys, t, plain, f, keyword)))
  {
    AnswerIs(c, keys, t.main, plain, FuzzyIds(c, keys, t.inverted, f, keyword), Holds(f, keyword), fallback);
  }

  // With rows uncovered or out of reach, fuzzy search may miss those, and nothing else.
  lemma FoundAreWanted(c: Crypto, keys: KeyState, t: Tables, plain: map<int, Plain>, pending: set<(int, Field)>,
      f: Field, keyword: Bytes)
    requires t.main.Keys == plain.Keys && CoveredExcept(c, keys.idx, t, plain, pending)
    requires |keyword| >= 2 && DistinctHashes(c, keys.idx, keyword)
    ensures
      var ids, wanted := FuzzyIds(c, keys, t.inverted, f, keyword), Matches(plain, Holds(f, keyword), t.main);
      forall id :: id in wanted && (id, f) !in pending && ReachedIn(t.main, ids, id) ==>
        id in FoundIds(c, keys, t, plain, f, keyword)
  {
    var ids := FuzzyIds(c, keys, t.inverted, f, keyword);
    forall id | id in Matches(plain, Holds(f, keyword), t.main) && (id, f) !in pending && ReachedIn(t.main, ids, id)
      ensures id in FoundIds(c, keys, t, plain, f, keyword)
    {
      MatchesContain(t.main, plain, f, keyword, id);
      CoveredIsFound(c, keys, t.inverted, id, plain[id], f, keyword);
      FetchedIff(t.main, ids, id);
    }
  }

  // ---- Repeated bigrams ----

  // No two different bigrams of the keyword collide under a known version.
  ghost predicate NoCollisions(c: Crypto, idx: KeyRing, keyword: Bytes) {
    forall v, a, b :: v in idx.infos && a in SplitBigram(keyword) && b in SplitBigram(keyword) ==>
      (HmacHex(c, a, idx.infos[v].key) == HmacHex(c, b, idx.infos[v].key) ==> a == b)
  }

  lemma RepeatedBigramHashes(c: Crypto, idx: KeyRing, v: int, keyword: Bytes)
    requires v in idx.infos
    ensures !Distinct(SplitBigram(keyword)) ==> !Distinct(KeywordHashes(c, idx, v, keyword))
    ensures NoCollisions(c, idx, keyword) ==>
      (Distinct(SplitBigram(keyword)) <==> Distinct(KeywordHashes(c, idx, v, keyword)))
  {
    var tokens, hashes := SplitBigram(keyword), KeywordHashes(c, idx, v, keyword);
    if i, j :| 0 <= i < j < |tokens| && tokens[i] == tokens[j] {
      assert hashes[i] == hashes[j];
    }
    if NoCollisions(c, idx, keyword) {
      if i, j :| 0 <= i < j < |hashes| && hashes[i] == hashes[j] {
        assert tokens[i] in tokens && tokens[j] in tokens;
        assert tokens[i] == tokens[j];
      }
    }
  }

  // A keyword in which a bigram repeats has no candidates at all.
  lemma RepeatFindsNothing(c: Crypto, keys: KeyState, t: Tables, f: Field, keyword: Bytes, fallback: Bytes)
    requires !Distinct(SplitBigram(keyword))
    ensures FuzzyIds(c, keys, t.inverted, f, keyword) == {}
    ensures FuzzyAnswer(c, keys, t, f, keyword, fallback) == Ok([])
  {
    forall v | v in keys.idx.infos
      ensures FuzzyCandidates(t.inverted, KeywordHashes(c, keys.idx, v, keyword), f) == {}
    {
      RepeatedBigramHashes(c, keys.idx, v, keyword);
      NoCandidateForRepeats(t.inverted, KeywordHashes(c, keys.idx, v, keyword), f);
    }
    FetchedOrdered(t.main, {});
    assert Fetched(t.main, FuzzyIds(c, keys, t.inverted, f, keyword)) == [];
  }

  // Over covered rows and a collision-free keyword, one fuzzy query is the scan exactly when
  // no row contains the keyword, or no bigram of it repeats and the fetch loop reaches every
  // row that contains it.
  lemma FuzzyKeywordIff(c: Crypto, keys: KeyState, t: Tables, plain: map<int, Plain>, f: Field, keyword: Bytes,
      fallback: Bytes)
    requires Reads(c, keys, t.main, plain, fallback) && AllCovered(c, keys.idx, t, plain)
    requires |keyword| >= 2 && NoCollisions(c, keys.idx, keyword)
    ensures FuzzyAnswer(c, keys, t, f, keyword, fallback) == Ok(Scan(t.main, plain, Holds(f, keyword))) <==>
            forall id :: id in t.main && Contains(plain[id].Get(f), keyword) ==>
              (Distinct(SplitBigram(keyword)) && ReachedIn(t.main, FuzzyIds(c, keys, t.inverted, f, keyword), id))
  {
    FuzzyQueryIff(c, keys, t, plain, f, keyword, fallback);
    if Distinct(SplitBigram(keyword)) {
      forall v | v in keys.idx.infos ensures Distinct(KeywordHashes(c, keys.idx, v, keyword)) {
        RepeatedBigramHashes(c, keys.idx, v, keyword);
      }
      forall id | id in t.main && Contains(plain[id].Get(f), keyword)
        ensures id in FuzzyIds(c, keys, t.inverted, f, keyword)
      {
        CoveredIsFound(c, keys, t.inverted, id, plain[id], f, keyword);
      }
    } else {
      RepeatFindsNothing(c, keys, t, f, keyword, fallback);
    }
  }

  const AAA: Bytes := [0x61, 0x61, 0x61]

  // The smallest such keyword: a row whose value is "aaa" is not found under "aaa".
  lemma RepeatedBigramExample(c: Crypto, keys: KeyState, t: Tables, plain: map<int, Plain>, id: int, f: Field,
      fallback: Bytes)
    requires t.main.Keys == plain.Keys && id in t.main && plain[id].Get(f) == AAA
    ensures FuzzyAnswer(c, keys, t, f, AAA, fallback) == Ok([])
    ensures Scan(t.main, plain, Holds(f, AAA)) != []
  {
    assert SplitBigram(AAA)[0] == [0x61, 0x61] == SplitBigram(AAA)[1];
    RepeatFindsNothing(c, keys, t, f, AAA, fallback);
    assert OccursAt(AAA, AAA, 0);
    MatchesContain(t.main, plain, f, AAA, id);
    assert |Scan(t.main, plain, Holds(f, AAA))| == |Matches(plain, Holds(f, AAA), t.main)|;
  }
}
