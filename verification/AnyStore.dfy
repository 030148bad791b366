/** Exactly when search is right, whatever has happened to the store. */
module AnyStore {
  import opened Common
  import opened Sm4
  import opened Tables
  import opened Keys
  import opened Dao
  import opened Search
  import opened Exactness

  // Some value of the row is long enough to be asked for.
  ghost predicate Askable(data: Plain) {
    exists f: Field :: |data.Get(f)| >= 2
  }

  ghost predicate AllAskable(plain: map<int, Plain>) {
    forall id :: id in plain ==> Askable(plain[id])
  }

  // ---- Exact search ----

  // No exact query that has the row among its candidates fails because of it or returns it.
  ghost predicate ExactSilent(c: Crypto, keys: KeyState, main: map<int, Row>, id: int, fallback: Bytes) {
    forall f: Field, keyword :: |keyword| >= 2 && id in ExactIds(c, keys, main, f, keyword) ==>
      Dismissed(c, keys, main, id, Equals(f, keyword), fallback)
  }

  // Rows one can ask for read back, and the others stay silent.
  ghost predicate ExactRowSound(c: Crypto, keys: KeyState, main: map<int, Row>, plain: map<int, Plain>, id: int,
      fallback: Bytes)
    requires id in plain
  {
    if Askable(plain[id]) then RowReads(c, keys, main, plain, id, fallback)
    else ExactSilent(c, keys, main, id, fallback)
  }

  ghost predicate ExactRowsSound(c: Crypto, keys: KeyState, main: map<int, Row>, plain: map<int, Plain>,
      fallback: Bytes)
    requires main.Keys == plain.Keys
  {
    forall id :: id in main ==> ExactRowSound(c, keys, main, plain, id, fallback)
  }

  // A row that reads back is dismissed by the queries that do not want it.
  lemma ReadIsDismissed(c: Crypto, keys: KeyState, main: map<int, Row>, plain: map<int, Plain>, id: int,
      p: FullRecord -> bool, fallback: Bytes)
    requires main.Keys == plain.Keys && RowReads(c, keys, main, plain, id, fallback)
    ensures id !in Matches(plain, p, main) ==> Dismissed(c, keys, main, id, p, fallback)
  {
  }

  lemma SoundQuery(c: Crypto, keys: KeyState, t: Tables, plain: map<int, Plain>, f: Field, keyword: Bytes,
      fallback: Bytes)
    requires t.main.Keys == plain.Keys && AllReadable(t.main) && |keyword| >= 2
    requires IndexIntact(c, keys.idx, t.main, plain) && ExactRowsSound(c, keys, t.main, plain, fallback)
    ensures ExactAnswer(c, keys, t, f, keyword, fallback) == Ok(Scan(t.main, plain, Equals(f, keyword)))
  {
    var ids, p := ExactIds(c, keys, t.main, f, keyword), Equals(f, keyword);
    AnyQueryIff(c, keys, t.main, plain, ids, p, fallback);
    forall id | id in Matches(plain, p, t.main)
      ensures id in ids && RowReads(c, keys, t.main, plain, id, fallback)
    {
      EqualMatches(t.main, plain, f, keyword, id);
      CandidateIff(c, keys, t.main, plain, f, id);
      assert ExactRowSound(c, keys, t.main, plain, id, fallback);
    }
    forall id | id in ids && id in t.main && id !in Matches(plain, p, t.main)
      ensures Dismissed(c, keys, t.main, id, p, fallback)
    {
      assert ExactRowSound(c, keys, t.main, plain, id, fallback);
      if Askable(plain[id]) {
        ReadIsDismissed(c, keys, t.main, plain, id, p, fallback);
      }
    }
  }

  lemma RightRowIsSound(c: Crypto, keys: KeyState, t: Tables, plain: map<int, Plain>, id: int, fallback: Bytes)
    requires t.main.Keys == plain.Keys && AllReadable(t.main) && id in t.main
    requires ExactSearchRight(c, keys, t, plain, fallback)
    ensures ExactRowSound(c, keys, t.main, plain, id, fallback)
  {
    if Askable(plain[id]) {
      var f: Field :| |plain[id].Get(f)| >= 2;
      RightSearchNeeds(c, keys, t, plain, fallback, id, f);
    } else {
      forall f: Field, keyword | |keyword| >= 2 && id in ExactIds(c, keys, t.main, f, keyword)
        ensures Dismissed(c, keys, t.main, id, Equals(f, keyword), fallback)
      {
        assert ExactOnFieldRight(c, keys, t, plain, f, fallback);
        AnyQueryIff(c, keys, t.main, plain, ExactIds(c, keys, t.main, f, keyword), Equals(f, keyword), fallback);
        EqualMatches(t.main, plain, f, keyword, id);
        assert |plain[id].Get(f)| < 2;
        assert ReachedIn(t.main, ExactIds(c, keys, t.main, f, keyword), id);
      }
    }
  }

  // Exact search is right exactly when no value is longer than 2031 bytes, the blind indexes of
  // all values one can ask for are known, their rows read back and the others stay silent.
  lemma AnyExactSearchIff(c: Crypto, keys: KeyState, t: Tables, plain: map<int, Plain>, fallback: Bytes)
    requires t.main.Keys == plain.Keys && AllSized(t.main, plain)
    ensures ExactSearchRight(c, keys, t, plain, fallback) <==>
            ShortValues(plain) && IndexIntact(c, keys.idx, t.main, plain)
            && ExactRowsSound(c, keys, t.main, plain, fallback)
  {
    AllReadableIff(t.main, plain);
    if ExactSearchRight(c, keys, t, plain, fallback) {
      forall id, f: Field | id in t.main && |plain[id].Get(f)| >= 2
        ensures BlindKnown(c, keys.idx, t.main[id], plain[id], f) && |plain[id].Get(f)| <= 2031
      {
        RightSearchNeeds(c, keys, t, plain, fallback, id, f);
        ReadableIff(t.main[id], plain[id]);
      }
      assert ShortValues(plain);
      forall id | id in t.main ensures ExactRowSound(c, keys, t.main, plain, id, fallback) {
        RightRowIsSound(c, keys, t, plain, id, fallback);
      }
    }
    if ShortValues(plain) && IndexIntact(c, keys.idx, t.main, plain)
       && ExactRowsSound(c, keys, t.main, plain, fallback) {
      forall f: Field, keyword: Bytes | |keyword| >= 2
        ensures ExactAnswer(c, keys, t, f, keyword, fallback) == Ok(Scan(t.main, plain, Equals(f, keyword)))
      {
        SoundQuery(c, keys, t, plain, f, keyword, fallback);
      }
    }
  }

  // Where every row can be asked for, the rows are sound exactly when they all read back.
  lemma ExactSoundIffReads(c: Crypto, keys: KeyState, main: map<int, Row>, plain: map<int, Plain>, fallback: Bytes)
    requires main.Keys == plain.Keys
    ensures Reads(c, keys, main, plain, fallback) ==> ExactRowsSound(c, keys, main, plain, fallback)
    ensures AllAskable(plain) ==>
      (ExactRowsSound(c, keys, main, plain, fallback) <==> Reads(c, keys, main, plain, fallback))
  {
    if Reads(c, keys, main, plain, fallback) {
      forall id | id in main ensures ExactRowSound(c, keys, main, plain, id, fallback) {
        ReadIsSilent(c, keys, main, plain, id, fallback);
      }
    }
    if AllAskable(plain) && ExactRowsSound(c, keys, main, plain, fallback) {
      forall id | id in main ensures RowReads(c, keys, main, plain, id, fallback) {
        assert ExactRowSound(c, keys, main, plain, id, fallback);
      }
    }
  }

  lemma ReadIsSilent(c: Crypto, keys: KeyState, main: map<int, Row>, plain: map<int, Plain>, id: int, fallback: Bytes)
    requires main.Keys == plain.Keys && RowReads(c, keys, main, plain, id, fallback)
    ensures ExactRowSound(c, keys, main, plain, id, fallback)
  {
    if !Askable(plain[id]) {
      forall f: Field, keyword: Bytes | |keyword| >= 2
        ensures Dismissed(c, keys, main, id, Equals(f, keyword), fallback)
      {
        assert |plain[id].Get(f)| < 2;
        EqualMatches(main, plain, f, keyword, id);
        ReadIsDismissed(c, keys, main, plain, id, Equals(f, keyword), fallback);
      }
    }
  }

  // ---- Fuzzy search ----

  // Under some version the index holds all hashes of the keyword for the field.
  ghost predicate KeywordIndexed(c: Crypto, idx: KeyRing, inverted: set<Token>, id: int, f: Field, keyword: Bytes) {
    exists v :: v in idx.infos && AllIndexed(inverted, KeywordHashes(c, idx, v, keyword), id, f)
  }

  ghost predicate AllIndexed(inverted: set<Token>, hashes: seq<Bytes>, id: int, f: Field) {
    forall h :: h in hashes ==> Token(h, id, f) in inverted
  }

  // Every keyword that a value contains, and that can be found at all, is indexed.
  ghost predicate Findable(c: Crypto, idx: KeyRing, inverted: set<Token>, id: int, data: Plain) {
    forall f: Field, keyword ::
      |keyword| >= 2 && DistinctHashes(c, idx, keyword) && Contains(data.Get(f), keyword) ==>
      KeywordIndexed(c, idx, inverted, id, f, keyword)
  }

  ghost predicate AllFindable(c: Crypto, idx: KeyRing, t: Tables, plain: map<int, Plain>)
    requires t.main.Keys == plain.Keys
  {
    forall id :: id in t.main ==> Findable(c, idx, t.inverted, id, plain[id])
  }

  lemma IndexedIff(c: Crypto, keys: KeyState, inverted: set<Token>, id: int, f: Field, keyword: Bytes)
    requires |keyword| >= 2 && DistinctHashes(c, keys.idx, keyword)
    ensures id in FuzzyIds(c, keys, inverted, f, keyword) <==> KeywordIndexed(c, keys.idx, inverted, id, f, keyword)
  {
    forall v | v in keys.idx.infos
      ensures id in FuzzyCandidates(inverted, KeywordHashes(c, keys.idx, v, keyword), f) <==>
              AllIndexed(inverted, KeywordHashes(c, keys.idx, v, keyword), id, f)
    {
      assert |KeywordHashes(c, keys.idx, v, keyword)| == |keyword| - 1;
      FuzzyCandidateIff(inverted, KeywordHashes(c, keys.idx, v, keyword), id, f);
    }
  }

  // Covered rows are findable; the converse fails, since one version may serve one keyword and
  // another the next.
  lemma CoveredIsFindable(c: Crypto, keys: KeyState, inverted: set<Token>, id: int, data: Plain)
    requires forall f: Field :: Covered(c, keys.idx, inverted, id, data, f)
    ensures Findable(c, keys.idx, inverted, id, data)
  {
    forall f: Field, keyword |
      |keyword| >= 2 && DistinctHashes(c, keys.idx, keyword) && Contains(data.Get(f), keyword)
      ensures KeywordIndexed(c, keys.idx, inverted, id, f, keyword)
    {
      CoveredIsFound(c, keys, inverted, id, data, f, keyword);
      IndexedIff(c, keys, inverted, id, f, keyword);
    }
  }

  ghost predicate FuzzySilent(c: Crypto, keys: KeyState, t: Tables, id: int, fallback: Bytes) {
    forall f: Field, keyword ::
      |keyword| >= 2 && DistinctHashes(c, keys.idx, keyword) && id in FuzzyIds(c, keys, t.inverted, f, keyword) ==>
      Dismissed(c, keys, t.main, id, Holds(f, keyword), fallback)
  }

  ghost predicate FuzzyRowSound(c: Crypto, keys: KeyState, t: Tables, plain: map<int, Plain>, id: int, fallback: Bytes)
    requires id in plain
  {
    if Askable(plain[id]) then RowReads(c, keys, t.main, plain, id, fallback)
    else FuzzySilent(c, keys, t, id, fallback)
  }

  ghost predicate FuzzyRowsSound(c: Crypto, keys: KeyState, t: Tables, plain: map<int, Plain>, fallback: Bytes)
    requires t.main.Keys == plain.Keys
  {
    forall id :: id in t.main ==> FuzzyRowSound(c, keys, t, plain, id, fallback)
  }

  lemma LongerThanKeyword(text: Bytes, keyword: Bytes)
    requires Contains(text, keyword)
    ensures |keyword| <= |text|
  {
  }

  lemma SoundFuzzyQuery(c: Crypto, keys: KeyState, t: Tables, plain: map<int, Plain>, f: Field, keyword: Bytes,
      fallback: Bytes)
    requires t.main.Keys == plain.Keys && AllReadable(t.main) && |keyword| >= 2 && DistinctHashes(c, keys.idx, keyword)
    requires AllFindable(c, keys.idx, t, plain) && FuzzyRowsSound(c, keys, t, plain, fallback)
    ensures FuzzyAnswer(c, keys, t, f, keyword, fallback) == Ok(Scan(t.main, plain, Holds(f, keyword)))
  {
    var ids, p := FuzzyIds(c, keys, t.inverted, f, keyword), Holds(f, keyword);
    AnyQueryIff(c, keys, t.main, plain, ids, p, fallback);
    forall id | id in Matches(plain, p, t.main)
      ensures id in ids && RowReads(c, keys, t.main, plain, id, fallback)
    {
      MatchesContain(t.main, plain, f, keyword, id);
      LongerThanKeyword(plain[id].Get(f), keyword);
      IndexedIff(c, keys, t.inverted, id, f, keyword);
      assert FuzzyRowSound(c, keys, t, plain, id, fallback) && Findable(c, keys.idx, t.inverted, id, plain[id]);
    }
    forall id | id in ids && id in t.main && id !in Matches(plain, p, t.main)
      ensures Dismissed(c, keys, t.main, id, p, fallback)
    {
      assert FuzzyRowSound(c, keys, t, plain, id, fallback);
      if Askable(plain[id]) {
        ReadIsDismissed(c, keys, t.main, plain, id, p, fallback);
      }
    }
  }

  lemma RightFuzzyRow(c: Crypto, keys: KeyState, t: Tables, plain: map<int, Plain>, id: int, fallback: Bytes)
    requires t.main.Keys == plain.Keys && AllReadable(t.main) && id in t.main
    requires FuzzySearchRight(c, keys, t, plain, fallback)
    ensures FuzzyRowSound(c, keys, t, plain, id, fallback) && Findable(c, keys.idx, t.inverted, id, plain[id])
  {
    forall f: Field, keyword |
      |keyword| >= 2 && DistinctHashes(c, keys.idx, keyword) && Contains(plain[id].Get(f), keyword)
      ensures KeywordIndexed(c, keys.idx, t.inverted, id, f, keyword)
    {
      RightFuzzyNeeds(c, keys, t, plain, id, f, keyword, fallback);
      IndexedIff(c, keys, t.inverted, id, f, keyword);
    }
    if Askable(plain[id]) {
      var f: Field :| |plain[id].Get(f)| >= 2;
      PrefixKeyword(c, keys.idx, plain[id].Get(f));
      RightFuzzyNeeds(c, keys, t, plain, id, f, plain[id].Get(f)[..2], fallback);
    } else {
      forall f: Field, keyword |
        |keyword| >= 2 && DistinctHashes(c, keys.idx, keyword) && id in FuzzyIds(c, keys, t.inverted, f, keyword)
        ensures Dismissed(c, keys, t.main, id, Holds(f, keyword), fallback)
      {
        AnyQueryIff(c, keys, t.main, plain, FuzzyIds(c, keys, t.inverted, f, keyword), Holds(f, keyword), fallback);
        MatchesContain(t.main, plain, f, keyword, id);
        assert |plain[id].Get(f)| < 2;
        assert ReachedIn(t.main, FuzzyIds(c, keys, t.inverted, f, keyword), id);
      }
    }
  }

  // Fuzzy search is right for all keywords with distinct hashes exactly when no value is longer
  // than 2031 bytes, the rows are sound and every keyword they contain is indexed.
  lemma AnyFuzzySearchIff(c: Crypto, keys: KeyState, t: Tables, plain: map<int, Plain>, fallback: Bytes)
    requires t.main.Keys == plain.Keys && AllSized(t.main, plain)
    ensures FuzzySearchRight(c, keys, t, plain, fallback) <==>
            ShortValues(plain) && AllFindable(c, keys.idx, t, plain)
            && FuzzyRowsSound(c, keys, t, plain, fallback)
  {
    AllReadableIff(t.main, plain);
    if FuzzySearchRight(c, keys, t, plain, fallback) {
      RightFuzzyIsShort(c, keys, t, plain, fallback);
      forall id | id in t.main
        ensures FuzzyRowSound(c, keys, t, plain, id, fallback) && Findable(c, keys.idx, t.inverted, id, plain[id])
      {
        RightFuzzyRow(c, keys, t, plain, id, fallback);
      }
    }
    if ShortValues(plain) && AllFindable(c, keys.idx, t, plain) && FuzzyRowsSound(c, keys, t, plain, fallback) {
      forall f: Field, keyword | |keyword| >= 2 && DistinctHashes(c, keys.idx, keyword)
        ensures FuzzyAnswer(c, keys, t, f, keyword, fallback) == Ok(Scan(t.main, plain, Holds(f, keyword)))
      {
        SoundFuzzyQuery(c, keys, t, plain, f, keyword, fallback);
      }
    }
  }

  lemma FuzzySoundIffReads(c: Crypto, keys: KeyState, t: Tables, plain: map<int, Plain>, fallback: Bytes)
    requires t.main.Keys == plain.Keys
    ensures Reads(c, keys, t.main, plain, fallback) ==> FuzzyRowsSound(c, keys, t, plain, fallback)
    ensures AllAskable(plain) ==>
      (FuzzyRowsSound(c, keys, t, plain, fallback) <==> Reads(c, keys, t.main, plain, fallback))
  {
    if Reads(c, keys, t.main, plain, fallback) {
      forall id | id in t.main ensures FuzzyRowSound(c, keys, t, plain, id, fallback) {
        ReadIsFuzzySilent(c, keys, t, plain, id, fallback);
      }
    }
    if AllAskable(plain) && FuzzyRowsSound(c, keys, t, plain, fallback) {
      forall id | id in t.main ensures RowReads(c, keys, t.main, plain, id, fallback) {
        assert FuzzyRowSound(c, keys, t, plain, id, fallback);
      }
    }
  }

  lemma ReadIsFuzzySilent(c: Crypto, keys: KeyState, t: Tables, plain: map<int, Plain>, id: int, fallback: Bytes)
    requires t.main.Keys == plain.Keys && RowReads(c, keys, t.main, plain, id, fallback)
    ensures FuzzyRowSound(c, keys, t, plain, id, fallback)
  {
    if !Askable(plain[id]) {
      forall f: Field, keyword: Bytes | |keyword| >= 2
        ensures Dismissed(c, keys, t.main, id, Holds(f, keyword), fallback)
      {
        assert |plain[id].Get(f)| < 2;
        MatchesContain(t.main, plain, f, keyword, id);
        ReadIsDismissed(c, keys, t.main, plain, id, Holds(f, keyword), fallback);
      }
    }
  }
}
