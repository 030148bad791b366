/** Guards, candidates, batch decryption with fallback, final filter: src/query/query_service.cpp. */
module QueryService {
  import opened Common
  import opened Ordering
  import opened Sm4
  import opened Tables
  import opened Database
  import opened Keys
  import opened Dao
  import BatchDecryptor
  import opened RateLimiter
  import opened Search
  import opened Answers

  const MIN_KEYWORD_LENGTH := 2
  const MAX_CANDIDATE_COUNT := 10000
  const QUEUE_CAPACITY := 32768

  // FullRecordBuilder: the ciphertexts and tags of one row, filled field by field.
  datatype Builder = Builder(encVersion: int, name: (Bytes, Bytes), phone: (Bytes, Bytes), address: (Bytes, Bytes)) {
    function Get(f: Field): (Bytes, Bytes) {
      match f case Name => name case Phone => phone case Address => address
    }

    function Set(r: CipherRecord): (b: Builder)
      ensures b.encVersion == r.encVersion
      ensures forall g: Field :: b.Get(g) == if g == r.field then (r.cipher, r.tag) else Get(g)
    {
      match r.field
      case Name => Builder(r.encVersion, (r.cipher, r.tag), phone, address)
      case Phone => Builder(r.encVersion, name, (r.cipher, r.tag), address)
      case Address => Builder(r.encVersion, name, phone, (r.cipher, r.tag))
    }
  }

  const NEW_BUILDER := Builder(0, ([], []), ([], []), ([], []))

  function BuilderOf(row: Row): Builder {
    Builder(row.encVersion, (row.name.cipher, row.name.tag), (row.phone.cipher, row.phone.tag),
            (row.address.cipher, row.address.tag))
  }

  function Builders(main: map<int, Row>, ids: seq<int>): map<int, Builder>
    requires forall i :: 0 <= i < |ids| ==> ids[i] in main
  {
    map id | id in ids :: BuilderOf(main[id])
  }

  // A record that carries the stored columns of its row and field.
  ghost predicate Genuine(main: map<int, Row>, ids: seq<int>, r: CipherRecord) {
    r.id in ids && r.id in main && r == RecordOf(r.id, main[r.id], r.field)
  }

  lemma RowRecordsAreGenuine(main: map<int, Row>, ids: seq<int>, id: int)
    requires id in ids && id in main
    ensures forall r :: r in RecordsOfRow(id, main[id]) ==> Genuine(main, ids, r)
    ensures forall f: Field :: RecordOf(id, main[id], f) in RecordsOfRow(id, main[id])
  {
    var rs := RecordsOfRow(id, main[id]);
    assert rs[0] in rs && rs[1] in rs && rs[2] in rs;
  }

  lemma {:induction false} RecordsAreGenuine(main: map<int, Row>, ids: seq<int>)
    requires forall i :: 0 <= i < |ids| ==> ids[i] in main
    ensures forall r :: r in RecordsOf(main, ids) ==> Genuine(main, ids, r)
    ensures forall id, f: Field :: id in ids ==> RecordOf(id, main[id], f) in RecordsOf(main, ids)
  {
    if ids != [] {
      var n := |ids| - 1;
      RecordsAreGenuine(main, ids[..n]);
      assert ids == ids[..n] + [ids[n]];
      RowRecordsAreGenuine(main, ids, ids[n]);
    }
  }

  // The builders hold exactly what the records so far say.
  ghost predicate Grouped(builders: map<int, Builder>, records: seq<CipherRecord>, main: map<int, Row>, ids: seq<int>) {
    && (forall id :: id in builders ==> id in ids && id in main && builders[id].encVersion == main[id].encVersion)
    && (forall k :: 0 <= k < |records| ==>
          && records[k].id in builders
          && builders[records[k].id].Get(records[k].field) == (records[k].cipher, records[k].tag))
  }

  lemma GroupedNext(before: map<int, Builder>, after: map<int, Builder>, records: seq<CipherRecord>, r: CipherRecord,
      main: map<int, Row>, ids: seq<int>)
    requires Grouped(before, records, main, ids) && Genuine(main, ids, r)
    requires forall k :: 0 <= k < |records| ==> Genuine(main, ids, records[k])
    requires after.Keys == before.Keys + {r.id} && after[r.id].encVersion == r.encVersion
    requires after[r.id].Get(r.field) == (r.cipher, r.tag)
    requires forall g: Field :: r.id in before && g != r.field ==> after[r.id].Get(g) == before[r.id].Get(g)
    requires forall id :: id in before && id != r.id ==> after[id] == before[id]
    ensures Grouped(after, records + [r], main, ids)
  {
    var longer := records + [r];
    forall k | 0 <= k < |longer|
      ensures longer[k].id in after && after[longer[k].id].Get(longer[k].field) == (longer[k].cipher, longer[k].tag)
    {
      if k < |records| {
        assert Genuine(main, ids, records[k]) && records[k].id in before;
      }
    }
  }

  lemma GroupedAll(builders: map<int, Builder>, records: seq<CipherRecord>, main: map<int, Row>, ids: seq<int>)
    requires forall i :: 0 <= i < |ids| ==> ids[i] in main
    requires Grouped(builders, records, main, ids)
    requires forall id, f: Field :: id in ids ==> RecordOf(id, main[id], f) in records
    ensures builders == Builders(main, ids)
  {
    forall id | id in ids ensures id in builders && builders[id] == BuilderOf(main[id]) {
      forall f: Field ensures id in builders && builders[id].Get(f) == BuilderOf(main[id]).Get(f) {
        var r := RecordOf(id, main[id], f);
        assert r in records;
        var k :| 0 <= k < |records| && records[k] == r;
        assert r.cipher == main[id].Get(f).cipher && r.tag == main[id].Get(f).tag;
      }
      assert BuilderOf(main[id]).Get(Name) == BuilderOf(main[id]).name;
      assert id in builders;
      BuilderEqual(builders[id], BuilderOf(main[id]));
    }
    forall id ensures id in builders <==> id in Builders(main, ids) {
      assert id in Builders(main, ids) <==> id in ids;
    }
  }

  // What a query that is not rate-limited returns.
  function ExactOutcome(c: Crypto, keys: KeyState, t: Tables, f: Field, keyword: Bytes,
      fallback: Bytes): Result<seq<FullRecord>> {
    if |keyword| < MIN_KEYWORD_LENGTH then Err(KeywordTooShort)
    else if |ExactIds(c, keys, t.main, f, keyword)| > MAX_CANDIDATE_COUNT then Err(TooManyCandidates)
    else ExactAnswer(c, keys, t, f, keyword, fallback)
  }

  function FuzzyOutcome(c: Crypto, keys: KeyState, t: Tables, f: Field, keyword: Bytes,
      fallback: Bytes): Result<seq<FullRecord>> {
    if |keyword| < MIN_KEYWORD_LENGTH then Err(KeywordTooShort)
    else if |FuzzyIds(c, keys, t.inverted, f, keyword)| > MAX_CANDIDATE_COUNT then Err(TooManyCandidates)
    else FuzzyAnswer(c, keys, t, f, keyword, fallback)
  }

  // What the two queries return and refuse, whatever the store holds.
  lemma ExactOutcomeIs(c: Crypto, keys: KeyState, t: Tables, f: Field, keyword: Bytes, fallback: Bytes)
    ensures ExactRecords(t.main, f, keyword, ExactOutcome(c, keys, t, f, keyword, fallback))
    ensures Refusals(keyword, false, |ExactIds(c, keys, t.main, f, keyword)|,
                     ExactOutcome(c, keys, t, f, keyword, fallback))
  {
    ExactAnswerRecords(c, keys, t, f, keyword, fallback);
    FetchErrors(c, keys, t.main, ExactIds(c, keys, t.main, f, keyword), Equals(f, keyword), fallback);
  }

  lemma FuzzyOutcomeIs(c: Crypto, keys: KeyState, t: Tables, f: Field, keyword: Bytes, fallback: Bytes)
    ensures FuzzyRecords(t.main, f, keyword, FuzzyOutcome(c, keys, t, f, keyword, fallback))
    ensures Refusals(keyword, false, |FuzzyIds(c, keys, t.inverted, f, keyword)|,
                     FuzzyOutcome(c, keys, t, f, keyword, fallback))
  {
    FuzzyAnswerRecords(c, keys, t, f, keyword, fallback);
    FetchErrors(c, keys, t.main, FuzzyIds(c, keys, t.inverted, f, keyword), Holds(f, keyword), fallback);
  }

  lemma FrontError(c: Crypto, keys: KeyState, main: map<int, Row>, ids: seq<int>, fallback: Bytes, e: Error)
    requires ids != [] && forall k :: 0 <= k < |ids| ==> ids[k] in main
    requires FullRows(c, keys, main, ids[..|ids| - 1], fallback) == Err(e)
    ensures FullRows(c, keys, main, ids, fallback) == Err(e)
  {
  }

  // An error at one row is the outcome of the whole list.
  lemma {:induction false} ErrorStays(c: Crypto, keys: KeyState, main: map<int, Row>, ids: seq<int>, i: nat,
      fallback: Bytes, e: Error)
    requires forall k :: 0 <= k < |ids| ==> ids[k] in main
    requires i <= |ids| && FullRows(c, keys, main, ids[..i], fallback) == Err(e)
    ensures FullRows(c, keys, main, ids, fallback) == Err(e)
  {
    if i < |ids| {
      assert ids[..|ids| - 1][..i] == ids[..i];
      ErrorStays(c, keys, main, ids[..|ids| - 1], i, fallback, e);
      FrontError(c, keys, main, ids, fallback, e);
    } else {
      assert ids[..i] == ids;
    }
  }

  lemma NothingToFetch(c: Crypto, keys: KeyState, main: map<int, Row>, fallback: Bytes)
    ensures FetchFullRecords(c, keys, main, {}, fallback) == Ok([])
  {
    FetchedOrdered(main, {});
    assert Fetched(main, {}) == [];
  }

  lemma {:induction false} KeepAny(rs: seq<FullRecord>)
    ensures Keep(rs, AnyRecord()) == rs
  {
    if rs != [] {
      KeepAny(rs[..|rs| - 1]);
    }
  }

  lemma KeepAllAny(r: Result<seq<FullRecord>>)
    ensures KeepAll(r, AnyRecord()) == r
  {
    if r.Ok? {
      KeepAny(r.value);
    }
  }

  lemma KeepNext(built: seq<FullRecord>, rec: FullRecord, f: Field, expected: Option<Bytes>)
    ensures Keep(built + [rec], Selected(f, expected)) ==
            Keep(built, Selected(f, expected)) + if expected.None? || rec.Get(f) == expected.value then [rec] else []
  {
    assert (built + [rec])[..|built|] == built;
  }

  class QueryService {
    const crypto: Crypto
    const dao: DAO
    const keyMgr: KeyManager
    const limiter: RateLimiter

    constructor (dao: DAO, keyMgr: KeyManager, limiter: RateLimiter)
      ensures this.crypto == dao.crypto && this.dao == dao && this.keyMgr == keyMgr && this.limiter == limiter
    {
      this.crypto, this.dao, this.keyMgr, this.limiter := dao.crypto, dao, keyMgr, limiter;
    }

    method DecryptFieldWithVersion(cipher: Bytes, version: int, fallback: Bytes) returns (r: Result<Bytes>)
      ensures r == DecryptField(crypto, keyMgr.state, version, cipher, fallback)
    {
      var key := keyMgr.GetKeyByVersion(Enc, version);
      if key.Some? {
        r := Decrypt(crypto, cipher, key.value);
        if r.Ok? {
          return;
        }
      }
      r := Decrypt(crypto, cipher, fallback);
    }

    // One turn of the grouping loop.
    method AddRecord(builders: map<int, Builder>, r: CipherRecord) returns (grown: map<int, Builder>)
      ensures grown.Keys == builders.Keys + {r.id} && grown[r.id].encVersion == r.encVersion
      ensures grown[r.id].Get(r.field) == (r.cipher, r.tag)
      ensures forall g: Field :: r.id in builders && g != r.field ==> grown[r.id].Get(g) == builders[r.id].Get(g)
      ensures forall id :: id in builders && id != r.id ==> grown[id] == builders[id]
    {
      var b := if r.id in builders then builders[r.id] else NEW_BUILDER;
      grown := builders[r.id := b.Set(r)];
    }

    // Steps 1 and 2: read the ciphertexts and group them by row.
    method GroupByRow(records: seq<CipherRecord>, ghost main: map<int, Row>,
        ghost ids: seq<int>) returns (builders: map<int, Builder>)
      requires forall i :: 0 <= i < |ids| ==> ids[i] in main
      requires records == RecordsOf(main, ids)
      ensures builders == Builders(main, ids)
    {
      RecordsAreGenuine(main, ids);
      builders := map[];
      for i := 0 to |records|
        invariant Grouped(builders, records[..i], main, ids)
      {
        ghost var before := builders;
        builders := AddRecord(builders, records[i]);
        assert records[..i + 1] == records[..i] + [records[i]];
        GroupedNext(before, builders, records[..i], records[i], main, ids);
      }
      assert records[..|records|] == records;
      GroupedAll(builders, records, main, ids);
    }

    // Step 3: the records to decrypt, row by row.
    method CollectRecords(builders: map<int, Builder>, ghost main: map<int, Row>,
        ghost ids: seq<int>) returns (all: seq<CipherRecord>)
      requires forall i :: 0 <= i < |ids| ==> ids[i] in main
      requires builders == Builders(main, ids)
      ensures forall r :: r in all ==> Genuine(main, ids, r) && r.cipher != []
      ensures forall id, f: Field :: id in ids && main[id].Get(f).cipher != [] ==> RecordOf(id, main[id], f) in all
    {
      var order := Ascending(builders.Keys);
      all := [];
      for i := 0 to |order|
        invariant forall r :: r in all ==> Genuine(main, ids, r) && r.cipher != []
        invariant forall k, f: Field :: 0 <= k < i && order[k] in ids && main[order[k]].Get(f).cipher != [] ==>
          RecordOf(order[k], main[order[k]], f) in all
      {
        var id := order[i];
        assert id in order && id in ids;
        var b := builders[id];
        var row := RowRecords(id, b, main[id]);
        forall r | r in row ensures Genuine(main, ids, r) && r.cipher != [] {
        }
        all := all + row;
      }
      forall id, f: Field | id in ids && main[id].Get(f).cipher != [] ensures RecordOf(id, main[id], f) in all {
        assert id in order;
        var k :| 0 <= k < |order| && order[k] == id;
      }
    }

    // The fields of one row that hold a ciphertext.
    method RowRecords(id: int, b: Builder, ghost row: Row) returns (rs: seq<CipherRecord>)
      requires b == BuilderOf(row)
      ensures forall r :: r in rs ==> r == RecordOf(id, row, r.field) && r.cipher != []
      ensures forall f: Field :: row.Get(f).cipher != [] ==> RecordOf(id, row, f) in rs
    {
      rs := [];
      if b.name.0 != [] {
        rs := rs + [CipherRecord(id, b.name.0, b.name.1, Name, b.encVersion)];
      }
      if b.phone.0 != [] {
        rs := rs + [CipherRecord(id, b.phone.0, b.phone.1, Phone, b.encVersion)];
      }
      if b.address.0 != [] {
        rs := rs + [CipherRecord(id, b.address.0, b.address.1, Address, b.encVersion)];
      }
    }

    // Step 5: the decrypted values by row and field.
    method CacheResults(all: seq<CipherRecord>, results: seq<BatchDecryptor.DecryptResult>, ghost main: map<int, Row>,
        ghost ids: seq<int>)
      returns (cache: map<(int, Field), Bytes>)
      requires forall r :: r in all ==> Genuine(main, ids, r) && r.cipher != []
      requires results == BatchDecryptor.DecryptAll(crypto, keyMgr.state, all)
      ensures forall id, f: Field :: (id, f) in cache ==> id in main && CacheEntry(main, id, f, Some(cache[(id, f)]))
      ensures forall id, f: Field :: (id, f) in cache ==> main[id].Get(f).cipher != []
      ensures forall id, f: Field :: id in main && (id, f) !in cache && RecordOf(id, main[id], f) in all ==>
        CacheEntry(main, id, f, None)
    {
      cache := map[];
      for i := 0 to |results|
        invariant forall id, f: Field :: (id, f) in cache ==>
          id in main && CacheEntry(main, id, f, Some(cache[(id, f)]))
        invariant forall id, f: Field :: (id, f) in cache ==> main[id].Get(f).cipher != []
        invariant forall k :: 0 <= k < i && results[k].success ==> (all[k].id, all[k].field) in cache
      {
        var r := all[i];
        assert Genuine(main, ids, r) && results[i] == BatchDecryptor.DecryptOne(crypto, keyMgr.state, r);
        if results[i].success {
          cache := cache[(r.id, r.field) := results[i].plaintext];
        }
      }
      forall id, f: Field | id in main && (id, f) !in cache && RecordOf(id, main[id], f) in all
        ensures CacheEntry(main, id, f, None)
      {
        var k :| 0 <= k < |all| && all[k] == RecordOf(id, main[id], f);
        assert results[k] == BatchDecryptor.DecryptOne(crypto, keyMgr.state, all[k]);
      }
    }

    ghost predicate CacheEntry(main: map<int, Row>, id: int, f: Field, entry: Option<Bytes>)
      requires id in main
      reads keyMgr
    {
      var d := BatchDecryptor.DecryptOne(crypto, keyMgr.state, RecordOf(id, main[id], f));
      if d.success then entry == Some(d.plaintext) else entry == None
    }

    // Step 6 for one field: the cached value, or the single decryption.
    method FieldOrFallback(cached: Option<Bytes>, cipher: Bytes, version: int, encKey: Bytes, ghost main: map<int, Row>,
                           ghost id: int, ghost f: Field)
      returns (r: Result<Bytes>)
      requires id in main && main[id].Get(f).cipher == cipher && main[id].encVersion == version
      requires if cipher == [] then cached == None else CacheEntry(main, id, f, cached)
      ensures r == FieldValue(crypto, keyMgr.state, id, main[id], f, encKey)
    {
      var value := if cached.Some? then cached.value else [];
      if value == [] && cipher != [] {
        r := DecryptFieldWithVersion(cipher, version, encKey);
      } else {
        r := Ok(value);
      }
    }

    // Step 6 for one row.
    method BuildRow(builder: Builder, cache: map<(int, Field), Bytes>, encKey: Bytes, ghost main: map<int, Row>,
        id: int)
      returns (r: Result<FullRecord>)
      requires id in main && builder == BuilderOf(main[id]) && CacheCovers(main, id, cache)
      ensures r == FullRow(crypto, keyMgr.state, id, main[id], encKey)
    {
      var name := FieldOrFallback(Lookup(cache, id, Name), builder.name.0, builder.encVersion, encKey, main, id, Name);
      if name.Err? {
        return Err(name.error);
      }
      var phone := FieldOrFallback(Lookup(cache, id, Phone), builder.phone.0, builder.encVersion, encKey, main,
        id, Phone);
      if phone.Err? {
        return Err(phone.error);
      }
      var address := FieldOrFallback(Lookup(cache, id, Address), builder.address.0, builder.encVersion, encKey, main,
        id, Address);
      if address.Err? {
        return Err(address.error);
      }
      r := Ok(FullRecord(id, name.value, phone.value, address.value, builder.encVersion));
    }

    // The cache says of every field of the row what the batch decryption did.
    ghost predicate CacheCovers(main: map<int, Row>, id: int, cache: map<(int, Field), Bytes>)
      requires id in main
      reads keyMgr
    {
      forall f: Field ::
        if main[id].Get(f).cipher == [] then (id, f) !in cache else CacheEntry(main, id, f, Lookup(cache, id, f))
    }

    lemma CoversRows(all: seq<CipherRecord>, cache: map<(int, Field), Bytes>, main: map<int, Row>, ids: seq<int>)
      requires forall i :: 0 <= i < |ids| ==> ids[i] in main
      requires forall id, f: Field :: id in ids && main[id].Get(f).cipher != [] ==> RecordOf(id, main[id], f) in all
      requires forall id, f: Field :: (id, f) in cache ==> id in main && CacheEntry(main, id, f, Some(cache[(id, f)]))
      requires forall id, f: Field :: (id, f) in cache ==> main[id].Get(f).cipher != []
      requires forall id, f: Field :: id in main && (id, f) !in cache && RecordOf(id, main[id], f) in all ==>
        CacheEntry(main, id, f, None)
      ensures forall i :: 0 <= i < |ids| ==> CacheCovers(main, ids[i], cache)
    {
      forall i | 0 <= i < |ids| ensures CacheCovers(main, ids[i], cache) {
        assert ids[i] in ids;
      }
    }

    // One keyed hash of the keyword per index-key version.
    method BlindHashes(keyword: Bytes) returns (hashes: set<Bytes>)
      ensures hashes == ExactHashes(crypto, keyMgr.state.idx, keyword)
    {
      var allIdxKeys := keyMgr.GetAllIndexKeys();
      hashes := {};
      for i := 0 to |allIdxKeys|
        invariant forall h :: h in hashes <==> exists k :: 0 <= k < i && h == HmacHex(crypto, keyword, allIdxKeys[k].1)
      {
        hashes := hashes + {HmacHex(crypto, keyword, allIdxKeys[i].1)};
      }
      forall h ensures h in hashes <==> h in ExactHashes(crypto, keyMgr.state.idx, keyword) {
        if h in hashes {
          var k :| 0 <= k < |allIdxKeys| && h == HmacHex(crypto, keyword, allIdxKeys[k].1);
          assert allIdxKeys[k].0 in keyMgr.state.idx.infos;
        }
        if h in ExactHashes(crypto, keyMgr.state.idx, keyword) {
          var v :| v in keyMgr.state.idx.infos && h == HmacHex(crypto, keyword, keyMgr.state.idx.infos[v].key);
          assert (v, keyMgr.state.idx.infos[v].key) in allIdxKeys;
        }
      }
    }

    // The candidates under one index-key version after the other.
    method FuzzyCandidateIds(keyword: Bytes, f: Field) returns (idSet: set<int>)
      requires dao.crypto == crypto
      ensures idSet == FuzzyIds(crypto, keyMgr.state, dao.conn.inverted, f, keyword)
    {
      var tokens := SplitBigrams(keyword);
      var allIdxKeys := keyMgr.GetAllIndexKeys();
      ghost var infos := keyMgr.state.idx.infos;
      idSet := {};
      for i := 0 to |allIdxKeys|
        invariant forall id :: id in idSet <==>
          exists k :: 0 <= k < i &&
            id in FuzzyCandidates(dao.conn.inverted, HashTokens(crypto, tokens, allIdxKeys[k].1), f)
      {
        var versionHashes := HashAllTokens(crypto, tokens, allIdxKeys[i].1);
        idSet := idSet + FuzzyCandidates(dao.conn.inverted, versionHashes, f);
      }
      forall id ensures id in idSet <==> id in FuzzyIds(crypto, keyMgr.state, dao.conn.inverted, f, keyword) {
        if id in idSet {
          var k :| 0 <= k < |allIdxKeys| &&
            id in FuzzyCandidates(dao.conn.inverted, HashTokens(crypto, tokens, allIdxKeys[k].1), f);
          var v := allIdxKeys[k].0;
          assert v in infos;
          assert KeywordHashes(crypto, keyMgr.state.idx, v, keyword) == HashTokens(crypto, tokens, allIdxKeys[k].1);
        }
        if id in FuzzyIds(crypto, keyMgr.state, dao.conn.inverted, f, keyword) {
          var v :| v in infos &&
            id in FuzzyCandidates(dao.conn.inverted, KeywordHashes(crypto, keyMgr.state.idx, v, keyword), f);
          assert (v, infos[v].key) in allIdxKeys;
          var k :| 0 <= k < |allIdxKeys| && allIdxKeys[k] == (v, infos[v].key);
        }
      }
    }

    method ExactQuery(keyword: Bytes, f: Field, encKey: Bytes, now: int) returns (r: Result<seq<FullRecord>>)
      requires dao.crypto == crypto && limiter.Valid() && (limiter.clock <= now || limiter.history == [])
      modifies limiter
      ensures limiter.Valid() && limiter.clock == now && limiter.history == Record(old(limiter.history), now)
      ensures r == if !Accepts(old(limiter.history), now) then Err(RateLimited)
                   else ExactOutcome(crypto, keyMgr.state, dao.conn.View(), f, keyword, encKey)
      ensures ExactRecords(dao.conn.main, f, keyword, r)
      ensures Refusals(keyword, |Within(old(limiter.history), now - 1_000_000_000, now)| >= 10,
                       |ExactIds(crypto, keyMgr.state, dao.conn.main, f, keyword)|, r)
      ensures |dao.conn.main| <= 10000 ==> r != Err(TooManyCandidates)
    {
      ExactOutcomeIs(crypto, keyMgr.state, dao.conn.View(), f, keyword, encKey);
      CandidateCount(crypto, keyMgr.state, dao.conn.View(), f, keyword);
      var ok := limiter.CheckFrequencyLimit(now);
      if !ok {
        return Err(RateLimited);
      }
      if |keyword| < MIN_KEYWORD_LENGTH {
        return Err(KeywordTooShort);
      }
      r := SearchBlind(keyword, f, encKey);
    }

    // exactQuery after its first two checks.
    method SearchBlind(keyword: Bytes, f: Field, encKey: Bytes) returns (r: Result<seq<FullRecord>>)
      requires dao.crypto == crypto && |keyword| >= MIN_KEYWORD_LENGTH
      ensures r == ExactOutcome(crypto, keyMgr.state, dao.conn.View(), f, keyword, encKey)
    {
      var blindHashes := BlindHashes(keyword);
      var ids := ExactCandidates(dao.conn.main, blindHashes, f);
      if |ids| > MAX_CANDIDATE_COUNT {
        return Err(TooManyCandidates);
      }
      if ids == {} {
        NothingToFetch(crypto, keyMgr.state, dao.conn.main, encKey);
        return Ok([]);
      }
      r := FetchRecords(ids, encKey, f, Some(keyword));
    }

    method FuzzyQuery(keyword: Bytes, f: Field, encKey: Bytes, now: int) returns (r: Result<seq<FullRecord>>)
      requires dao.crypto == crypto && limiter.Valid() && (limiter.clock <= now || limiter.history == [])
      modifies limiter
      ensures limiter.Valid() && limiter.clock == now && limiter.history == Record(old(limiter.history), now)
      ensures r == if !Accepts(old(limiter.history), now) then Err(RateLimited)
                   else FuzzyOutcome(crypto, keyMgr.state, dao.conn.View(), f, keyword, encKey)
      ensures FuzzyRecords(dao.conn.main, f, keyword, r)
      ensures Refusals(keyword, |Within(old(limiter.history), now - 1_000_000_000, now)| >= 10,
                       |FuzzyIds(crypto, keyMgr.state, dao.conn.inverted, f, keyword)|, r)
      ensures |set x | x in dao.conn.inverted :: x.id| <= 10000 ==> r != Err(TooManyCandidates)
    {
      FuzzyOutcomeIs(crypto, keyMgr.state, dao.conn.View(), f, keyword, encKey);
      CandidateCount(crypto, keyMgr.state, dao.conn.View(), f, keyword);
      var ok := limiter.CheckFrequencyLimit(now);
      if !ok {
        return Err(RateLimited);
      }
      if |keyword| < MIN_KEYWORD_LENGTH {
        return Err(KeywordTooShort);
      }
      r := SearchIndex(keyword, f, encKey);
    }

    // fuzzyQuery after its first two checks.
    method SearchIndex(keyword: Bytes, f: Field, encKey: Bytes) returns (r: Result<seq<FullRecord>>)
      requires dao.crypto == crypto && |keyword| >= MIN_KEYWORD_LENGTH
      ensures r == FuzzyOutcome(crypto, keyMgr.state, dao.conn.View(), f, keyword, encKey)
    {
      var idSet := FuzzyCandidateIds(keyword, f);
      if idSet == {} {
        NothingToFetch(crypto, keyMgr.state, dao.conn.main, encKey);
        return Ok([]);
      }
      if |idSet| > MAX_CANDIDATE_COUNT {
        return Err(TooManyCandidates);
      }
      var fetched := FetchRecords(idSet, encKey, f, None);
      KeepAllAny(FetchFullRecords(crypto, keyMgr.state, dao.conn.main, idSet, encKey));
      if fetched.Err? {
        return Err(fetched.error);
      }
      var finalResults := DropCollisions(fetched.value, keyword, f);
      r := Ok(finalResults);
    }

    // The final check that the plaintext contains the keyword.
    method DropCollisions(results: seq<FullRecord>, keyword: Bytes, f: Field) returns (finalResults: seq<FullRecord>)
      ensures finalResults == Keep(results, Holds(f, keyword))
      ensures forall r :: r in finalResults <==> r in results && FieldHas(f, r, keyword)
    {
      forall r ensures r in Keep(results, Holds(f, keyword)) <==> r in results && FieldHas(f, r, keyword) {
        KeptIff(results, Holds(f, keyword), r);
        FiltersAre(f, keyword, r);
      }
      finalResults := [];
      for i := 0 to |results|
        invariant finalResults == Keep(results[..i], Holds(f, keyword))
      {
        assert results[..i + 1][..i] == results[..i];
        if Contains(results[i].Get(f), keyword) {
          finalResults := finalResults + [results[i]];
        }
      }
      assert results[..|results|] == results;
    }

    // Every fetch has a pipeline of its own.
    method NewPipeline() returns (batch: BatchDecryptor.BatchDecryptor)
      ensures fresh(batch) && batch.crypto == crypto && batch.keyMgr == keyMgr && batch.Quiet()
      ensures |batch.workers| == 4 && batch.queueCapacity == 32768
    {
      batch := new BatchDecryptor.BatchDecryptor(crypto, keyMgr, 0, QUEUE_CAPACITY);
    }

    // expected is the keyword of an exact query, which filters in the loop.
    method FetchRecords(ids: set<int>, encKey: Bytes, f: Field,
        expected: Option<Bytes>) returns (r: Result<seq<FullRecord>>)
      requires dao.crypto == crypto
      ensures r == KeepAll(FetchFullRecords(crypto, keyMgr.state, dao.conn.main, ids, encKey), Selected(f, expected))
    {
      var main := dao.conn.main;
      var rows := Fetched(main, ids);
      FetchedOrdered(main, ids);
      var records := dao.BatchSelectCiphers(ids);
      var builders := GroupByRow(records, main, rows);
      var all := CollectRecords(builders, main, rows);
      var batch := NewPipeline();
      var decrypted := batch.DecryptRecords(all);
      var cache := CacheResults(all, decrypted, main, rows);
      CoversRows(all, cache, main, rows);
      var order := Ascending(builders.Keys);
      AscendingUnique(order, rows);
      r := BuildRows(order, builders, cache, encKey, f, expected, main);
    }

    // Step 6: the rows in ascending order of ids.
    method BuildRows(order: seq<int>, builders: map<int, Builder>, cache: map<(int, Field), Bytes>, encKey: Bytes,
        f: Field,
                     expected: Option<Bytes>, ghost main: map<int, Row>)
      returns (r: Result<seq<FullRecord>>)
      requires forall i :: 0 <= i < |order| ==> order[i] in main && CacheCovers(main, order[i], cache)
      requires builders == Builders(main, order)
      ensures r == KeepAll(FullRows(crypto, keyMgr.state, main, order, encKey), Selected(f, expected))
    {
      var results := [];
      ghost var built := [];
      for i := 0 to |order|
        invariant FullRows(crypto, keyMgr.state, main, order[..i], encKey) == Ok(built)
        invariant results == Keep(built, Selected(f, expected))
      {
        var id := order[i];
        assert id in order && order[..i + 1][..i] == order[..i];
        var rec := BuildRow(builders[id], cache, encKey, main, id);
        if rec.Err? {
          ErrorStays(crypto, keyMgr.state, main, order, i + 1, encKey, rec.error);
          return Err(rec.error);
        }
        FullRowsNext(crypto, keyMgr.state, main, order[..i + 1], encKey, built, rec.value);
        KeepNext(built, rec.value, f, expected);
        built := built + [rec.value];
        if expected.None? || rec.value.Get(f) == expected.value {
          results := results + [rec.value];
        }
      }
      assert order[..|order|] == order;
      r := Ok(results);
    }
  }

  function Lookup(cache: map<(int, Field), Bytes>, id: int, f: Field): Option<Bytes> {
    if (id, f) in cache then Some(cache[(id, f)]) else None
  }

  lemma BuilderEqual(a: Builder, b: Builder)
    requires a.encVersion == b.encVersion && forall f: Field :: a.Get(f) == b.Get(f)
    ensures a == b
  {
    assert a.Get(Name) == b.Get(Name) && a.Get(Phone) == b.Get(Phone) && a.Get(Address) == b.Get(Address);
  }
}
