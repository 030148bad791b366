/** What the two queries compute, as functions of the stored rows and keys, and what it means. */
module Search {
  import opened Common
  import opened Ordering
  import opened Sm4
  import opened Tables
  import opened Keys
  import opened Dao
  import opened BatchDecryptor

  datatype FullRecord = FullRecord(id: int, name: Bytes, phone: Bytes, address: Bytes, encVersion: int) {
    function Get(f: Field): Bytes {
      match f case Name => name case Phone => phone case Address => address
    }
  }

  // ---- Candidates ----

  function ExactHashes(c: Crypto, idx: KeyRing, keyword: Bytes): set<Bytes> {
    set v | v in idx.infos :: HmacHex(c, keyword, idx.infos[v].key)
  }

  function ExactIds(c: Crypto, keys: KeyState, main: map<int, Row>, f: Field, keyword: Bytes): set<int> {
    ExactCandidates(main, ExactHashes(c, keys.idx, keyword), f)
  }

  function KeywordHashes(c: Crypto, idx: KeyRing, v: int, keyword: Bytes): seq<Bytes>
    requires v in idx.infos
  {
    HashTokens(c, SplitBigram(keyword), idx.infos[v].key)
  }

  // One query per index-key version; the candidates are the union.
  function FuzzyIds(c: Crypto, keys: KeyState, inverted: set<Token>, f: Field, keyword: Bytes): set<int> {
    set v, id | v in keys.idx.infos && id in FuzzyCandidates(inverted, KeywordHashes(c, keys.idx, v, keyword), f) :: id
  }

  predicate OccursAt(text: Bytes, keyword: Bytes, i: nat) {
    i + |keyword| <= |text| && text[i..i + |keyword|] == keyword
  }

  // std::string::find succeeds.
  predicate Contains(text: Bytes, keyword: Bytes) {
    exists i: nat :: i <= |text| && OccursAt(text, keyword, i)
  }

  // ---- Decryption of the candidate rows ----

  // decryptFieldWithVersion: the row's version first, then the fallback key.
  function DecryptField(c: Crypto, keys: KeyState, version: int, cipher: Bytes, fallback: Bytes): Result<Bytes> {
    match KeyByVersion(keys.enc, version)
    case Some(key) =>
      (match Opened(c, cipher, key)
       case Ok(plain) => Ok(plain)
       case Err(_) => Opened(c, cipher, fallback))
    case None => Opened(c, cipher, fallback)
  }

  // The batch result of a field, or the single decryption when there is none.
  function FieldValue(c: Crypto, keys: KeyState, id: int, row: Row, f: Field, fallback: Bytes): Result<Bytes> {
    var cipher := row.Get(f).cipher;
    if cipher == [] then Ok([]) else
      var d := DecryptOne(c, keys, RecordOf(id, row, f));
      if d.success && d.plaintext != [] then Ok(d.plaintext)
      else DecryptField(c, keys, row.encVersion, cipher, fallback)
  }

  function FullRow(c: Crypto, keys: KeyState, id: int, row: Row, fallback: Bytes): Result<FullRecord> {
    var name :- FieldValue(c, keys, id, row, Name, fallback);
    var phone :- FieldValue(c, keys, id, row, Phone, fallback);
    var address :- FieldValue(c, keys, id, row, Address, fallback);
    Ok(FullRecord(id, name, phone, address, row.encVersion))
  }

  // The rows one after the other; the first that cannot be decrypted ends the call.
  function FullRows(c: Crypto, keys: KeyState, main: map<int, Row>, ids: seq<int>,
      fallback: Bytes): Result<seq<FullRecord>>
    requires forall i :: 0 <= i < |ids| ==> ids[i] in main
  {
    if ids == [] then Ok([]) else
      var last := ids[|ids| - 1];
      var front :- FullRows(c, keys, main, ids[..|ids| - 1], fallback);
      var r :- FullRow(c, keys, last, main[last], fallback);
      Ok(front + [r])
  }

  // The rows a query gets to see: those of the candidates that the fetch loop delivers.
  function Fetched(main: map<int, Row>, ids: set<int>): (r: seq<int>)
    ensures forall i :: 0 <= i < |r| ==> r[i] in main
  {
    var rows := Present(main, ids);
    var r := ReadablePrefix(main, rows);
    assert forall i :: 0 <= i < |r| ==> r[i] == rows[i];
    r
  }

  function FetchFullRecords(c: Crypto, keys: KeyState, main: map<int, Row>, ids: set<int>,
      fallback: Bytes): Result<seq<FullRecord>> {
    FullRows(c, keys, main, Fetched(main, ids), fallback)
  }

  function Keep(rs: seq<FullRecord>, p: FullRecord -> bool): seq<FullRecord> {
    if rs == [] then [] else
      Keep(rs[..|rs| - 1], p) + if p(rs[|rs| - 1]) then [rs[|rs| - 1]] else []
  }

  function KeepAll(r: Result<seq<FullRecord>>, p: FullRecord -> bool): Result<seq<FullRecord>> {
    match r case Ok(rs) => Ok(Keep(rs, p)) case Err(e) => Err(e)
  }

  function Equals(f: Field, keyword: Bytes): FullRecord -> bool {
    (r: FullRecord) => r.Get(f) == keyword
  }

  function Holds(f: Field, keyword: Bytes): FullRecord -> bool {
    (r: FullRecord) => Contains(r.Get(f), keyword)
  }

  function AnyRecord(): FullRecord -> bool {
    (_: FullRecord) => true
  }

  // The in-loop filter of fetchFullRecords, when there is an expected value.
  function Selected(f: Field, expected: Option<Bytes>): FullRecord -> bool {
    match expected case Some(keyword) => Equals(f, keyword) case None => AnyRecord()
  }

  // The answers of exactQuery and fuzzyQuery past their guards.
  function ExactAnswer(c: Crypto, keys: KeyState, t: Tables, f: Field, keyword: Bytes,
      fallback: Bytes): Result<seq<FullRecord>> {
    KeepAll(FetchFullRecords(c, keys, t.main, ExactIds(c, keys, t.main, f, keyword), fallback), Equals(f, keyword))
  }

  function FuzzyAnswer(c: Crypto, keys: KeyState, t: Tables, f: Field, keyword: Bytes,
      fallback: Bytes): Result<seq<FullRecord>> {
    KeepAll(FetchFullRecords(c, keys, t.main, FuzzyIds(c, keys, t.inverted, f, keyword), fallback), Holds(f, keyword))
  }

  // ---- The reference: a scan of the plaintexts ----

  function TrueRecord(main: map<int, Row>, plain: map<int, Plain>, id: int): FullRecord
    requires id in main && id in plain
  {
    FullRecord(id, plain[id].name, plain[id].phone, plain[id].address, main[id].encVersion)
  }

  function TrueRecords(main: map<int, Row>, plain: map<int, Plain>, ids: seq<int>): seq<FullRecord>
    requires forall i :: 0 <= i < |ids| ==> ids[i] in main && ids[i] in plain
  {
    seq(|ids|, i requires 0 <= i < |ids| => TrueRecord(main, plain, ids[i]))
  }

  // The ids of a set, smallest first, as records.
  function ListOf(main: map<int, Row>, plain: map<int, Plain>, ids: set<int>): seq<FullRecord>
    requires ids <= main.Keys && ids <= plain.Keys
  {
    var s := Ascending(ids);
    assert forall i :: 0 <= i < |s| ==> s[i] in ids;
    TrueRecords(main, plain, s)
  }

  function Matches(plain: map<int, Plain>, p: FullRecord -> bool, main: map<int, Row>): set<int>
    requires main.Keys == plain.Keys
  {
    set id | id in main && p(TrueRecord(main, plain, id))
  }

  // Every live row whose record satisfies p, in ascending order of ids, without duplicates.
  function Scan(main: map<int, Row>, plain: map<int, Plain>, p: FullRecord -> bool): seq<FullRecord>
    requires main.Keys == plain.Keys
  {
    ListOf(main, plain, Matches(plain, p, main))
  }

  // ---- Rows that read back ----

  // Under the fallback key every row decrypts to its last written values.
  ghost predicate Reads(c: Crypto, keys: KeyState, main: map<int, Row>, plain: map<int, Plain>, fallback: Bytes) {
    && main.Keys == plain.Keys
    && forall id :: id in main ==> FullRow(c, keys, id, main[id], fallback) == Ok(TrueRecord(main, plain, id))
  }

  // The same for one row.
  ghost predicate RowReads(c: Crypto, keys: KeyState, main: map<int, Row>, plain: map<int, Plain>, id: int,
      fallback: Bytes) {
    id in main && id in plain && FullRow(c, keys, id, main[id], fallback) == Ok(TrueRecord(main, plain, id))
  }

  lemma {:induction false} FullRowsAreTrue(c: Crypto, keys: KeyState, main: map<int, Row>, plain: map<int, Plain>,
      ids: seq<int>, fallback: Bytes)
    requires forall i :: 0 <= i < |ids| ==> ids[i] in main && ids[i] in plain
    requires forall i :: 0 <= i < |ids| ==> RowReads(c, keys, main, plain, ids[i], fallback)
    ensures FullRows(c, keys, main, ids, fallback) == Ok(TrueRecords(main, plain, ids))
  {
    if ids == [] {
      assert TrueRecords(main, plain, ids) == [];
    } else {
      var n := |ids| - 1;
      FullRowsAreTrue(c, keys, main, plain, ids[..n], fallback);
      assert RowReads(c, keys, main, plain, ids[n], fallback);
      FullRowsNext(c, keys, main, ids, fallback, TrueRecords(main, plain, ids[..n]), TrueRecord(main, plain, ids[n]));
      TrueRecordsNext(main, plain, ids);
    }
  }

  lemma FullRowsNext(c: Crypto, keys: KeyState, main: map<int, Row>, ids: seq<int>, fallback: Bytes,
      front: seq<FullRecord>, r: FullRecord)
    requires ids != [] && forall i :: 0 <= i < |ids| ==> ids[i] in main
    requires FullRows(c, keys, main, ids[..|ids| - 1], fallback) == Ok(front)
    requires FullRow(c, keys, ids[|ids| - 1], main[ids[|ids| - 1]], fallback) == Ok(r)
    ensures FullRows(c, keys, main, ids, fallback) == Ok(front + [r])
  {
  }

  lemma TrueRecordsNext(main: map<int, Row>, plain: map<int, Plain>, ids: seq<int>)
    requires ids != [] && forall i :: 0 <= i < |ids| ==> ids[i] in main && ids[i] in plain
    ensures TrueRecords(main, plain, ids)
       == TrueRecords(main, plain, ids[..|ids| - 1]) + [TrueRecord(main, plain, ids[|ids| - 1])]
  {
  }

  // ---- Filtering a list of true records ----

  function Wanted(main: map<int, Row>, plain: map<int, Plain>, p: FullRecord -> bool): int -> bool {
    (id: int) => id in main && id in plain && p(TrueRecord(main, plain, id))
  }

  lemma {:induction false} KeepTrueRecords(main: map<int, Row>, plain: map<int, Plain>, ids: seq<int>,
      p: FullRecord -> bool)
    requires forall i :: 0 <= i < |ids| ==> ids[i] in main && ids[i] in plain
    ensures
      var kept := Filter(ids, Wanted(main, plain, p));
      && (forall i :: 0 <= i < |kept| ==> kept[i] in main && kept[i] in plain)
      && Keep(TrueRecords(main, plain, ids), p) == TrueRecords(main, plain, kept)
  {
    if ids == [] {
      assert TrueRecords(main, plain, ids) == [];
    } else {
      var n := |ids| - 1;
      var front, r := TrueRecords(main, plain, ids[..n]), TrueRecord(main, plain, ids[n]);
      KeepTrueRecords(main, plain, ids[..n], p);
      TrueRecordsNext(main, plain, ids);
      assert (front + [r])[..n] == front;
      var kept := Filter(ids, Wanted(main, plain, p));
      if p(r) {
        assert kept[..|kept| - 1] == Filter(ids[..n], Wanted(main, plain, p));
        TrueRecordsNext(main, plain, kept);
      }
    }
  }

  // What any query answers when the delivered rows read back: those that satisfy p.
  lemma AnswerIs(c: Crypto, keys: KeyState, main: map<int, Row>, plain: map<int, Plain>, ids: set<int>,
      p: FullRecord -> bool, fallback: Bytes)
    requires main.Keys == plain.Keys
    requires forall id :: id in Fetched(main, ids) ==> RowReads(c, keys, main, plain, id, fallback)
    ensures KeepAll(FetchFullRecords(c, keys, main, ids, fallback), p)
         == Ok(ListOf(main, plain, Delivered(main, plain, ids, p)))
  {
    var rows := Fetched(main, ids);
    var kept := Filter(rows, Wanted(main, plain, p));
    var chosen := Delivered(main, plain, ids, p);
    FullRowsAreTrue(c, keys, main, plain, rows, fallback);
    KeepTrueRecords(main, plain, rows, p);
    FetchedOrdered(main, ids);
    FilterOrdered(rows, Wanted(main, plain, p));
    forall id ensures id in kept <==> id in Ascending(chosen) {
      FilterElements(rows, Wanted(main, plain, p), id);
    }
    AscendingUnique(kept, Ascending(chosen));
  }

  function Delivered(main: map<int, Row>, plain: map<int, Plain>, ids: set<int>, p: FullRecord -> bool): (r: set<int>)
    requires main.Keys == plain.Keys
    ensures r <= Matches(plain, p, main)
  {
    set id | id in Fetched(main, ids) && id in main && p(TrueRecord(main, plain, id))
  }

  lemma FetchedOrdered(main: map<int, Row>, ids: set<int>)
    ensures StrictlyAscending(Fetched(main, ids))
    ensures forall id :: id in Fetched(main, ids) ==> id in ids && id in main && Readable(main[id])
  {
    var rows, r := Present(main, ids), Fetched(main, ids);
    assert r == rows[..|r|];
    forall id | id in r ensures id in ids && id in main && Readable(main[id]) {
      var i :| 0 <= i < |r| && r[i] == id;
      assert rows[i] in rows;
    }
  }

  // A candidate is delivered exactly when no candidate up to it overflows the fetch buffers.
  lemma FetchedIff(main: map<int, Row>, ids: set<int>, id: int)
    ensures id in Fetched(main, ids) <==>
            id in ids && id in main && forall j :: j in ids && j in main && j <= id ==> Readable(main[j])
  {
    FetchedOrdered(main, ids);
    if id in Fetched(main, ids) {
      FetchedUpTo(main, ids, id);
    } else if id in ids && id in main {
      var j := StoppedAt(main, ids, id);
    }
  }

  lemma FetchedUpTo(main: map<int, Row>, ids: set<int>, id: int)
    requires id in Fetched(main, ids)
    ensures forall j :: j in ids && j in main && j <= id ==> Readable(main[j])
  {
    var rows, r := Present(main, ids), Fetched(main, ids);
    assert r == rows[..|r|];
    var i :| 0 <= i < |r| && r[i] == id;
    FetchedOrdered(main, ids);
    forall j | j in ids && j in main && j <= id ensures Readable(main[j]) {
      assert j in rows;
      var k :| 0 <= k < |rows| && rows[k] == j;
      assert r[k] == j && j in r;
    }
  }

  // The row that ended the fetch loop ahead of a candidate.
  lemma StoppedAt(main: map<int, Row>, ids: set<int>, id: int) returns (j: int)
    requires id in ids && id in main && id !in Fetched(main, ids)
    ensures j in ids && j in main && j <= id && !Readable(main[j])
  {
    var rows, n := Present(main, ids), |Fetched(main, ids)|;
    assert id in rows && id !in rows[..n];
    var i :| 0 <= i < |rows| && rows[i] == id;
    NotInPrefix(rows, n, i);
    j := rows[n];
    assert j in rows && (n < i ==> rows[n] < rows[i]);
  }

  lemma NotInPrefix(s: seq<int>, n: nat, i: nat)
    requires n <= |s| && i < |s| && s[i] !in s[..n]
    ensures n <= i
  {
    assert forall k :: 0 <= k < n ==> s[..n][k] == s[k];
  }

  // No candidate up to the row overflows the buffers.
  ghost predicate ReachedIn(main: map<int, Row>, ids: set<int>, id: int) {
    forall j :: j in ids && j in main && j <= id ==> Readable(main[j])
  }

  // Every row of the scan is a candidate, is reached and reads back, and no other row that is
  // reached is taken for one of them or fails the call.
  ghost predicate Answered(c: Crypto, keys: KeyState, main: map<int, Row>, plain: map<int, Plain>, ids: set<int>,
      p: FullRecord -> bool, fallback: Bytes)
    requires main.Keys == plain.Keys
  {
    && (forall id :: id in Matches(plain, p, main) ==>
        id in ids && ReachedIn(main, ids, id) && RowReads(c, keys, main, plain, id, fallback))
    && (forall id :: id in ids && id in main && ReachedIn(main, ids, id) && id !in Matches(plain, p, main) ==>
        Dismissed(c, keys, main, id, p, fallback))
  }

  // The row can be decrypted, to something that does not satisfy p.
  ghost predicate Dismissed(c: Crypto, keys: KeyState, main: map<int, Row>, id: int, p: FullRecord -> bool,
      fallback: Bytes) {
    id in main && FullRow(c, keys, id, main[id], fallback).Ok? && !p(FullRow(c, keys, id, main[id], fallback).value)
  }

  // What the rows decrypt to, where they do.
  function Seen(c: Crypto, keys: KeyState, main: map<int, Row>, plain: map<int, Plain>,
      fallback: Bytes): map<int, Plain>
    requires main.Keys == plain.Keys
  {
    map id | id in main ::
      match FullRow(c, keys, id, main[id], fallback)
      case Ok(r) => Plain(r.name, r.phone, r.address)
      case Err(_) => plain[id]
  }

  lemma SeenReads(c: Crypto, keys: KeyState, main: map<int, Row>, plain: map<int, Plain>, id: int, fallback: Bytes)
    requires main.Keys == plain.Keys && id in main
    ensures FullRow(c, keys, id, main[id], fallback).Ok? ==>
      RowReads(c, keys, main, Seen(c, keys, main, plain, fallback), id, fallback)
  {
  }

  lemma FetchedEach(main: map<int, Row>, ids: set<int>)
    ensures forall id :: id in Fetched(main, ids) <==> id in ids && id in main && ReachedIn(main, ids, id)
  {
    forall id ensures id in Fetched(main, ids) <==> id in ids && id in main && ReachedIn(main, ids, id) {
      FetchedIff(main, ids, id);
    }
  }

  // In any store, a query is the scan exactly when it is answered so.
  lemma AnyQueryIff(c: Crypto, keys: KeyState, main: map<int, Row>, plain: map<int, Plain>, ids: set<int>,
      p: FullRecord -> bool, fallback: Bytes)
    requires main.Keys == plain.Keys
    ensures KeepAll(FetchFullRecords(c, keys, main, ids, fallback), p) == Ok(Scan(main, plain, p)) <==>
            Answered(c, keys, main, plain, ids, p, fallback)
  {
    FetchedEach(main, ids);
    if id :| id in Fetched(main, ids) && id in main && FullRow(c, keys, id, main[id], fallback).Err? {
      OneErrorFails(c, keys, main, ids, id, fallback);
      ErrorIsNoAnswer(c, keys, main, plain, ids, p, id, fallback);
    } else {
      DecryptedQueryIff(c, keys, main, plain, ids, p, fallback);
    }
  }

  lemma ErrorIsNoAnswer(c: Crypto, keys: KeyState, main: map<int, Row>, plain: map<int, Plain>, ids: set<int>,
      p: FullRecord -> bool, id: int, fallback: Bytes)
    requires main.Keys == plain.Keys && id in ids && id in main && ReachedIn(main, ids, id)
    requires FullRow(c, keys, id, main[id], fallback).Err?
    ensures !Answered(c, keys, main, plain, ids, p, fallback)
  {
    assert !RowReads(c, keys, main, plain, id, fallback) && !Dismissed(c, keys, main, id, p, fallback);
  }

  lemma DecryptedQueryIff(c: Crypto, keys: KeyState, main: map<int, Row>, plain: map<int, Plain>, ids: set<int>,
      p: FullRecord -> bool, fallback: Bytes)
    requires main.Keys == plain.Keys
    requires forall id :: id in Fetched(main, ids) <==> id in ids && id in main && ReachedIn(main, ids, id)
    requires forall id :: id in Fetched(main, ids) && id in main ==> FullRow(c, keys, id, main[id], fallback).Ok?
    ensures KeepAll(FetchFullRecords(c, keys, main, ids, fallback), p) == Ok(Scan(main, plain, p)) <==>
            Answered(c, keys, main, plain, ids, p, fallback)
  {
    var seen := Seen(c, keys, main, plain, fallback);
    forall id | id in Fetched(main, ids) ensures id in main && RowReads(c, keys, main, seen, id, fallback) {
      SeenReads(c, keys, main, plain, id, fallback);
    }
    AnswerIs(c, keys, main, seen, ids, p, fallback);
    SameListIff(main, seen, Delivered(main, seen, ids, p), plain, Matches(plain, p, main));
    DeliveredAnswers(c, keys, main, plain, seen, ids, p, fallback);
  }

  // One delivered row that cannot be decrypted fails the call.
  lemma OneErrorFails(c: Crypto, keys: KeyState, main: map<int, Row>, ids: set<int>, id: int, fallback: Bytes)
    requires id in Fetched(main, ids) && id in main && FullRow(c, keys, id, main[id], fallback).Err?
    ensures FetchFullRecords(c, keys, main, ids, fallback).Err?
  {
    var rows := Fetched(main, ids);
    var k :| 0 <= k < |rows| && rows[k] == id;
    if FullRows(c, keys, main, rows, fallback).Ok? {
      RowsOfAnswer(c, keys, main, rows, fallback, k);
    }
  }

  // Two lists of rows, under two readings of them.
  lemma SameListIff(main: map<int, Row>, seen: map<int, Plain>, a: set<int>, plain: map<int, Plain>, b: set<int>)
    requires a <= main.Keys && a <= seen.Keys && b <= main.Keys && b <= plain.Keys
    ensures ListOf(main, seen, a) == ListOf(main, plain, b) <==>
            a == b && forall id :: id in a && id in b ==> TrueRecord(main, seen, id) == TrueRecord(main, plain, id)
  {
    var x, y := Ascending(a), Ascending(b);
    if ListOf(main, seen, a) == ListOf(main, plain, b) {
      assert |x| == |ListOf(main, seen, a)| == |y|;
      forall i | 0 <= i < |x| ensures x[i] == y[i] && TrueRecord(main, seen, x[i]) == TrueRecord(main, plain, x[i]) {
        assert x[i] in a && y[i] in b;
        assert ListOf(main, seen, a)[i] == ListOf(main, plain, b)[i];
      }
      assert x == y;
      forall id ensures id in a <==> id in b {
        assert id in x <==> id in y;
      }
      forall id | id in a ensures TrueRecord(main, seen, id) == TrueRecord(main, plain, id) {
        assert id in x;
      }
    }
  }

  // A row that can be decrypted is read right exactly when it reads as written, and is
  // dismissed exactly when what is read does not satisfy p.
  lemma SeenRow(c: Crypto, keys: KeyState, main: map<int, Row>, plain: map<int, Plain>, seen: map<int, Plain>, id: int,
      p: FullRecord -> bool, fallback: Bytes)
    requires RowReads(c, keys, main, seen, id, fallback) && id in plain
    ensures RowReads(c, keys, main, plain, id, fallback) <==> TrueRecord(main, seen, id) == TrueRecord(main, plain, id)
    ensures Dismissed(c, keys, main, id, p, fallback) <==> !p(TrueRecord(main, seen, id))
  {
  }

  lemma DeliveredAnswers(c: Crypto, keys: KeyState, main: map<int, Row>, plain: map<int, Plain>, seen: map<int, Plain>,
      ids: set<int>, p: FullRecord -> bool, fallback: Bytes)
    requires main.Keys == plain.Keys == seen.Keys
    requires forall id :: id in Fetched(main, ids) <==> id in ids && id in main && ReachedIn(main, ids, id)
    requires forall id :: id in Fetched(main, ids) ==> RowReads(c, keys, main, seen, id, fallback)
    ensures
      var chosen, wanted := Delivered(main, seen, ids, p), Matches(plain, p, main);
      Answered(c, keys, main, plain, ids, p, fallback) <==>
      chosen == wanted && forall id :: id in chosen && id in wanted ==>
        TrueRecord(main, seen, id) == TrueRecord(main, plain, id)
  {
    var chosen, wanted := Delivered(main, seen, ids, p), Matches(plain, p, main);
    forall id | id in Fetched(main, ids)
      ensures RowReads(c, keys, main, plain, id, fallback) <==>
              TrueRecord(main, seen, id) == TrueRecord(main, plain, id)
      ensures Dismissed(c, keys, main, id, p, fallback) <==> id !in chosen
    {
      SeenRow(c, keys, main, plain, seen, id, p, fallback);
    }
    if Answered(c, keys, main, plain, ids, p, fallback) {
      forall id ensures id in chosen <==> id in wanted {
        assert id in wanted ==> id in Fetched(main, ids);
      }
    }
  }

  // When the rows read back, a query is the scan exactly when every row of the scan is a
  // candidate and delivered.
  lemma QueryIff(c: Crypto, keys: KeyState, main: map<int, Row>, plain: map<int, Plain>, ids: set<int>,
      p: FullRecord -> bool, fallback: Bytes)
    requires Reads(c, keys, main, plain, fallback)
    ensures KeepAll(FetchFullRecords(c, keys, main, ids, fallback), p) == Ok(Scan(main, plain, p)) <==>
            forall id :: id in Matches(plain, p, main) ==> id in ids && ReachedIn(main, ids, id)
  {
    AnyQueryIff(c, keys, main, plain, ids, p, fallback);
    forall id | id in main && id !in Matches(plain, p, main) ensures Dismissed(c, keys, main, id, p, fallback) {
    }
  }

  // Without any assumption: when the answer is the scan, every row of the scan is a
  // candidate, fits the buffers and reads back.
  lemma RightAnswerNeeds(c: Crypto, keys: KeyState, main: map<int, Row>, plain: map<int, Plain>, ids: set<int>,
      p: FullRecord -> bool, fallback: Bytes, id: int)
    requires main.Keys == plain.Keys && id in Matches(plain, p, main)
    requires KeepAll(FetchFullRecords(c, keys, main, ids, fallback), p) == Ok(Scan(main, plain, p))
    ensures id in ids && Readable(main[id])
    ensures FullRow(c, keys, id, main[id], fallback) == Ok(TrueRecord(main, plain, id))
  {
    AnyQueryIff(c, keys, main, plain, ids, p, fallback);
    assert ReachedIn(main, ids, id);
  }

  lemma FullRowsBack(c: Crypto, keys: KeyState, main: map<int, Row>, ids: seq<int>, fallback: Bytes)
    requires ids != [] && forall i :: 0 <= i < |ids| ==> ids[i] in main
    requires FullRows(c, keys, main, ids, fallback).Ok?
    ensures FullRows(c, keys, main, ids[..|ids| - 1], fallback).Ok?
    ensures FullRow(c, keys, ids[|ids| - 1], main[ids[|ids| - 1]], fallback).Ok?
    ensures FullRow(c, keys, ids[|ids| - 1], main[ids[|ids| - 1]], fallback).value.id == ids[|ids| - 1]
    ensures FullRows(c, keys, main, ids, fallback).value == FullRows(c, keys, main, ids[..|ids| - 1], fallback).value
            + [FullRow(c, keys, ids[|ids| - 1], main[ids[|ids| - 1]], fallback).value]
  {
  }

  // Record k of a fetch is what row k decrypts to.
  lemma {:induction false} RowsOfAnswer(c: Crypto, keys: KeyState, main: map<int, Row>, ids: seq<int>, fallback: Bytes,
      k: nat)
    requires forall i :: 0 <= i < |ids| ==> ids[i] in main
    requires FullRows(c, keys, main, ids, fallback).Ok? && k < |ids|
    ensures |FullRows(c, keys, main, ids, fallback).value| == |ids|
    ensures FullRow(c, keys, ids[k], main[ids[k]], fallback) == Ok(FullRows(c, keys, main, ids, fallback).value[k])
    ensures FullRows(c, keys, main, ids, fallback).value[k].id == ids[k]
    decreases |ids|
  {
    FullRowsBack(c, keys, main, ids, fallback);
    RowsLength(c, keys, main, ids[..|ids| - 1], fallback);
    if k < |ids| - 1 {
      RowsOfAnswer(c, keys, main, ids[..|ids| - 1], fallback, k);
    }
  }

  lemma {:induction false} RowsLength(c: Crypto, keys: KeyState, main: map<int, Row>, ids: seq<int>, fallback: Bytes)
    requires forall i :: 0 <= i < |ids| ==> ids[i] in main
    requires FullRows(c, keys, main, ids, fallback).Ok?
    ensures |FullRows(c, keys, main, ids, fallback).value| == |ids|
    decreases |ids|
  {
    if ids != [] {
      FullRowsBack(c, keys, main, ids, fallback);
      RowsLength(c, keys, main, ids[..|ids| - 1], fallback);
    }
  }
}
