/** Data access: the writes as sequences of SQL statements, and the candidate queries (src/database/dao.cpp). */
module Dao {
  import opened Common
  import opened Ordering
  import opened Sm4
  import opened Tables
  import opened Database

  datatype CipherRecord = CipherRecord(id: int, cipher: Bytes, tag: Bytes, field: Field, encVersion: int)

  // ---- Candidate queries ----

  // SELECT id FROM sensitive_data WHERE <field>_blind_idx IN (hashes)
  function ExactCandidates(main: map<int, Row>, hashes: set<Bytes>, f: Field): set<int> {
    set id | id in main && main[id].Get(f).blind in hashes
  }

  // The distinct hashes of the list that the index holds for one row and field.
  function Matched(inverted: set<Token>, hashes: seq<Bytes>, id: int, f: Field): set<Bytes> {
    set h | h in hashes && Token(h, id, f) in inverted
  }

  // SELECT data_id ... WHERE token_hash IN (hashes) AND field_type = f
  // GROUP BY data_id HAVING COUNT(DISTINCT token_hash) = <number of hashes>
  function FuzzyCandidates(inverted: set<Token>, hashes: seq<Bytes>, f: Field): set<int> {
    set t | t in inverted && t.field == f && t.hash in hashes
            && |Matched(inverted, hashes, t.id, f)| == |hashes| :: t.id
  }

  ghost predicate Distinct(hashes: seq<Bytes>) {
    forall i, j :: 0 <= i < j < |hashes| ==> hashes[i] != hashes[j]
  }

  function Elements(s: seq<Bytes>): set<Bytes> {
    set h | h in s
  }

  lemma {:induction false} DistinctCount(s: seq<Bytes>)
    ensures |Elements(s)| <= |s|
    ensures |Elements(s)| == |s| <==> Distinct(s)
  {
    if s != [] {
      var last, front := s[|s| - 1], s[..|s| - 1];
      DistinctCount(front);
      assert s == front + [last];
      assert Elements(s) == Elements(front) + {last};
      if last in Elements(front) {
        var i :| 0 <= i < |front| && front[i] == last;
        assert s[i] == s[|s| - 1];
        assert Elements(s) == Elements(front);
      } else {
        assert forall i :: 0 <= i < |front| ==> front[i] in Elements(front);
        assert |Elements(s)| == |Elements(front)| + 1;
        assert Distinct(front) ==> Distinct(s);
      }
    }
  }

  // The HAVING clause means: the listed hashes are pairwise distinct and all indexed.
  lemma FuzzyCandidateIff(inverted: set<Token>, hashes: seq<Bytes>, id: int, f: Field)
    requires hashes != []
    ensures id in FuzzyCandidates(inverted, hashes, f) <==>
            Distinct(hashes) && forall h :: h in hashes ==> Token(h, id, f) in inverted
  {
    var m := Matched(inverted, hashes, id, f);
    DistinctCount(hashes);
    assert m <= Elements(hashes);
    CardinalityOfSubset(m, Elements(hashes));
    if |m| == |hashes| {
      assert m == Elements(hashes);
      forall h | h in hashes ensures Token(h, id, f) in inverted {
        assert h in m;
      }
      assert Token(hashes[0], id, f) in inverted;
    } else if Distinct(hashes) {
      assert m != Elements(hashes);
      assert exists h :: h in hashes && h !in m;
    }
  }

  lemma {:induction false} CardinalityOfSubset(a: set<Bytes>, b: set<Bytes>)
    requires a <= b
    ensures |a| <= |b|
    ensures |a| == |b| ==> a == b
  {
    var rest := b - a;
    assert b == a + rest && a !! rest;
    assert |b| == |a| + |rest|;
    if |a| == |b| {
      assert rest == {};
    }
  }

  // A list in which two hashes agree has no candidate, whatever the index holds.
  lemma NoCandidateForRepeats(inverted: set<Token>, hashes: seq<Bytes>, f: Field)
    requires !Distinct(hashes)
    ensures FuzzyCandidates(inverted, hashes, f) == {}
  {
    forall id ensures id !in FuzzyCandidates(inverted, hashes, f) {
      FuzzyCandidateIff(inverted, hashes, id, f);
    }
  }

  // The rows a fetch loop delivers: it ends at the first one that does not fit.
  function ReadablePrefix(main: map<int, Row>, ids: seq<int>): (r: seq<int>)
    requires forall i :: 0 <= i < |ids| ==> ids[i] in main
    ensures r <= ids
    ensures forall i :: 0 <= i < |r| ==> Readable(main[ids[i]])
    ensures |r| < |ids| ==> !Readable(main[ids[|r|]])
  {
    if ids == [] || !Readable(main[ids[0]]) then [] else [ids[0]] + ReadablePrefix(main, ids[1..])
  }

  // The rows among ids that exist, in primary-key order.
  function Present(main: map<int, Row>, ids: set<int>): (r: seq<int>)
    ensures StrictlyAscending(r)
    ensures forall id :: id in r <==> id in ids && id in main
    ensures forall i :: 0 <= i < |r| ==> r[i] in main
  {
    Ascending(set id | id in ids && id in main)
  }

  function RecordOf(id: int, row: Row, f: Field): CipherRecord {
    CipherRecord(id, row.Get(f).cipher, row.Get(f).tag, f, row.encVersion)
  }

  function RecordsOf(main: map<int, Row>, ids: seq<int>): seq<CipherRecord>
    requires forall i :: 0 <= i < |ids| ==> ids[i] in main
  {
    if ids == [] then [] else
      var last := ids[|ids| - 1];
      RecordsOf(main, ids[..|ids| - 1])
        + RecordsOfRow(last, main[last])
  }

  function RecordsOfRow(id: int, row: Row): seq<CipherRecord> {
    [RecordOf(id, row, Name), RecordOf(id, row, Phone), RecordOf(id, row, Address)]
  }

  // The columns of the rows: name, phone and address of the first, then of the second, and so on.
  ghost predicate RecordsAre(main: map<int, Row>, ids: seq<int>, records: seq<CipherRecord>)
    requires forall i :: 0 <= i < |ids| ==> ids[i] in main
  {
    |records| == 3 * |ids| && forall i :: 0 <= i < |ids| ==> RecordsAt(ids[i], main[ids[i]], records, i)
  }

  ghost predicate RecordsAt(id: int, row: Row, records: seq<CipherRecord>, i: nat)
    requires 3 * i + 3 <= |records|
  {
    && records[3 * i] == CipherRecord(id, row.name.cipher, row.name.tag, Name, row.encVersion)
    && records[3 * i + 1] == CipherRecord(id, row.phone.cipher, row.phone.tag, Phone, row.encVersion)
    && records[3 * i + 2] == CipherRecord(id, row.address.cipher, row.address.tag, Address, row.encVersion)
  }

  lemma {:induction false} RecordsOfAre(main: map<int, Row>, ids: seq<int>)
    requires forall i :: 0 <= i < |ids| ==> ids[i] in main
    ensures RecordsAre(main, ids, RecordsOf(main, ids))
  {
    if ids != [] {
      var n := |ids| - 1;
      RecordsOfAre(main, ids[..n]);
      forall i | 0 <= i < |ids| ensures RecordsAt(ids[i], main[ids[i]], RecordsOf(main, ids), i) {
        assert i < n ==> RecordsAt(ids[..n][i], main[ids[i]], RecordsOf(main, ids[..n]), i);
      }
    }
  }

  lemma RecordsOfNext(main: map<int, Row>, ids: seq<int>, i: nat)
    requires forall k :: 0 <= k < |ids| ==> ids[k] in main
    requires i < |ids|
    ensures RecordsOf(main, ids[..i + 1]) == RecordsOf(main, ids[..i]) + RecordsOfRow(ids[i], main[ids[i]])
  {
    assert ids[..i + 1][..i] == ids[..i];
  }

  lemma ReadablePrefixIs(main: map<int, Row>, ids: seq<int>, i: nat)
    requires forall k :: 0 <= k < |ids| ==> ids[k] in main
    requires i <= |ids| && forall k :: 0 <= k < i ==> Readable(main[ids[k]])
    requires i < |ids| ==> !Readable(main[ids[i]])
    ensures ReadablePrefix(main, ids) == ids[..i]
  {
    var r := ReadablePrefix(main, ids);
    assert r == ids[..|r|];
  }

  class DAO {
    const conn: Session
    const crypto: Crypto

    constructor (conn: Session, crypto: Crypto)
      ensures this.conn == conn && this.crypto == crypto
    {
      this.conn, this.crypto := conn, crypto;
    }

    // Encryption, blind indexes and tags of one row; the vectors come from the library's generator.
    method SealColumns(data: Plain, encKey: Bytes, idxKey: Bytes, tagKey: Bytes, version: int, ivs: Vectors)
      returns (r: Result<Row>)
      ensures |encKey| != KEY_LEN ==> r == Err(BadKeyLength)
      ensures |encKey| == KEY_LEN ==> r == Ok(SealedRow(crypto, data, encKey, idxKey, tagKey, version, ivs))
    {
      var nameCipher := Encrypt(crypto, data.name, encKey, ivs.name);
      var phoneCipher := Encrypt(crypto, data.phone, encKey, ivs.phone);
      var addrCipher := Encrypt(crypto, data.address, encKey, ivs.address);
      if nameCipher.Err? || phoneCipher.Err? || addrCipher.Err? {
        return Err(BadKeyLength);
      }
      r := Ok(Row(version,
                  Cell(nameCipher.value, HmacHex(crypto, data.name, idxKey), HmacHex(crypto, nameCipher.value, tagKey)),
                  Cell(phoneCipher.value, HmacHex(crypto, data.phone, idxKey),
                       HmacHex(crypto, phoneCipher.value, tagKey)),
                  Cell(addrCipher.value, HmacHex(crypto, data.address, idxKey),
                      HmacHex(crypto, addrCipher.value, tagKey))));
    }

    // INSERT IGNORE of one list of hashes; an empty list sends no statement.
    method InsertFuzzyIndex(id: int, f: Field, hashes: seq<Bytes>, accepted: bool) returns (ok: bool)
      modifies conn`inverted
      ensures accepted ==> ok
      ensures conn.inverted == if ok then old(conn.inverted) + Entries(hashes, id, f) else old(conn.inverted)
    {
      if |hashes| == 0 {
        return true;
      }
      if !accepted {
        return false;
      }
      conn.inverted := conn.inverted + Entries(hashes, id, f);
      ok := true;
    }

    // The three INSERT IGNORE statements of one row, numbered from first on.
    method InsertAllTokens(id: int, data: Plain, idxKey: Bytes, failAt: nat, first: nat) returns (ok: bool)
      modifies conn`inverted
      ensures failAt < first || failAt > first + 2 ==> ok
      ensures ok ==> conn.inverted == old(conn.inverted) + TokensOfRow(crypto, id, data, idxKey)
    {
      var nameTokens := SplitBigrams(data.name);
      var phoneTokens := SplitBigrams(data.phone);
      var addrTokens := SplitBigrams(data.address);
      var nameHashes := HashAllTokens(crypto, nameTokens, idxKey);
      var phoneHashes := HashAllTokens(crypto, phoneTokens, idxKey);
      var addrHashes := HashAllTokens(crypto, addrTokens, idxKey);
      ok := InsertFuzzyIndex(id, Name, nameHashes, failAt != first);
      if ok {
        ok := InsertFuzzyIndex(id, Phone, phoneHashes, failAt != first + 1);
      }
      if ok {
        ok := InsertFuzzyIndex(id, Address, addrHashes, failAt != first + 2);
      }
    }

    // failAt is the number of the step that fails, or more when none does:
    // 0 encryption or INSERT of the row, 1 START TRANSACTION, 2 to 4 tokens, 5 COMMIT.
    method InsertData(data: Plain, encKey: Bytes, idxKey: Bytes, tagKey: Bytes, version: int, ivs: Vectors, failAt: nat)
      returns (r: Option<int>)
      requires conn.snapshot.None?
      modifies conn`main, conn`inverted, conn`nextId, conn`snapshot
      ensures conn.snapshot.None?
      ensures failAt > 5 && |encKey| == KEY_LEN ==> r.Some?
      ensures failAt == 0 || |encKey| != KEY_LEN ==>
        r == None && conn.View() == old(conn.View()) && conn.nextId == old(conn.nextId)
      ensures failAt > 0 && |encKey| == KEY_LEN ==>
        var id, row := old(conn.nextId), SealedRow(crypto, data, encKey, idxKey, tagKey, version, ivs);
        && conn.nextId == id + 1
        && (r.Some? ==> r.value == id && conn.View() == AfterInsert(crypto, old(conn.View()), id, row, data, idxKey))
        && (r.None? ==> conn.View() == Store(old(conn.main)[id := row], old(conn.inverted)))
      ensures r.Some? ==>
        && r.value in conn.main && conn.main == old(conn.main)[r.value := conn.main[r.value]]
        && SealsRow(crypto, conn.main[r.value], data, encKey, idxKey, tagKey, version, ivs)
        && TokensAdded(crypto, old(conn.inverted), conn.inverted, r.value, data, idxKey)
    {
      InsertedTokens(crypto, conn.View(), conn.nextId, SealedRow(crypto, data, encKey, idxKey, tagKey, version, ivs),
                     data, idxKey);
      var sealedRow := SealColumns(data, encKey, idxKey, tagKey, version, ivs);
      if sealedRow.Err? || failAt == 0 {
        return None;
      }
      var id := conn.nextId;
      conn.main := conn.main[id := sealedRow.value];
      conn.nextId := id + 1;
      if failAt == 1 {
        return None;
      }
      var tx := new Transaction(conn);
      var ok := InsertAllTokens(id, data, idxKey, failAt, 2);
      if ok {
        ok := tx.Commit(failAt != 5);
      }
      tx.Close();
      r := if ok then Some(id) else None;
    }

    // 0 START TRANSACTION, 1 DELETE tokens, 2 encryption, 3 UPDATE, 4 to 6 tokens, 7 COMMIT.
    method UpdateData(id: int, data: Plain, encKey: Bytes, idxKey: Bytes, tagKey: Bytes, version: int, ivs: Vectors,
                      failAt: nat)
      returns (ok: bool)
      requires conn.snapshot.None?
      modifies conn`main, conn`inverted, conn`snapshot
      ensures conn.snapshot.None?
      ensures failAt > 7 && |encKey| == KEY_LEN ==> ok
      ensures ok ==>
        |encKey| == KEY_LEN &&
        conn.View() == AfterUpdate(crypto, old(conn.View()), id,
                                   SealedRow(crypto, data, encKey, idxKey, tagKey, version, ivs), data, idxKey)
      ensures !ok ==> conn.View() == old(conn.View())
      ensures ok ==> TokensReplaced(crypto, old(conn.inverted), conn.inverted, id, data, idxKey)
      ensures ok && id !in old(conn.main) ==> conn.main == old(conn.main)
      ensures ok && id in old(conn.main) ==>
        && id in conn.main && conn.main == old(conn.main)[id := conn.main[id]]
        && SealsRow(crypto, conn.main[id], data, encKey, idxKey, tagKey, version, ivs)
    {
      UpdatedTokens(crypto, conn.View(), id, SealedRow(crypto, data, encKey, idxKey, tagKey, version, ivs), data,
                    idxKey);
      if failAt == 0 {
        return false;
      }
      var tx := new Transaction(conn);
      ok := UpdateStatements(id, data, encKey, idxKey, tagKey, version, ivs, failAt);
      if ok {
        ok := tx.Commit(failAt != 7);
      }
      tx.Close();
    }

    // The statements between START TRANSACTION and COMMIT; false where the source throws.
    method UpdateStatements(id: int, data: Plain, encKey: Bytes, idxKey: Bytes, tagKey: Bytes, version: int,
                            ivs: Vectors, failAt: nat)
      returns (ok: bool)
      modifies conn`main, conn`inverted
      ensures failAt > 6 && |encKey| == KEY_LEN ==> ok
      ensures ok ==>
        |encKey| == KEY_LEN &&
        conn.View() == AfterUpdate(crypto, old(conn.View()), id,
                                   SealedRow(crypto, data, encKey, idxKey, tagKey, version, ivs), data, idxKey)
    {
      if failAt == 1 {
        return false;
      }
      conn.inverted := WithoutTokens(conn.inverted, id);
      var sealedRow := SealColumns(data, encKey, idxKey, tagKey, version, ivs);
      if sealedRow.Err? || failAt == 2 || failAt == 3 {
        return false;
      }
      if id in conn.main {
        conn.main := conn.main[id := sealedRow.value];
      }
      ok := InsertAllTokens(id, data, idxKey, failAt, 4);
    }

    // 0 START TRANSACTION, 1 DELETE tokens, 2 DELETE row, 3 COMMIT.
    method DeleteData(id: int, failAt: nat) returns (ok: bool)
      requires conn.snapshot.None?
      modifies conn`main, conn`inverted, conn`snapshot
      ensures conn.snapshot.None?
      ensures ok == (failAt > 3)
      ensures conn.View() == if ok then AfterDelete(old(conn.View()), id) else old(conn.View())
      ensures ok ==> conn.main == old(conn.main) - {id} && TokensRemoved(old(conn.inverted), conn.inverted, id)
    {
      if failAt == 0 {
        return false;
      }
      var tx := new Transaction(conn);
      ok := failAt != 1;
      if ok {
        conn.inverted := WithoutTokens(conn.inverted, id);
        ok := failAt != 2;
      }
      if ok {
        conn.main := conn.main - {id};
        ok := tx.Commit(failAt != 3);
      }
      tx.Close();
    }

    // The fetch loop: three records per row, until a row does not fit the buffers.
    method FetchRows(rows: seq<int>) returns (records: seq<CipherRecord>)
      requires forall i :: 0 <= i < |rows| ==> rows[i] in conn.main
      ensures records == RecordsOf(conn.main, ReadablePrefix(conn.main, rows))
      ensures RecordsAre(conn.main, ReadablePrefix(conn.main, rows), records)
    {
      var main := conn.main;
      records := [];
      var i := 0;
      while i < |rows| && Readable(main[rows[i]])
        invariant 0 <= i <= |rows|
        invariant forall k :: 0 <= k < i ==> Readable(main[rows[k]])
        invariant records == RecordsOf(main, rows[..i])
      {
        RecordsOfNext(main, rows, i);
        records := records + RecordsOfRow(rows[i], main[rows[i]]);
        i := i + 1;
      }
      ReadablePrefixIs(main, rows, i);
      RecordsOfAre(main, ReadablePrefix(main, rows));
    }

    method BatchSelectCiphers(ids: set<int>) returns (records: seq<CipherRecord>)
      ensures records == RecordsOf(conn.main, ReadablePrefix(conn.main, Present(conn.main, ids)))
      ensures RecordsAre(conn.main, ReadablePrefix(conn.main, Present(conn.main, ids)), records)
    {
      records := FetchRows(Present(conn.main, ids));
    }
  }
}
