/**
  Resumable rebuild tasks (src/audit/index_rebuilder.cpp): batches, checkpoints, and a
  crash before any database write or MySQL refusing one. An attempt that stops, because the
  process dies or because a refused progress write throws, leaves what is in the database;
  everything it keeps in local variables is lost.
 */
module Rebuild {
  import opened Common
  import opened Ordering
  import opened Sm4
  import opened Tables
  import opened Database
  import opened Keys
  import opened Dao
  import opened Reindex

  datatype Outcome = Crashed | Threw(error: Error) | Returned(count: int)

  // ---- Counters and checkpoints ----

  function Picked(keys: set<int>, q: int -> bool, lo: int, upTo: int): set<int> {
    set id | id in keys && lo <= id <= upTo && q(id)
  }

  // Between two marks with no row, the selection does not change; at a row, it may grow by that row.
  lemma PickedSkip(keys: set<int>, q: int -> bool, lo: int, a: int, b: int)
    requires a <= b && forall id :: id in keys ==> !(a < id <= b && lo <= id)
    ensures Picked(keys, q, lo, a) == Picked(keys, q, lo, b)
  {
  }

  lemma PickedNext(keys: set<int>, q: int -> bool, lo: int, a: int, id: int)
    requires a < id && id in keys && lo <= id && forall k :: k in keys ==> !(a < k < id && lo <= k)
    ensures |Picked(keys, q, lo, id)| == |Picked(keys, q, lo, a)| + if q(id) then 1 else 0
  {
    assert Picked(keys, q, lo, id) == Picked(keys, q, lo, a) + if q(id) then {id} else {};
    assert id !in Picked(keys, q, lo, a);
  }

  function IsGood(c: Crypto, job: Job, main: map<int, Row>): int -> bool {
    (id: int) => id in main && Good(c, job, main[id])
  }

  function IsBad(c: Crypto, job: Job, main: map<int, Row>): int -> bool {
    (id: int) => id in main && !Good(c, job, main[id])
  }

  // The rows of the range up to an id that are rebuilt, and those that fail.
  function GoodIds(c: Crypto, job: Job, main: map<int, Row>, upTo: int): set<int> {
    Picked(main.Keys, IsGood(c, job, main), job.lo, upTo)
  }

  function BadIds(c: Crypto, job: Job, main: map<int, Row>, upTo: int): set<int> {
    Picked(main.Keys, IsBad(c, job, main), job.lo, upTo)
  }

  ghost predicate CountsUpTo(c: Crypto, job: Job, main: map<int, Row>, success: int, fail: int, upTo: int) {
    success == |GoodIds(c, job, main, upTo)| && fail == |BadIds(c, job, main, upTo)|
  }

  // A record counts as rebuilt when there is nothing to decrypt, or when it decrypts.
  lemma GoodIff(c: Crypto, job: Job, row: Row)
    ensures Good(c, job, row) <==>
            CodeCipher(job.code, row) == [] || Opened(c, CodeCipher(job.code, row), job.encKey).Ok?
  {
  }

  lemma GoodIdsAre(c: Crypto, job: Job, main: map<int, Row>, upTo: int)
    ensures GoodIds(c, job, main, upTo) == set id | id in main && job.lo <= id <= upTo
      && (CodeCipher(job.code, main[id]) == [] || Opened(c, CodeCipher(job.code, main[id]), job.encKey).Ok?)
  {
    forall id | id in main
      ensures Good(c, job, main[id]) <==>
              CodeCipher(job.code, main[id]) == [] || Opened(c, CodeCipher(job.code, main[id]), job.encKey).Ok?
    {
      GoodIff(c, job, main[id]);
    }
  }

  lemma CountsAddUp(c: Crypto, job: Job, main: map<int, Row>, upTo: int)
    ensures |GoodIds(c, job, main, upTo)| + |BadIds(c, job, main, upTo)| == |RowsIn(main, job.lo, upTo)|
  {
    var a, b := GoodIds(c, job, main, upTo), BadIds(c, job, main, upTo);
    assert a !! b && a + b == RowsIn(main, job.lo, upTo);
  }

  function IsReadable(main: map<int, Row>): int -> bool {
    (id: int) => id in main && Readable(main[id])
  }

  // The rows of the range up to an id that fit the fetch buffers.
  function FittingIds(main: map<int, Row>, lo: int, upTo: int): set<int> {
    Picked(main.Keys, IsReadable(main), lo, upTo)
  }

  // What the counters are worth. Up to the first row that does not fit they count every row; if
  // no statement is refused they tell which of them failed. Beyond it they count too few.
  ghost predicate Tally(c: Crypto, job: Job, main: map<int, Row>, sure: bool, success: int, fail: int, upTo: int) {
    && 0 <= success <= |GoodIds(c, job, main, upTo)| && 0 <= fail && success + fail <= |FittingIds(main, job.lo, upTo)|
    && (ReadableIn(main, job.lo, upTo) ==>
        && success + fail == |RowsIn(main, job.lo, upTo)|
        && (sure ==> CountsUpTo(c, job, main, success, fail, upTo)))
  }

  // The counters add up to the rows exactly when all these fit.
  lemma TallyIff(c: Crypto, job: Job, main: map<int, Row>, sure: bool, success: int, fail: int, upTo: int)
    requires Tally(c, job, main, sure, success, fail, upTo)
    ensures success + fail == |RowsIn(main, job.lo, upTo)| <==> ReadableIn(main, job.lo, upTo)
    ensures success + fail <= |RowsIn(main, job.lo, upTo)|
  {
    var rows, fitting := RowsIn(main, job.lo, upTo), FittingIds(main, job.lo, upTo);
    assert fitting <= rows;
    SubsetSize(fitting, rows);
    if !ReadableIn(main, job.lo, upTo) {
      var id :| id in main && job.lo <= id <= upTo && !Readable(main[id]);
      assert id in rows && id !in fitting;
    }
  }

  lemma SubsetSize(a: set<int>, b: set<int>)
    requires a <= b
    ensures |a| <= |b| && (a != b ==> |a| < |b|)
  {
    assert b == a + (b - a);
  }

  lemma TallySkip(c: Crypto, job: Job, main: map<int, Row>, sure: bool, success: int, fail: int, a: int, b: int)
    requires a <= b && Tally(c, job, main, sure, success, fail, a)
    requires ReadableIn(main, job.lo, b) ==> forall id :: id in main ==> !(a < id <= b && job.lo <= id)
    ensures Tally(c, job, main, sure, success, fail, b)
  {
    SubsetSize(GoodIds(c, job, main, a), GoodIds(c, job, main, b));
    SubsetSize(FittingIds(main, job.lo, a), FittingIds(main, job.lo, b));
    if ReadableIn(main, job.lo, b) {
      assert ReadableIn(main, job.lo, a);
      assert RowsIn(main, job.lo, a) == RowsIn(main, job.lo, b);
      PickedSkip(main.Keys, IsGood(c, job, main), job.lo, a, b);
      PickedSkip(main.Keys, IsBad(c, job, main), job.lo, a, b);
    }
  }

  lemma TallyNext(c: Crypto, job: Job, main: map<int, Row>, sure: bool, success: int, fail: int, a: int, id: int,
      ok: bool)
    requires a < id && id in main && job.lo <= id && forall k :: k in main ==> !(a < k < id && job.lo <= k)
    requires Tally(c, job, main, sure, success, fail, a) && Readable(main[id])
    requires (ok ==> Good(c, job, main[id])) && (sure ==> ok == Good(c, job, main[id]))
    ensures Tally(c, job, main, sure, if ok then success + 1 else success, if ok then fail else fail + 1, id)
  {
    CountsNext(c, job, main, a, id);
    RowsNext(main, job.lo, a, id);
  }

  lemma CountsNext(c: Crypto, job: Job, main: map<int, Row>, a: int, id: int)
    requires a < id && id in main && job.lo <= id && forall k :: k in main ==> !(a < k < id && job.lo <= k)
    requires Readable(main[id])
    ensures |GoodIds(c, job, main, id)| == |GoodIds(c, job, main, a)| + if Good(c, job, main[id]) then 1 else 0
    ensures |BadIds(c, job, main, id)| == |BadIds(c, job, main, a)| + if Good(c, job, main[id]) then 0 else 1
    ensures |FittingIds(main, job.lo, id)| == |FittingIds(main, job.lo, a)| + 1
  {
    PickedNext(main.Keys, IsGood(c, job, main), job.lo, a, id);
    PickedNext(main.Keys, IsBad(c, job, main), job.lo, a, id);
    PickedNext(main.Keys, IsReadable(main), job.lo, a, id);
  }

  lemma RowsNext(main: map<int, Row>, lo: int, a: int, id: int)
    requires a < id && id in main && lo <= id && forall k :: k in main ==> !(a < k < id && lo <= k)
    ensures |RowsIn(main, lo, id)| == |RowsIn(main, lo, a)| + 1
    ensures ReadableIn(main, lo, id) ==> ReadableIn(main, lo, a)
  {
    assert RowsIn(main, lo, id) == RowsIn(main, lo, a) + {id} && id !in RowsIn(main, lo, a);
  }

  // The id the next attempt starts after.
  function Mark(task: Task): int {
    if task.last > 0 then task.last else task.startId - 1
  }

  ghost predicate ReadableIn(main: map<int, Row>, lo: int, hi: int) {
    forall id :: id in main && lo <= id <= hi ==> Readable(main[id])
  }

  ghost predicate PositiveIds(main: map<int, Row>) {
    forall id :: id in main ==> id > 0
  }

  ghost predicate SameRange(job: Job, task: Task) {
    task.fieldCode == job.code && task.startId == job.lo && task.endId == job.hi
  }

  // A progress row tells the truth about the rows up to its mark. sure says that no statement
  // of a record is refused.
  ghost predicate Truth(c: Crypto, job: Job, main: map<int, Row>, sure: bool, task: Task) {
    SameRange(job, task) && Tally(c, job, main, sure, task.success, task.fail, Mark(task))
  }

  // If none of them is refused, the rows up to an id and to the first that does not fit are finished.
  ghost predicate DoneReach(c: Crypto, job: Job, t0: Tables, t: Tables, sure: bool, upTo: int) {
    sure ==> forall id :: id in t0.main && id <= upTo && ReadableIn(t0.main, job.lo, id) ==> Done(c, job, t0, t, id)
  }

  // No attempt goes further: the end of the range, or where an empty range begins.
  function Limit(job: Job): int {
    var a := if job.hi > job.lo - 1 then job.hi else job.lo - 1;
    if a > 0 then a else 0
  }

  // What holds in the database before, between and after attempts.
  ghost predicate Resumable(c: Crypto, job: Job, t0: Tables, t: Tables, sure: bool, task: Task) {
    && Truth(c, job, t0.main, sure, task) && Between(c, job, t0, t)
    && task.last <= Limit(job) && (task.last > 0 ==> task.last >= job.lo - 1)
    && DoneReach(c, job, t0, t, sure, Mark(task))
    && (task.status == 2 ==>
        && DoneReach(c, job, t0, t, sure, job.hi) && task.fail == 0
        && Tally(c, job, t0.main, sure, task.success, task.fail, job.hi))
  }

  // The progress row in force when row k was written.
  function Preceding(log: seq<Task>, from: nat, first: Task, k: nat): Task
    requires from <= k <= |log|
  {
    if k == from then first else log[k - 1]
  }

  ghost predicate LogFrom(c: Crypto, job: Job, main: map<int, Row>, sure: bool, log: seq<Task>, from: nat,
      first: Task) {
    && from <= |log|
    && (forall k :: from <= k < |log| ==> Truth(c, job, main, sure, log[k]))
    && (job.hi > 0 ==> forall k {:trigger Preceding(log, from, first, k)} :: from <= k < |log| ==>
        Preceding(log, from, first, k).last <= log[k].last)
  }

  function Latest(log: seq<Task>, from: nat, first: Task): Task
    requires from <= |log|
  {
    Preceding(log, from, first, |log|)
  }

  // The rows of one batch: ORDER BY id LIMIT limit, as far as the fetch loop gets.
  function BatchRows(main: map<int, Row>, lo: int, hi: int, limit: nat): (r: seq<int>)
    ensures forall i :: 0 <= i < |r| ==> r[i] in main
  {
    var rows := RowsInOrder(main, lo, hi);
    ReadablePrefix(main, if |rows| <= limit then rows else rows[..limit])
  }

  lemma {:induction false} RangeHoldsFew(main: map<int, Row>, lo: int, hi: int)
    requires lo <= hi + 1
    ensures |RowsIn(main, lo, hi)| <= hi - lo + 1
    decreases hi - lo + 1
  {
    if lo <= hi {
      RangeHoldsFew(main, lo, hi - 1);
      assert RowsIn(main, lo, hi) == RowsIn(main, lo, hi - 1) + if hi in main then {hi} else {};
    } else {
      assert RowsIn(main, lo, hi) == {};
    }
  }

  // The LIMIT never truncates a batch, and readable rows all arrive.
  lemma BatchIsWhole(main: map<int, Row>, lo: int, hi: int, limit: nat)
    requires lo <= hi + 1 && hi - lo + 1 <= limit && ReadableIn(main, lo, hi)
    ensures BatchRows(main, lo, hi, limit) == RowsInOrder(main, lo, hi)
  {
    RangeHoldsFew(main, lo, hi);
  }

  // What a batch delivers, in ascending order: the rows of its stretch up to the first that
  // does not fit the buffers.
  ghost predicate BatchOf(main: map<int, Row>, ids: seq<int>, lo: int, hi: int) {
    && StrictlyAscending(ids)
    && (forall i :: 0 <= i < |ids| ==> ids[i] in main && lo <= ids[i] <= hi && Readable(main[ids[i]]))
    && (ids != [] ==> forall k :: k in main && lo <= k <= ids[|ids| - 1] ==> k in ids)
    && (forall k :: k in main && lo <= k <= hi && ReadableIn(main, lo, k) ==> k in ids)
  }

  // That determines it.
  lemma BatchUnique(main: map<int, Row>, a: seq<int>, b: seq<int>, lo: int, hi: int)
    requires BatchOf(main, a, lo, hi) && BatchOf(main, b, lo, hi)
    ensures a == b
  {
    forall k ensures k in a <==> k in b {
      if k in a {
        BatchReaches(main, a, lo, hi, k);
      }
      if k in b {
        BatchReaches(main, b, lo, hi, k);
      }
    }
    AscendingUnique(a, b);
  }

  lemma BatchReaches(main: map<int, Row>, ids: seq<int>, lo: int, hi: int, k: int)
    requires BatchOf(main, ids, lo, hi) && k in ids
    ensures k in main && lo <= k <= hi && ReadableIn(main, lo, k)
  {
    forall j | j in main && lo <= j <= k ensures Readable(main[j]) {
      assert k <= ids[|ids| - 1] && j in ids;
    }
  }

  // A prefix of an ascending sequence holds all that is not greater than its end.
  lemma PrefixHolds(rows: seq<int>, n: nat, k: int)
    requires StrictlyAscending(rows) && 0 < n <= |rows| && k in rows && k <= rows[n - 1]
    ensures k in rows[..n]
  {
    var j :| 0 <= j < |rows| && rows[j] == k;
    assert j <= n - 1;
    assert rows[..n][j] == k;
  }

  lemma BatchRowsAre(main: map<int, Row>, lo: int, hi: int, limit: nat)
    requires lo <= hi + 1 && hi - lo + 1 <= limit
    ensures BatchOf(main, BatchRows(main, lo, hi, limit), lo, hi)
  {
    var rows := RowsInOrder(main, lo, hi);
    RangeHoldsFew(main, lo, hi);
    PrefixIsBatch(main, rows, ReadablePrefix(main, rows), lo, hi);
  }

  lemma PrefixIsBatch(main: map<int, Row>, rows: seq<int>, r: seq<int>, lo: int, hi: int)
    requires r <= rows && StrictlyAscending(rows)
    requires forall i :: 0 <= i < |rows| ==> rows[i] in main && lo <= rows[i] <= hi
    requires forall k :: k in main && lo <= k <= hi ==> k in rows
    requires forall i :: 0 <= i < |r| ==> Readable(main[rows[i]])
    requires |r| < |rows| ==> !Readable(main[rows[|r|]])
    ensures BatchOf(main, r, lo, hi)
  {
    var n := |r|;
    assert r == rows[..n];
    forall k | n > 0 && k in main && lo <= k <= rows[n - 1] ensures k in rows[..n] {
      PrefixHolds(rows, n, k);
    }
    forall k | k in main && lo <= k <= hi && ReadableIn(main, lo, k) ensures k in rows[..n] {
      var j :| 0 <= j < |rows| && rows[j] == k;
      PrefixReaches(main, rows, n, lo, j);
    }
  }

  lemma PrefixReaches(main: map<int, Row>, rows: seq<int>, n: nat, lo: int, j: nat)
    requires n <= |rows| && j < |rows| && StrictlyAscending(rows) && ReadableIn(main, lo, rows[j])
    requires n < |rows| ==> rows[n] in main && lo <= rows[n] && !Readable(main[rows[n]])
    ensures rows[j] in rows[..n]
  {
    assert n < |rows| ==> rows[j] < rows[n];
    assert rows[..n][j] == rows[j];
  }

  // A row that does not fit the buffers hides the rest of a batch it comes first in: the
  // batch looks empty, and the loop passes over all of it.
  lemma UnreadableHidesBatch(main: map<int, Row>, lo: int, hi: int, limit: nat, id: int)
    requires id in main && lo <= id <= hi && !Readable(main[id])
    requires forall k :: k in main ==> !(lo <= k < id)
    ensures BatchRows(main, lo, hi, limit) == []
  {
    var rows := RowsInOrder(main, lo, hi);
    assert id in rows;
    var i :| 0 <= i < |rows| && rows[i] == id;
    assert rows[0] <= rows[i];
    assert rows[0] == id;
  }

  // Rows other than id that were finished still are.
  ghost predicate OthersKept(c: Crypto, job: Job, t0: Tables, before: Tables, after: Tables, id: int) {
    forall k :: k in t0.main && k != id && Done(c, job, t0, before, k) ==> Done(c, job, t0, after, k)
  }

  // A row as getRecordsForRebuild delivers it; the version and the tags are not used.
  // None of the three statements, the first, or the first two.
  ghost predicate Unfinished(c: Crypto, job: Job, row: Row, id: int, before: Tables, after: Tables)
    requires Target(c, job, id, row)
  {
    after == before || after == BlindUpdated(c, job, before, id, row)
    || after == TokensDeleted(job, BlindUpdated(c, job, before, id, row), id)
  }

  datatype RawRecord = RawRecord(id: int, nameCipher: Bytes, phoneCipher: Bytes, addressCipher: Bytes) {
    function Get(f: Field): Bytes {
      match f case Name => nameCipher case Phone => phoneCipher case Address => addressCipher
    }
  }

  function Raw(id: int, row: Row): (r: RawRecord)
    ensures forall f: Field :: r.Get(f) == row.Get(f).cipher
  {
    RawRecord(id, row.name.cipher, row.phone.cipher, row.address.cipher)
  }

  function RawRecords(main: map<int, Row>, ids: seq<int>): seq<RawRecord>
    requires forall i :: 0 <= i < |ids| ==> ids[i] in main
  {
    seq(|ids|, i requires 0 <= i < |ids| => Raw(ids[i], main[ids[i]]))
  }

  class IndexRebuilder {
    const crypto: Crypto
    const db: Session
    const keyMgr: KeyManager
    const reliable: bool     // MySQL refuses no statement of a record
    const tracked: bool      // MySQL refuses no write of a task's row
    var budget: Option<nat>  // how many more writes reach the database before the crash; None: no crash
    var alive: bool          // the process has not died yet

    constructor (crypto: Crypto, db: Session, keyMgr: KeyManager, reliable: bool, tracked: bool, budget: Option<nat>)
      ensures this.crypto == crypto && this.db == db && this.keyMgr == keyMgr
      ensures this.reliable == reliable && this.tracked == tracked && this.budget == budget && alive
    {
      this.crypto, this.db, this.keyMgr, this.reliable, this.tracked := crypto, db, keyMgr, reliable, tracked;
      this.budget, alive := budget, true;
    }

    // Why something that began with the budget was stops: the process died, or else MySQL
    // refused a write of the task's row.
    ghost predicate Stops(stopped: bool, was: Option<nat>)
      reads this`budget, this`alive
    {
      && (was == None ==> budget == None && alive) && (!stopped ==> alive) && (stopped && alive ==> !tracked)
    }

    // Whether MySQL refuses the next statement; sure says that it does not.
    method Refused(sure: bool) returns (refused: bool)
      ensures sure ==> !refused
    {
      refused := *;
      if sure {
        refused := false;
      }
    }

    method Crash() returns (crashed: bool)
      requires alive
      modifies this`budget, this`alive
      ensures alive == !crashed && (old(budget) == None ==> alive && budget == None)
    {
      if budget.None? {
        return false;
      }
      if budget.value == 0 {
        alive := false;
        return true;
      }
      budget := Some(budget.value - 1);
      crashed := false;
    }

    // rec is the row as the batch query delivered it.
    method RebuildOneRecord(rec: RawRecord, code: int, encKey: Bytes, idxKey: Bytes, ghost t0: Tables, ghost job: Job)
      returns (ok: bool, crashed: bool)
      requires job.code == code && job.encKey == encKey && job.idxKey == idxKey && job.lo <= rec.id <= job.hi
      requires Between(crypto, job, t0, db.View()) && rec.id in t0.main && rec == Raw(rec.id, t0.main[rec.id])
      requires alive
      modifies this`budget, this`alive, db`main, db`inverted
      ensures alive == !crashed && (old(budget) == None ==> alive && budget == None)
      ensures Between(crypto, job, t0, db.View())
      ensures OthersKept(crypto, job, t0, old(db.View()), db.View(), rec.id)
      ensures !crashed && ok ==> Good(crypto, job, t0.main[rec.id]) && Done(crypto, job, t0, db.View(), rec.id)
      ensures !crashed && reliable ==>
        ok == Good(crypto, job, t0.main[rec.id]) && Done(crypto, job, t0, db.View(), rec.id)
      ensures !crashed && (ok || reliable) ==>
        && RowByCode(crypto, code, encKey, idxKey, t0.main[rec.id], db.main[rec.id])
        && TokensByCode(crypto, code, encKey, idxKey, t0.main[rec.id], rec.id, t0.inverted, db.inverted)
      ensures !crashed && reliable ==>
        (ok <==> CodeCipher(code, t0.main[rec.id]) == []
                 || Opened(crypto, CodeCipher(code, t0.main[rec.id]), encKey).Ok?)
    {
      GoodIff(crypto, job, t0.main[rec.id]);
      ok, crashed := DecryptAndRebuild(rec, code, encKey, idxKey, t0, job);
      if !crashed && (ok || reliable) {
        DoneByCode(crypto, job, t0, db.View(), rec.id);
      }
    }

    method DecryptAndRebuild(rec: RawRecord, code: int, encKey: Bytes, idxKey: Bytes, ghost t0: Tables, ghost job: Job)
      returns (ok: bool, crashed: bool)
      requires job.code == code && job.encKey == encKey && job.idxKey == idxKey && job.lo <= rec.id <= job.hi
      requires Between(crypto, job, t0, db.View()) && rec.id in t0.main && rec == Raw(rec.id, t0.main[rec.id])
      requires alive
      modifies this`budget, this`alive, db`main, db`inverted
      ensures alive == !crashed && (old(budget) == None ==> alive && budget == None)
      ensures Between(crypto, job, t0, db.View())
      ensures OthersKept(crypto, job, t0, old(db.View()), db.View(), rec.id)
      ensures !crashed && ok ==> Good(crypto, job, t0.main[rec.id]) && Done(crypto, job, t0, db.View(), rec.id)
      ensures !crashed && reliable ==>
        ok == Good(crypto, job, t0.main[rec.id]) && Done(crypto, job, t0, db.View(), rec.id)
    {
      crashed := false;
      var field := FieldOfCode(code);
      if field.None? || rec.Get(field.value) == [] {
        return true, false;
      }
      var f := field.value;
      var decrypted := Decrypt(crypto, rec.Get(f), encKey);
      if decrypted.Err? {
        return false, false;
      }
      var plaintext := decrypted.value;
      assert Text(crypto, job, t0.main[rec.id]) == Ok(Some(plaintext));
      var newBlind := HmacHex(crypto, plaintext, idxKey);
      var tokens := SplitBigrams(plaintext);
      var newTokenHashes := HashAllTokens(crypto, tokens, idxKey);
      assert Entries(newTokenHashes, rec.id, f) == NewTokens(crypto, job, rec.id, t0.main[rec.id]);
      ok, crashed := RunStatements(rec.id, f, newBlind, newTokenHashes, t0, job);
    }

    // One write: the program may die ahead of it, and MySQL may refuse it.
    method Attempted(sure: bool) returns (ok: bool, crashed: bool)
      requires alive
      modifies this`budget, this`alive
      ensures alive == !crashed && (old(budget) == None ==> alive && budget == None)
      ensures sure && !crashed ==> ok
      ensures crashed ==> !ok
    {
      crashed := Crash();
      if crashed {
        return false, true;
      }
      var refused := Refused(sure);
      ok := !refused;
    }

    // UPDATE the blind index, DELETE the field's tokens, INSERT the new ones.
    method RunStatements(id: int, f: Field, newBlind: Bytes, newTokenHashes: seq<Bytes>, ghost t0: Tables,
        ghost job: Job)
      returns (ok: bool, crashed: bool)
      requires Between(crypto, job, t0, db.View()) && id in t0.main && Target(crypto, job, id, t0.main[id])
      requires f == JobField(job) && newBlind == NewBlind(crypto, job, t0.main[id])
      requires Entries(newTokenHashes, id, f) == NewTokens(crypto, job, id, t0.main[id])
      requires alive
      modifies this`budget, this`alive, db`main, db`inverted
      ensures alive == !crashed && (old(budget) == None ==> alive && budget == None)
      ensures Between(crypto, job, t0, db.View())
      ensures OthersKept(crypto, job, t0, old(db.View()), db.View(), id)
      ensures reliable && !crashed ==> ok
      ensures ok ==> !crashed && db.View() == RowRebuilt(crypto, job, old(db.View()), id, t0.main[id])
      ensures ok ==> Done(crypto, job, t0, db.View(), id)
      ensures !ok ==> Unfinished(crypto, job, t0.main[id], id, old(db.View()), db.View())
    {
      ghost var before := db.View();
      RowIsDone(crypto, job, t0, before, id);
      ok, crashed := Attempted(reliable);
      if !ok {
        return;
      }
      BlindUpdateKeeps(crypto, job, t0, before, id);
      db.main := db.main[id := db.main[id].WithBlind(f, newBlind)];
      ghost var updated := db.View();
      assert updated == BlindUpdated(crypto, job, before, id, t0.main[id]);
      ok, crashed := Attempted(reliable);
      if !ok {
        return;
      }
      TokenDeleteKeeps(crypto, job, t0, updated, id);
      db.inverted := WithoutField(db.inverted, id, f);
      ghost var deleted := db.View();
      assert deleted == TokensDeleted(job, updated, id);
      if |newTokenHashes| > 0 {
        ok, crashed := Attempted(reliable);
        if !ok {
          return;
        }
        db.inverted := db.inverted + Entries(newTokenHashes, id, f);
      }
      TokenInsertKeeps(crypto, job, t0, deleted, id);
      assert db.View() == TokensInserted(crypto, job, deleted, id, t0.main[id]);
    }

    // updateRebuildTaskProgress: one UPDATE of the task's row.
    method UpdateProgress(taskId: int, last: int, success: int, fail: int, status: int) returns (stopped: bool)
      requires taskId in db.tasks
      requires alive
      modifies this`budget, this`alive, db`tasks, db`taskLog
      ensures Stops(stopped, old(budget))
      ensures stopped ==> db.tasks == old(db.tasks) && db.taskLog == old(db.taskLog)
      ensures !stopped ==>
        var row := old(db.tasks)[taskId].(last := last, success := success, fail := fail, status := status);
        db.tasks == old(db.tasks)[taskId := row] && db.taskLog == old(db.taskLog) + [row]
    {
      var ok, _ := Attempted(tracked);
      if !ok {
        return true;
      }
      stopped := false;
      var row := db.tasks[taskId].(last := last, success := success, fail := fail, status := status);
      db.tasks := db.tasks[taskId := row];
      db.taskLog := db.taskLog + [row];
    }

    // What holds in the database at every moment of an attempt that began with task first.
    ghost predicate Consistent(taskId: int, t0: Tables, job: Job, prior: seq<Task>, first: Task)
      reads this, db
    {
      && taskId in db.tasks && Resumable(crypto, job, t0, db.View(), reliable, db.tasks[taskId])
      && LogFrom(crypto, job, t0.main, reliable, db.taskLog, |prior|, first)
      && prior <= db.taskLog && db.tasks[taskId] == Latest(db.taskLog, |prior|, first)
    }

    // What the local variables of an attempt stand for.
    ghost predicate Local(t0: Tables, job: Job, currentId: int, success: int, fail: int)
      reads this, db
    {
      && DoneReach(crypto, job, t0, db.View(), reliable, currentId)
      && Tally(crypto, job, t0.main, reliable, success, fail, currentId)
    }

    // The running task's row holds the counters, and its mark is not ahead of the loop.
    ghost predicate Counted(taskId: int, currentId: int, success: int, fail: int)
      reads this, db
    {
      && taskId in db.tasks && db.tasks[taskId].status == 1
      && db.tasks[taskId].success == success && db.tasks[taskId].fail == fail
      && db.tasks[taskId].last <= (if currentId > 0 then currentId else 0)
    }

    // A progress write of the local variables keeps the database consistent.
    method Checkpoint(taskId: int, currentId: int, success: int, fail: int, status: int,
                      ghost t0: Tables, ghost job: Job, ghost prior: seq<Task>, ghost first: Task)
      returns (stopped: bool)
      requires Consistent(taskId, t0, job, prior, first) && Local(t0, job, currentId, success, fail)
      requires PositiveIds(t0.main) && job.lo - 1 <= currentId <= Limit(job)
      requires currentId > 0 ==> db.tasks[taskId].last <= currentId
      requires currentId <= 0 ==> job.hi <= 0
      requires status == 2 ==> currentId >= job.hi && fail == 0
      requires alive
      modifies this`budget, this`alive, db`tasks, db`taskLog
      ensures Stops(stopped, old(budget))
      ensures Consistent(taskId, t0, job, prior, first)
      ensures stopped ==> db.tasks == old(db.tasks)
      ensures !stopped ==>
        db.tasks[taskId] ==
          old(db.tasks)[taskId].(last := currentId, success := success, fail := fail, status := status)
      ensures !stopped ==> db.taskLog == old(db.taskLog) + [db.tasks[taskId]]
    {
      ghost var log, task := db.taskLog, db.tasks[taskId];
      stopped := UpdateProgress(taskId, currentId, success, fail, status);
      if stopped {
        return;
      }
      CheckpointIsResumable(crypto, job, t0, db.View(), reliable, task, currentId, success, fail, status);
      LogGrows(crypto, job, t0.main, reliable, log, |prior|, first, db.tasks[taskId]);
    }

    // One record rebuilt: the rows before it stay finished, the task's row stays truthful.
    method RebuildNext(taskId: int, rec: RawRecord, ghost previousId: int, encKey: Bytes, idxKey: Bytes,
                       ghost t0: Tables, ghost job: Job, ghost prior: seq<Task>, ghost first: Task)
      returns (ok: bool, crashed: bool)
      requires Consistent(taskId, t0, job, prior, first) && db.tasks[taskId].status != 2
      requires job.encKey == encKey && job.idxKey == idxKey
      requires job.lo <= rec.id <= job.hi && rec.id in t0.main && rec == Raw(rec.id, t0.main[rec.id])
      requires previousId < rec.id && Mark(db.tasks[taskId]) < rec.id
      requires alive
      modifies this`budget, this`alive, db`main, db`inverted
      ensures alive == !crashed && (old(budget) == None ==> alive && budget == None)
      ensures Consistent(taskId, t0, job, prior, first)
      ensures old(DoneReach(crypto, job, t0, db.View(), reliable, previousId)) ==>
        DoneReach(crypto, job, t0, db.View(), reliable, previousId)
      ensures !crashed && ok ==> Good(crypto, job, t0.main[rec.id])
      ensures !crashed && reliable ==>
        ok == Good(crypto, job, t0.main[rec.id]) && Done(crypto, job, t0, db.View(), rec.id)
    {
      ghost var before := db.View();
      ok, crashed := RebuildOneRecord(rec, db.tasks[taskId].fieldCode, encKey, idxKey, t0, job);
      OthersStayDone(crypto, job, t0, before, db.View(), reliable, rec.id, previousId);
      RunningStatus(crypto, job, t0, before, db.View(), reliable, rec.id, db.tasks[taskId]);
    }

    // Between two records of the loop: the local variables stand for the rows up to currentId,
    // and the mark is not ahead of it.
    ghost predicate Working(taskId: int, t0: Tables, job: Job, prior: seq<Task>, first: Task, currentId: int,
        success: int, fail: int)
      reads this, db
    {
      && Consistent(taskId, t0, job, prior, first) && Local(t0, job, currentId, success, fail)
      && db.tasks[taskId].status != 2 && db.tasks[taskId].last <= (if currentId > 0 then currentId else 0)
      && job.lo - 1 <= currentId
    }

    // Rebuild the row after previousId and count it.
    method CountRecord(taskId: int, rec: RawRecord, ghost previousId: int, success0: int, fail0: int,
                       encKey: Bytes, idxKey: Bytes,
                       ghost t0: Tables, ghost job: Job, ghost prior: seq<Task>, ghost first: Task)
      returns (success: int, fail: int, crashed: bool)
      requires Working(taskId, t0, job, prior, first, previousId, success0, fail0) && PositiveIds(t0.main)
      requires job.encKey == encKey && job.idxKey == idxKey && NextInTurn(t0.main, previousId, rec, job.hi)
      requires alive
      modifies this`budget, this`alive, db`main, db`inverted
      ensures alive == !crashed && (old(budget) == None ==> alive && budget == None)
      ensures if crashed then Consistent(taskId, t0, job, prior, first)
              else Working(taskId, t0, job, prior, first, rec.id, success, fail)
    {
      success, fail := success0, fail0;
      var ok;
      ok, crashed := RebuildNext(taskId, rec, previousId, encKey, idxKey, t0, job, prior, first);
      if crashed {
        return;
      }
      if ok {
        success := success + 1;
      } else {
        fail := fail + 1;
      }
      TallyNext(crypto, job, t0.main, reliable, success0, fail0, previousId, rec.id, ok);
      DoneNext(crypto, job, t0, db.View(), reliable, previousId, rec.id);
    }

    // The body of the record loop: rebuild the row after previousId, count it, write a checkpoint every ten.
    method ProcessRecord(taskId: int, rec: RawRecord, ghost previousId: int, success0: int, fail0: int,
                         encKey: Bytes, idxKey: Bytes,
                         ghost t0: Tables, ghost job: Job, ghost prior: seq<Task>, ghost first: Task)
      returns (success: int, fail: int, stopped: bool)
      requires Working(taskId, t0, job, prior, first, previousId, success0, fail0) && PositiveIds(t0.main)
      requires job.encKey == encKey && job.idxKey == idxKey && NextInTurn(t0.main, previousId, rec, job.hi)
      requires alive
      modifies this`budget, this`alive, db`main, db`inverted, db`tasks, db`taskLog
      ensures Stops(stopped, old(budget))
      ensures if stopped then Consistent(taskId, t0, job, prior, first)
              else Working(taskId, t0, job, prior, first, rec.id, success, fail)
      ensures !stopped && (success + fail) % 10 != 0 ==> db.tasks == old(db.tasks) && db.taskLog == old(db.taskLog)
      ensures !stopped && (success + fail) % 10 == 0 ==>
        && db.tasks[taskId] == old(db.tasks)[taskId].(last := rec.id, success := success, fail := fail, status := 1)
        && db.taskLog == old(db.taskLog) + [db.tasks[taskId]]
    {
      success, fail, stopped := CountRecord(taskId, rec, previousId, success0, fail0, encKey, idxKey,
                                            t0, job, prior, first);
      if !stopped && (success + fail) % 10 == 0 {
        stopped := Checkpoint(taskId, rec.id, success, fail, 1, t0, job, prior, first);
      }
    }

    // The loop over one batch.
    method RunBatch(taskId: int, records: seq<RawRecord>, start: int, success0: int, fail0: int,
                    encKey: Bytes, idxKey: Bytes,
                    ghost t0: Tables, ghost job: Job, ghost prior: seq<Task>, ghost first: Task)
      returns (currentId: int, success: int, fail: int, stopped: bool)
      requires Working(taskId, t0, job, prior, first, start, success0, fail0) && PositiveIds(t0.main)
      requires job.encKey == encKey && job.idxKey == idxKey && InTurn(t0.main, records, 0, start, job.hi)
      requires alive
      modifies this`budget, this`alive, db`main, db`inverted, db`tasks, db`taskLog
      ensures Stops(stopped, old(budget))
      ensures !stopped && records != [] ==> currentId == records[|records| - 1].id
      ensures if stopped then Consistent(taskId, t0, job, prior, first)
              else Working(taskId, t0, job, prior, first, currentId, success, fail)
    {
      currentId, success, fail, stopped := start, success0, fail0, false;
      for i := 0 to |records|
        invariant alive && (old(budget) == None ==> budget == None)
        invariant !stopped && (i > 0 ==> currentId == records[i - 1].id)
        invariant InTurn(t0.main, records, i, currentId, job.hi)
        invariant Working(taskId, t0, job, prior, first, currentId, success, fail)
      {
        var rec := records[i];
        RecordAt(t0.main, records, i, currentId, job.hi);
        success, fail, stopped := ProcessRecord(taskId, rec, currentId, success, fail, encKey, idxKey,
                                                t0, job, prior, first);
        currentId := rec.id;
        if stopped {
          return;
        }
      }
    }

    // A write that changes the status only.
    method SetStatus(taskId: int, status: int, ghost t0: Tables, ghost job: Job, ghost prior: seq<Task>,
        ghost first: Task)
      returns (stopped: bool)
      requires Consistent(taskId, t0, job, prior, first) && status != 2
      requires alive
      modifies this`budget, this`alive, db`tasks, db`taskLog
      ensures Stops(stopped, old(budget))
      ensures Consistent(taskId, t0, job, prior, first)
      ensures stopped ==> db.tasks == old(db.tasks)
      ensures !stopped ==> db.tasks[taskId] == old(db.tasks)[taskId].(status := status)
    {
      var task := db.tasks[taskId];
      ghost var log := db.taskLog;
      stopped := UpdateProgress(taskId, task.last, task.success, task.fail, status);
      if !stopped {
        LogGrows(crypto, job, t0.main, reliable, log, |prior|, first, db.tasks[taskId]);
      }
    }

    // Between two batches: the task's row is up to date but for rows that were passed over.
    ghost predicate AtCheckpoint(taskId: int, t0: Tables, job: Job, prior: seq<Task>, first: Task, currentId: int,
        success: int, fail: int)
      reads this, db
    {
      && Consistent(taskId, t0, job, prior, first) && Local(t0, job, currentId, success, fail)
      && Counted(taskId, currentId, success, fail) && job.lo - 1 <= currentId <= Limit(job)
      && (job.lo <= job.hi ==> currentId <= job.hi)
    }

    // A batch that delivered rows: rebuild them, write a checkpoint.
    method WorkBatch(taskId: int, records: seq<RawRecord>, start: int, success0: int, fail0: int,
                     encKey: Bytes, idxKey: Bytes, ghost ids: seq<int>, ghost batchEnd: int,
                     ghost t0: Tables, ghost job: Job, ghost prior: seq<Task>, ghost first: Task)
      returns (currentId: int, success: int, fail: int, stopped: bool)
      requires AtCheckpoint(taskId, t0, job, prior, first, start, success0, fail0) && PositiveIds(t0.main)
      requires job.encKey == encKey && job.idxKey == idxKey && start < batchEnd <= job.hi
      requires BatchOf(t0.main, ids, start + 1, batchEnd) && ids != [] && records == RawRecords(t0.main, ids)
      requires alive
      modifies this`budget, this`alive, db`main, db`inverted, db`tasks, db`taskLog
      ensures Stops(stopped, old(budget))
      ensures !stopped ==> start < currentId
      ensures if stopped then Consistent(taskId, t0, job, prior, first)
              else AtCheckpoint(taskId, t0, job, prior, first, currentId, success, fail)
      ensures Visits(t0, job, ids, start, if stopped then job.hi else currentId, !stopped)
      ensures !stopped ==> db.tasks[taskId].last == currentId
    {
      FullBatch(t0, job, ids, start, batchEnd);
      assert Working(taskId, t0, job, prior, first, start, success0, fail0);
      currentId, success, fail, stopped := RunBatch(taskId, records, start, success0, fail0, encKey, idxKey,
                                                    t0, job, prior, first);
      if !stopped {
        stopped := Checkpoint(taskId, currentId, success, fail, 1, t0, job, prior, first);
      }
    }

    // One turn of the batch loop: fetch and work; a batch without rows is passed over.
    method NextBatch(taskId: int, batchSize: int, endId: int, start: int, success0: int, fail0: int,
                     encKey: Bytes, idxKey: Bytes,
                     ghost t0: Tables, ghost job: Job, ghost prior: seq<Task>, ghost first: Task)
      returns (currentId: int, success: int, fail: int, stopped: bool, ghost ids: seq<int>)
      requires batchSize >= 1 && PositiveIds(t0.main)
      requires AtCheckpoint(taskId, t0, job, prior, first, start, success0, fail0)
      requires job.encKey == encKey && job.idxKey == idxKey && start < endId == job.hi
      requires alive
      modifies this`budget, this`alive, db`main, db`inverted, db`tasks, db`taskLog
      ensures Stops(stopped, old(budget))
      ensures !stopped ==> start < currentId
      ensures if stopped then Consistent(taskId, t0, job, prior, first)
              else AtCheckpoint(taskId, t0, job, prior, first, currentId, success, fail)
      ensures Visits(t0, job, ids, start, if stopped then job.hi else currentId, !stopped)
    {
      var batchStart := start + 1;
      var batchEnd := if batchStart + batchSize - 1 < endId then batchStart + batchSize - 1 else endId;
      var records;
      records, ids := FetchBatch(batchStart, batchEnd, batchSize, t0, job);
      if |records| == 0 {
        EmptyBatch(crypto, job, t0, db.View(), reliable, success0, fail0, start, batchEnd, ids);
        return batchEnd, success0, fail0, false, ids;
      }
      currentId, success, fail, stopped := WorkBatch(taskId, records, start, success0, fail0, encKey, idxKey,
                                                     ids, batchEnd, t0, job, prior, first);
    }

    // The batch loop, from the stored mark to the end of the range.
    method RunBatches(taskId: int, batchSize: int, encKey: Bytes, idxKey: Bytes,
                      ghost t0: Tables, ghost job: Job, ghost prior: seq<Task>, ghost first: Task,
                      ghost mark: int)
      returns (currentId: int, success: int, fail: int, stopped: bool, ghost visited: seq<int>)
      requires batchSize >= 1 && PositiveIds(t0.main)
      requires Consistent(taskId, t0, job, prior, first) && db.tasks[taskId].status == 1
      requires mark == Mark(db.tasks[taskId])
      requires job.encKey == encKey && job.idxKey == idxKey
      requires alive
      modifies this`budget, this`alive, db`main, db`inverted, db`tasks, db`taskLog
      ensures Stops(stopped, old(budget))
      ensures !stopped ==> currentId >= job.hi
      ensures if stopped then Consistent(taskId, t0, job, prior, first)
              else AtCheckpoint(taskId, t0, job, prior, first, currentId, success, fail)
      ensures Visits(t0, job, visited, mark, job.hi, !stopped)
    {
      var task := db.tasks[taskId];
      currentId := if task.last > 0 then task.last else task.startId - 1;
      success, fail, stopped, visited := task.success, task.fail, false, [];
      while currentId < task.endId
        invariant alive && (old(budget) == None ==> budget == None)
        invariant !stopped && mark <= currentId
        invariant AtCheckpoint(taskId, t0, job, prior, first, currentId, success, fail)
        invariant Visits(t0, job, visited, mark, currentId, true)
        decreases task.endId - currentId
      {
        ghost var ids;
        ghost var start := currentId;
        currentId, success, fail, stopped, ids := NextBatch(taskId, batchSize, task.endId, currentId, success, fail,
                                                            encKey, idxKey, t0, job, prior, first);
        VisitedAppend(t0, job, visited, ids, mark, start, if stopped then job.hi else currentId, !stopped);
        visited := visited + ids;
        if stopped {
          return;
        }
      }
      VisitsToEnd(t0, job, visited, mark, currentId);
    }

    // createRebuildTask: a pending task; its mark and counters take the column defaults.
    method CreateTask(taskId: int, fieldCode: int, startId: int, endId: int, ghost job: Job) returns (stopped: bool)
      requires taskId !in db.tasks
      requires fieldCode == job.code && startId == job.lo && endId == job.hi
      requires alive
      modifies this`budget, this`alive, db`tasks
      ensures Stops(stopped, old(budget))
      ensures if stopped then db.tasks == old(db.tasks) else
        && db.tasks == old(db.tasks)[taskId := Task(fieldCode, startId, endId, 0, 0, 0, 0)]
        && Consistent(taskId, db.View(), job, db.taskLog, db.tasks[taskId])
    {
      var ok, _ := Attempted(tracked);
      if !ok {
        return true;
      }
      stopped := false;
      db.tasks := db.tasks[taskId := Task(fieldCode, startId, endId, 0, 0, 0, 0)];
      FreshIsResumable(crypto, job, db.View(), reliable, db.tasks[taskId]);
    }

    predicate StatusTells(task: Task) {
      if task.fail == 0 then task.status == 2 else task.status == 3 || (!tracked && task.status == 1)
    }

    // The range is done: the rows up to the first that does not fit are finished, the counters
    // are worth what a tally is, and the status tells whether a row failed, unless the statement
    // that sets it then was refused. If all rows fit and no statement of a record was refused, the
    // rows are those of one pass.
    ghost predicate Finished(taskId: int, t0: Tables, job: Job, count: int)
      reads this, db
    {
      && taskId in db.tasks && count == db.tasks[taskId].success
      && StatusTells(db.tasks[taskId])
      && DoneReach(crypto, job, t0, db.View(), reliable, job.hi)
      && Tally(crypto, job, t0.main, reliable, db.tasks[taskId].success, db.tasks[taskId].fail, job.hi)
      && (reliable && ReadableIn(t0.main, job.lo, job.hi) ==>
          && db.View() == FullPass(crypto, job, t0)
          && RebuiltByCode(crypto, job.code, job.encKey, job.idxKey, job.lo, job.hi, t0, db.View()))
    }

    // The last write of an attempt.
    method Finish(taskId: int, currentId: int, success: int, fail: int,
                  ghost t0: Tables, ghost job: Job, ghost prior: seq<Task>, ghost first: Task)
      returns (stopped: bool)
      requires Consistent(taskId, t0, job, prior, first) && PositiveIds(t0.main)
      requires AtCheckpoint(taskId, t0, job, prior, first, currentId, success, fail) && currentId >= job.hi
      requires alive
      modifies this`budget, this`alive, db`tasks, db`taskLog
      ensures Stops(stopped, old(budget))
      ensures Consistent(taskId, t0, job, prior, first)
      ensures !stopped ==> Finished(taskId, t0, job, success)
    {
      if fail > 0 {
        stopped := MarkFailed(taskId, t0, job, prior, first);
      } else {
        stopped := Checkpoint(taskId, currentId, success, fail, 2, t0, job, prior, first);
      }
      if !stopped {
        AtEnd(taskId, currentId, success, fail, t0, job, prior, first);
      }
    }

    // Status 3 is set by a statement of its own, and a refusal is passed over.
    method MarkFailed(taskId: int, ghost t0: Tables, ghost job: Job, ghost prior: seq<Task>, ghost first: Task)
      returns (crashed: bool)
      requires Consistent(taskId, t0, job, prior, first)
      requires alive
      modifies this`budget, this`alive, db`tasks, db`taskLog
      ensures alive == !crashed && (old(budget) == None ==> alive && budget == None)
      ensures Consistent(taskId, t0, job, prior, first)
      ensures !crashed ==> db.tasks[taskId] == old(db.tasks)[taskId].(status := 3)
                           || (!tracked && db.tasks[taskId] == old(db.tasks)[taskId])
    {
      var _ := SetStatus(taskId, 3, t0, job, prior, first);
      crashed := !alive;
    }

    lemma AtEnd(taskId: int, currentId: int, success: int, fail: int, t0: Tables, job: Job, prior: seq<Task>,
        first: Task)
      requires Consistent(taskId, t0, job, prior, first) && Local(t0, job, currentId, success, fail)
      requires PositiveIds(t0.main) && job.hi <= currentId <= Limit(job) && job.lo - 1 <= currentId
      requires db.tasks[taskId].success == success && db.tasks[taskId].fail == fail
      requires StatusTells(db.tasks[taskId])
      ensures Finished(taskId, t0, job, success)
    {
      if currentId > job.hi {
        TallyEmpty(crypto, job, t0.main, reliable, success, fail, currentId, job.hi);
      }
      PassReached(t0, job);
    }

    lemma PassReached(t0: Tables, job: Job)
      requires Between(crypto, job, t0, db.View()) && DoneReach(crypto, job, t0, db.View(), reliable, job.hi)
      ensures reliable && ReadableIn(t0.main, job.lo, job.hi) ==>
        && db.View() == FullPass(crypto, job, t0)
        && RebuiltByCode(crypto, job.code, job.encKey, job.idxKey, job.lo, job.hi, t0, db.View())
    {
      ReachIsPass(crypto, job, t0, db.View(), reliable);
      PassByCode(crypto, job, t0);
    }

    // The job a task stands for, under the keys that are current when it runs.
    ghost predicate RunsAs(job: Job)
      reads keyMgr`state
    {
      && (CurrentKey(keyMgr.state.enc).Ok? ==> job.encKey == CurrentKey(keyMgr.state.enc).value)
      && (CurrentKey(keyMgr.state.idx).Ok? ==> job.idxKey == CurrentKey(keyMgr.state.idx).value)
    }

    predicate HasKeys()
      reads keyMgr`state
    {
      keyMgr.GetKey(Enc).Ok? && keyMgr.GetKey(Idx).Ok? && keyMgr.GetKey(Tag).Ok?
    }

    // Every type has a current key.
    ghost predicate AllKeys()
      reads keyMgr`state
    {
      forall t: KeyType :: CurrentKey(keyMgr.state.Get(t)).Ok?
    }

    lemma KeysAre()
      ensures HasKeys() <==> AllKeys()
    {
      var s := keyMgr.state;
      assert s.Get(Enc) == s.enc && s.Get(Idx) == s.idx && s.Get(Tag) == s.tag;
    }

    // The batches and the last write.
    method WorkThrough(taskId: int, batchSize: int, encKey: Bytes, idxKey: Bytes,
                       ghost t0: Tables, ghost job: Job, ghost prior: seq<Task>, ghost first: Task,
                      ghost mark: int)
      returns (success: int, stopped: bool, ghost visited: seq<int>)
      requires batchSize >= 1 && PositiveIds(t0.main)
      requires Consistent(taskId, t0, job, prior, first) && db.tasks[taskId].status == 1
      requires mark == Mark(db.tasks[taskId])
      requires job.encKey == encKey && job.idxKey == idxKey
      requires alive
      modifies this`budget, this`alive, db`main, db`inverted, db`tasks, db`taskLog
      ensures Stops(stopped, old(budget))
      ensures Consistent(taskId, t0, job, prior, first)
      ensures Visits(t0, job, visited, mark, job.hi, !stopped)
      ensures !stopped ==> Finished(taskId, t0, job, success)
    {
      var currentId, fail;
      currentId, success, fail, stopped, visited := RunBatches(taskId, batchSize, encKey, idxKey, t0, job, prior,
                                                              first, mark);
      if !stopped {
        stopped := Finish(taskId, currentId, success, fail, t0, job, prior, first);
      }
    }

    function Stopped(): Outcome
      reads this`alive
    {
      if alive then Threw(StatementRefused) else Crashed
    }

    // A known task throws when a key is missing or MySQL refuses a write of its progress.
    ghost predicate WhyThrown(error: Error)
      reads keyMgr`state
    {
      || (error == KeyVersionNotFound && exists t: KeyType :: CurrentKey(keyMgr.state.Get(t)).Err?)
      || (error == StatementRefused && !tracked)
    }

    // An attempt whose keys are there.
    method KeyedAttempt(taskId: int, batchSize: int, ghost t0: Tables, ghost job: Job, ghost prior: seq<Task>,
                        ghost first: Task, ghost mark: int)
      returns (outcome: Outcome, ghost visited: seq<int>)
      requires batchSize >= 1 && PositiveIds(t0.main) && RunsAs(job) && HasKeys()
      requires Consistent(taskId, t0, job, prior, first) && db.tasks[taskId].status == 1
      requires mark == Mark(db.tasks[taskId])
      requires alive
      modifies this`budget, this`alive, db`main, db`inverted, db`tasks, db`taskLog
      ensures alive == !outcome.Crashed? && (old(budget) == None ==> alive && budget == None)
      ensures Consistent(taskId, t0, job, prior, first)
      ensures outcome.Threw? ==> outcome.error == StatementRefused && !tracked
      ensures outcome.Returned? ==> Finished(taskId, t0, job, outcome.count)
      ensures Visits(t0, job, visited, mark, job.hi, outcome.Returned?)
    {
      var encKey, idxKey := keyMgr.GetKey(Enc).value, keyMgr.GetKey(Idx).value;
      var success, stopped;
      success, stopped, visited := WorkThrough(taskId, batchSize, encKey, idxKey, t0, job, prior, first, mark);
      outcome := if stopped then Stopped() else Returned(success);
    }

    // One attempt at an unfinished task, from marking it as running on.
    method Attempt(taskId: int, batchSize: int, ghost t0: Tables, ghost job: Job, ghost prior: seq<Task>,
        ghost first: Task, ghost mark: int)
      returns (outcome: Outcome, ghost visited: seq<int>)
      requires batchSize >= 1 && PositiveIds(t0.main) && RunsAs(job)
      requires Consistent(taskId, t0, job, prior, first) && db.tasks[taskId].status != 2
      requires mark == Mark(db.tasks[taskId])
      requires alive
      modifies this`budget, this`alive, db`main, db`inverted, db`tasks, db`taskLog
      ensures alive == !outcome.Crashed? && (old(budget) == None ==> alive && budget == None)
      ensures Consistent(taskId, t0, job, prior, first)
      ensures outcome.Threw? ==> WhyThrown(outcome.error)
      ensures outcome.Returned? ==> AllKeys() && Finished(taskId, t0, job, outcome.count)
      ensures Visits(t0, job, visited, mark, job.hi, outcome.Returned?)
    {
      visited := [];
      var stopped := SetStatus(taskId, 1, t0, job, prior, first);
      if stopped {
        return Stopped(), [];
      }
      KeysAre();
      if !HasKeys() {
        return Threw(KeyVersionNotFound), [];
      }
      outcome, visited := KeyedAttempt(taskId, batchSize, t0, job, prior, first, mark);
    }

    // runTask. t0 is the tables when the task was created; prior is the log at that time,
    // first the task's row.
    method RunTask(taskId: int, batchSize: int, ghost t0: Tables, ghost job: Job, ghost prior: seq<Task>,
        ghost first: Task)
      returns (outcome: Outcome, ghost visited: seq<int>)
      requires batchSize >= 1 && PositiveIds(t0.main) && RunsAs(job)
      requires taskId in db.tasks ==> Consistent(taskId, t0, job, prior, first)
      requires alive
      modifies this`budget, this`alive, db`main, db`inverted, db`tasks, db`taskLog
      ensures alive == !outcome.Crashed? && (old(budget) == None ==> alive && budget == None)
      ensures taskId !in old(db.tasks) ==>
        && outcome == Threw(TaskNotFound) && db.View() == old(db.View())
        && db.tasks == old(db.tasks) && db.taskLog == old(db.taskLog)
      ensures taskId in old(db.tasks) ==> Consistent(taskId, t0, job, prior, first)
      ensures taskId in old(db.tasks) && outcome.Threw? ==> WhyThrown(outcome.error)
      ensures taskId in old(db.tasks) && old(db.tasks)[taskId].status != 2 && outcome.Returned? ==> AllKeys()
      ensures outcome.Returned? ==> Finished(taskId, t0, job, outcome.count)
      ensures taskId in old(db.tasks) && old(db.tasks)[taskId].status == 2 ==>
        outcome.Returned? && db.View() == old(db.View()) && db.tasks == old(db.tasks)
      ensures taskId in old(db.tasks) ==> BatchVisited(t0, job, visited, Mark(old(db.tasks)[taskId]), job.hi)
      ensures taskId in old(db.tasks) && old(db.tasks)[taskId].status != 2 && outcome.Returned? ==>
        ((forall id :: id in t0.main && Mark(old(db.tasks)[taskId]) < id <= job.hi ==> id in visited) <==>
         ReadableIn(t0.main, Mark(old(db.tasks)[taskId]) + 1, job.hi))
    {
      if taskId !in db.tasks {
        return Threw(TaskNotFound), [];
      }
      var task := db.tasks[taskId];
      if task.status == 2 {
        PassReached(t0, job);
        return Returned(task.success), [];
      }
      outcome, visited := Attempt(taskId, batchSize, t0, job, prior, first, Mark(task));
      if outcome.Returned? {
        VisitsAllIff(t0, job, visited, Mark(task), job.hi);
      }
    }

    // A task created, attempted over and over with a crash before some write each time, and
    // at last left alone: what one uninterrupted pass leaves, with its counters. An attempt is
    // the number of its writes and its batch size; a refused progress write ends it as well.
    method RunToCompletion(taskId: int, fieldCode: int, startId: int, endId: int, attempts: seq<(nat, int)>,
                           batchSize: int, ghost job: Job)
      returns (outcome: Outcome)
      requires taskId !in db.tasks && PositiveIds(db.main) && RunsAs(job)
      requires batchSize >= 1 && forall i :: 0 <= i < |attempts| ==> attempts[i].1 >= 1
      requires fieldCode == job.code && startId == job.lo && endId == job.hi
      modifies this`budget, this`alive, db`main, db`inverted, db`tasks, db`taskLog
      ensures AllKeys() && tracked ==> outcome.Returned?
      ensures AllKeys() ==> outcome.Returned? || outcome == Threw(StatementRefused)
      ensures outcome.Returned? ==> Finished(taskId, old(db.View()), job, outcome.count)
      ensures taskId in db.tasks ==> old(db.taskLog) <= db.taskLog && Between(crypto, job, old(db.View()), db.View())
      ensures taskId !in db.tasks ==> !tracked && db.View() == old(db.View()) && db.taskLog == old(db.taskLog)
      ensures LogFrom(crypto, job, old(db.main), reliable, db.taskLog, |old(db.taskLog)|,
                      Task(fieldCode, startId, endId, 0, 0, 0, 0))
    {
      ghost var t0, prior := db.View(), db.taskLog;
      budget, alive := None, true;
      var stopped := CreateTask(taskId, fieldCode, startId, endId, job);
      if stopped {
        return Threw(StatementRefused);
      }
      ghost var first := db.tasks[taskId];
      ghost var visited;
      for i := 0 to |attempts|
        invariant Consistent(taskId, t0, job, prior, first)
      {
        budget, alive := Some(attempts[i].0), true;
        outcome, visited := RunTask(taskId, attempts[i].1, t0, job, prior, first);
      }
      budget, alive := None, true;
      outcome, visited := RunTask(taskId, batchSize, t0, job, prior, first);
    }

    // SELECT the rows of a batch, as far as the fetch loop gets.
    method FetchBatch(batchStart: int, batchEnd: int, batchSize: int, ghost t0: Tables, ghost job: Job)
      returns (records: seq<RawRecord>, ghost ids: seq<int>)
      requires Between(crypto, job, t0, db.View())
      requires batchStart <= batchEnd && batchEnd - batchStart + 1 <= batchSize
      ensures BatchOf(t0.main, ids, batchStart, batchEnd) && ids == BatchRows(t0.main, batchStart, batchEnd, batchSize)
      ensures records == RawRecords(t0.main, BatchRows(t0.main, batchStart, batchEnd, batchSize))
    {
      var main := db.main;
      var rows := BatchRows(main, batchStart, batchEnd, batchSize);
      ids := rows;
      BatchRowsAre(main, batchStart, batchEnd, batchSize);
      SameBatch(crypto, job, t0, db.View(), ids, batchStart, batchEnd);
      BatchRowsAre(t0.main, batchStart, batchEnd, batchSize);
      BatchUnique(t0.main, ids, BatchRows(t0.main, batchStart, batchEnd, batchSize), batchStart, batchEnd);
      records := RawRecords(main, rows);
    }
  }

  // Nothing a batch delivers is changed by the statements of the rebuild.
  lemma SameBatch(c: Crypto, job: Job, t0: Tables, t: Tables, ids: seq<int>, lo: int, hi: int)
    requires Between(c, job, t0, t) && BatchOf(t.main, ids, lo, hi)
    ensures BatchOf(t0.main, ids, lo, hi) && RawRecords(t0.main, ids) == RawRecords(t.main, ids)
  {
    forall id | id in t0.main ensures SameFetch(t0.main, t.main, id) {
      assert RowBetween(c, job, t0.main, t.main, id);
      RowBetweenSame(c, job, t0.main, t.main, id);
      SameCiphersReadable(t.main[id], t0.main[id]);
      SameRaw(id, t.main[id], t0.main[id]);
    }
    SameRowsSameBatch(t0.main, t.main, ids, lo, hi);
  }

  ghost predicate SameFetch(main0: map<int, Row>, main: map<int, Row>, id: int)
    requires id in main0
  {
    id in main && (Readable(main[id]) <==> Readable(main0[id])) && Raw(id, main[id]) == Raw(id, main0[id])
  }

  lemma SameRowsSameBatch(main0: map<int, Row>, main: map<int, Row>, ids: seq<int>, lo: int, hi: int)
    requires main.Keys == main0.Keys && forall id :: id in main0 ==> SameFetch(main0, main, id)
    requires BatchOf(main, ids, lo, hi)
    ensures BatchOf(main0, ids, lo, hi) && RawRecords(main0, ids) == RawRecords(main, ids)
  {
    forall k | k in main0 && lo <= k <= hi && ReadableIn(main0, lo, k) ensures k in ids {
      assert forall j :: j in main && lo <= j <= k ==> SameFetch(main0, main, j);
      assert ReadableIn(main, lo, k);
    }
    forall i | 0 <= i < |ids|
      ensures Readable(main0[ids[i]]) && Raw(ids[i], main0[ids[i]]) == Raw(ids[i], main[ids[i]])
    {
      assert SameFetch(main0, main, ids[i]);
    }
  }

  lemma SameRaw(id: int, a: Row, b: Row)
    requires forall f: Field :: a.Get(f).cipher == b.Get(f).cipher
    ensures Raw(id, a) == Raw(id, b)
  {
    assert a.Get(Name) == a.name && a.Get(Phone) == a.phone && a.Get(Address) == a.address;
    assert b.Get(Name) == b.name && b.Get(Phone) == b.phone && b.Get(Address) == b.address;
  }

  // A task nobody has worked on.
  lemma FreshIsResumable(c: Crypto, job: Job, t: Tables, sure: bool, task: Task)
    requires task == Task(job.code, job.lo, job.hi, 0, 0, 0, 0)
    ensures Resumable(c, job, t, t, sure, task)
  {
    assert forall id :: id in t.main ==> RowBetween(c, job, t.main, t.main, id);
    assert GoodIds(c, job, t.main, job.lo - 1) == {} == BadIds(c, job, t.main, job.lo - 1);
    assert RowsIn(t.main, job.lo, job.lo - 1) == {};
  }

  // A task whose row was brought up to date.
  lemma CheckpointIsResumable(c: Crypto, job: Job, t0: Tables, t: Tables, sure: bool, task: Task, currentId: int,
      success: int, fail: int, status: int)
    requires Resumable(c, job, t0, t, sure, task) && PositiveIds(t0.main) && job.lo - 1 <= currentId <= Limit(job)
    requires DoneReach(c, job, t0, t, sure, currentId) && Tally(c, job, t0.main, sure, success, fail, currentId)
    requires currentId <= 0 ==> job.hi <= 0
    requires status == 2 ==> currentId >= job.hi && fail == 0
    ensures Resumable(c, job, t0, t, sure,
                      task.(last := currentId, success := success, fail := fail, status := status))
  {
    if currentId <= 0 {
      TallyEmpty(c, job, t0.main, sure, success, fail, currentId, job.lo - 1);
    }
    if currentId > job.hi {
      TallyEmpty(c, job, t0.main, sure, success, fail, currentId, job.hi);
    }
  }

  // Where all rows fit and no statement of a record was refused, reaching the end is one pass.
  lemma ReachIsPass(c: Crypto, job: Job, t0: Tables, t: Tables, sure: bool)
    requires Between(c, job, t0, t) && DoneReach(c, job, t0, t, sure, job.hi)
    ensures sure && ReadableIn(t0.main, job.lo, job.hi) ==> t == FullPass(c, job, t0)
  {
    if sure && ReadableIn(t0.main, job.lo, job.hi) {
      forall id | id in t0.main && id <= job.hi ensures Done(c, job, t0, t, id) {
        assert ReadableIn(t0.main, job.lo, id);
      }
      FinishedIsFullPass(c, job, t0, t);
    }
  }

  // The rows a stretch of the loop has visited: each once, in ascending order, all readable.
  ghost predicate BatchVisited(t0: Tables, job: Job, visited: seq<int>, after: int, upTo: int) {
    && StrictlyAscending(visited)
    && forall i :: 0 <= i < |visited| ==>
      visited[i] in t0.main && Readable(t0.main[visited[i]]) && job.lo <= visited[i] <= job.hi
      && after < visited[i] <= upTo
  }

  // If every row of the stretch is readable, none was left out.
  ghost predicate NoneMissed(t0: Tables, visited: seq<int>, after: int, upTo: int) {
    ReadableIn(t0.main, after + 1, upTo) ==> forall id :: id in t0.main && after < id <= upTo ==> id in visited
  }

  ghost predicate Visits(t0: Tables, job: Job, visited: seq<int>, after: int, upTo: int, whole: bool) {
    BatchVisited(t0, job, visited, after, upTo) && (whole ==> NoneMissed(t0, visited, after, upTo))
  }

  lemma VisitedAppend(t0: Tables, job: Job, visited: seq<int>, ids: seq<int>, mark: int, start: int, upTo: int,
      whole: bool)
    requires Visits(t0, job, visited, mark, start, true) && Visits(t0, job, ids, start, upTo, whole)
    requires mark <= start <= upTo
    ensures Visits(t0, job, visited + ids, mark, upTo, whole)
  {
  }

  // At the end of the loop currentId is the end of the range, or the range is empty.
  lemma VisitsToEnd(t0: Tables, job: Job, visited: seq<int>, mark: int, currentId: int)
    requires Visits(t0, job, visited, mark, currentId, true) && currentId >= job.hi && mark >= job.lo - 1
    requires job.lo <= job.hi ==> currentId == job.hi
    ensures Visits(t0, job, visited, mark, job.hi, true)
  {
    forall i | 0 <= i < |visited| ensures visited[i] <= job.hi {
    }
  }

  // A stretch visits all its rows exactly when they are all readable.
  lemma VisitsAllIff(t0: Tables, job: Job, visited: seq<int>, after: int, upTo: int)
    requires Visits(t0, job, visited, after, upTo, true)
    ensures (forall id :: id in t0.main && after < id <= upTo ==> id in visited) <==>
      ReadableIn(t0.main, after + 1, upTo)
  {
  }

  // A batch that delivers nothing is passed over.
  lemma EmptyBatch(c: Crypto, job: Job, t0: Tables, t: Tables, sure: bool, success: int, fail: int, start: int,
      batchEnd: int, ids: seq<int>)
    requires BatchOf(t0.main, ids, start + 1, batchEnd) && ids == [] && job.lo - 1 <= start < batchEnd <= job.hi
    requires DoneReach(c, job, t0, t, sure, start) && Tally(c, job, t0.main, sure, success, fail, start)
    ensures Visits(t0, job, ids, start, batchEnd, true)
    ensures DoneReach(c, job, t0, t, sure, batchEnd) && Tally(c, job, t0.main, sure, success, fail, batchEnd)
  {
    forall id | id in t0.main && start < id <= batchEnd ensures !ReadableIn(t0.main, job.lo, id) {
      EmptyMeansBlocked(t0.main, job.lo, start, batchEnd, ids, id);
    }
    TallySkip(c, job, t0.main, sure, success, fail, start, batchEnd);
  }

  lemma EmptyMeansBlocked(main: map<int, Row>, lo: int, start: int, batchEnd: int, ids: seq<int>, id: int)
    requires BatchOf(main, ids, start + 1, batchEnd) && ids == [] && lo - 1 <= start
    requires id in main && start < id <= batchEnd
    ensures !ReadableIn(main, lo, id) && !ReadableIn(main, lo, batchEnd)
  {
    assert id !in ids;
    assert !ReadableIn(main, start + 1, id);
  }

  // A batch that delivers rows ends with its greatest one and leaves out none before it.
  lemma FullBatch(t0: Tables, job: Job, ids: seq<int>, start: int, batchEnd: int)
    requires BatchOf(t0.main, ids, start + 1, batchEnd) && ids != [] && job.lo - 1 <= start < batchEnd <= job.hi
    ensures
      var records := RawRecords(t0.main, ids);
      && start < LastId(records, start) <= job.hi && LastId(records, start) in t0.main
      && InTurn(t0.main, records, 0, start, job.hi)
      && Visits(t0, job, ids, start, LastId(records, start), true) && Visits(t0, job, ids, start, job.hi, false)
  {
    BatchInTurn(t0.main, ids, start, batchEnd);
    InTurnUpTo(t0.main, RawRecords(t0.main, ids), 0, start, batchEnd, job.hi);
    assert LastId(RawRecords(t0.main, ids), start) == ids[|ids| - 1];
    BatchVisits(t0, job, ids, start, batchEnd);
  }

  lemma BatchVisits(t0: Tables, job: Job, ids: seq<int>, start: int, batchEnd: int)
    requires BatchOf(t0.main, ids, start + 1, batchEnd) && ids != [] && job.lo - 1 <= start < batchEnd <= job.hi
    ensures Visits(t0, job, ids, start, ids[|ids| - 1], true) && Visits(t0, job, ids, start, job.hi, false)
  {
  }

  lemma DoneNext(c: Crypto, job: Job, t0: Tables, t: Tables, sure: bool, previousId: int, id: int)
    requires DoneReach(c, job, t0, t, sure, previousId) && id in t0.main && (sure ==> Done(c, job, t0, t, id))
    requires forall k :: k in t0.main ==> !(previousId < k < id)
    ensures DoneReach(c, job, t0, t, sure, id)
  {
  }

  // An unfinished task's row stays truthful while a row beyond its mark is rebuilt.
  lemma RunningStatus(c: Crypto, job: Job, t0: Tables, before: Tables, after: Tables, sure: bool, id: int, task: Task)
    requires Resumable(c, job, t0, before, sure, task) && Between(c, job, t0, after) && Mark(task) < id <= job.hi
    requires OthersKept(c, job, t0, before, after, id)
    requires task.status != 2
    ensures Resumable(c, job, t0, after, sure, task)
  {
    OthersStayDone(c, job, t0, before, after, sure, id, Mark(task));
  }

  // Rows up to an id before the one being rebuilt stay finished.
  lemma OthersStayDone(c: Crypto, job: Job, t0: Tables, before: Tables, after: Tables, sure: bool, id: int, upTo: int)
    requires upTo < id
    requires OthersKept(c, job, t0, before, after, id)
    ensures DoneReach(c, job, t0, before, sure, upTo) ==> DoneReach(c, job, t0, after, sure, upTo)
  {
  }

  function LastId(records: seq<RawRecord>, start: int): int {
    if records == [] then start else records[|records| - 1].id
  }

  // The records of a batch from number i on, in turn: each is a row that fits, and nothing lies
  // between it and the one before.
  ghost predicate InTurn(main: map<int, Row>, records: seq<RawRecord>, i: nat, previousId: int, batchEnd: int)
    decreases |records| - i
  {
    i >= |records| ||
    (NextInTurn(main, previousId, records[i], batchEnd) && InTurn(main, records, i + 1, records[i].id, batchEnd))
  }

  ghost predicate NextInTurn(main: map<int, Row>, previousId: int, rec: RawRecord, batchEnd: int) {
    && previousId < rec.id <= batchEnd && rec.id in main && rec == Raw(rec.id, main[rec.id])
    && Readable(main[rec.id]) && forall k :: k in main ==> !(previousId < k < rec.id)
  }

  lemma RecordAt(main: map<int, Row>, records: seq<RawRecord>, i: nat, previousId: int, batchEnd: int)
    requires i < |records| && InTurn(main, records, i, previousId, batchEnd)
    ensures NextInTurn(main, previousId, records[i], batchEnd)
    ensures InTurn(main, records, i + 1, records[i].id, batchEnd)
  {
  }

  // What a batch query delivers is in turn.
  lemma BatchInTurn(main: map<int, Row>, ids: seq<int>, start: int, batchEnd: int)
    requires BatchOf(main, ids, start + 1, batchEnd)
    ensures InTurn(main, RawRecords(main, ids), 0, start, batchEnd)
  {
    var records := RawRecords(main, ids);
    forall i | 0 <= i < |records| ensures TurnAt(main, records, start, batchEnd, i) {
      OneInTurn(main, ids, i, start, batchEnd);
    }
    EachInTurn(main, records, 0, start, batchEnd);
  }

  ghost predicate TurnAt(main: map<int, Row>, records: seq<RawRecord>, start: int, batchEnd: int, i: nat)
    requires i < |records|
  {
    NextInTurn(main, if i == 0 then start else records[i - 1].id, records[i], batchEnd)
  }

  lemma {:induction false} EachInTurn(main: map<int, Row>, records: seq<RawRecord>, i: nat, start: int, batchEnd: int)
    requires i <= |records| && forall j :: 0 <= j < |records| ==> TurnAt(main, records, start, batchEnd, j)
    ensures InTurn(main, records, i, if i == 0 then start else records[i - 1].id, batchEnd)
    decreases |records| - i
  {
    if i < |records| {
      EachInTurn(main, records, i + 1, start, batchEnd);
      assert TurnAt(main, records, start, batchEnd, i);
    }
  }

  lemma OneInTurn(main: map<int, Row>, ids: seq<int>, i: nat, start: int, batchEnd: int)
    requires BatchOf(main, ids, start + 1, batchEnd) && i < |ids|
    ensures TurnAt(main, RawRecords(main, ids), start, batchEnd, i)
  {
    forall k | k in main && (if i == 0 then start else ids[i - 1]) < k ensures ids[i] <= k {
      NoRowBetween(main, ids, start, batchEnd, i, k);
    }
  }

  lemma {:induction false} InTurnUpTo(main: map<int, Row>, records: seq<RawRecord>, i: nat, previousId: int,
      batchEnd: int, hi: int)
    requires InTurn(main, records, i, previousId, batchEnd) && batchEnd <= hi
    ensures InTurn(main, records, i, previousId, hi)
    decreases |records| - i
  {
    if i < |records| {
      InTurnUpTo(main, records, i + 1, records[i].id, batchEnd, hi);
    }
  }

  lemma NoRowBetween(main: map<int, Row>, ids: seq<int>, start: int, batchEnd: int, i: nat, id: int)
    requires BatchOf(main, ids, start + 1, batchEnd) && i < |ids| && id in main
    requires (if i == 0 then start else ids[i - 1]) < id
    ensures ids[i] <= id
  {
    assert i > 0 ==> start < ids[i - 1];
    if id <= ids[|ids| - 1] {
      assert id in ids;
      var k :| 0 <= k < |ids| && ids[k] == id;
    }
  }

  lemma LogGrows(c: Crypto, job: Job, main: map<int, Row>, sure: bool, log: seq<Task>, from: nat, first: Task,
      row: Task)
    requires LogFrom(c, job, main, sure, log, from, first) && Truth(c, job, main, sure, row)
    requires job.hi > 0 ==> Latest(log, from, first).last <= row.last
    ensures LogFrom(c, job, main, sure, log + [row], from, first) && Latest(log + [row], from, first) == row
  {
    var longer := log + [row];
    forall k | from <= k < |longer|
      ensures Truth(c, job, main, sure, longer[k])
      ensures (job.hi > 0 ==> Preceding(longer, from, first, k).last <= longer[k].last)
    {
      assert Preceding(longer, from, first, k) == Preceding(log, from, first, k);
      assert longer[k] == if k < |log| then log[k] else row;
    }
  }

  // Checkpoint truth: at every progress write the counters add up to the rows of the range up to
  // the mark exactly when these all fit the buffers; otherwise they count too few.
  lemma CheckpointTruth(c: Crypto, job: Job, main: map<int, Row>, sure: bool, log: seq<Task>, from: nat, first: Task,
      k: nat)
    requires LogFrom(c, job, main, sure, log, from, first) && from <= k < |log|
    ensures
      var rows := RowsIn(main, job.lo, Mark(log[k]));
      && log[k].success + log[k].fail <= |rows|
      && (log[k].success + log[k].fail == |rows| <==> ReadableIn(main, job.lo, Mark(log[k])))
  {
    assert Truth(c, job, main, sure, log[k]);
    TallyIff(c, job, main, sure, log[k].success, log[k].fail, Mark(log[k]));
  }

  // The mark never goes back, over all attempts.
  lemma {:induction false} MarkNeverGoesBack(c: Crypto, job: Job, main: map<int, Row>, sure: bool, log: seq<Task>,
      from: nat, first: Task, j: nat, k: nat)
    requires LogFrom(c, job, main, sure, log, from, first) && job.hi > 0 && from <= j <= k < |log|
    ensures log[j].last <= log[k].last
    decreases k - j
  {
    if j < k {
      MarkNeverGoesBack(c, job, main, sure, log, from, first, j, k - 1);
      assert Preceding(log, from, first, k) == log[k - 1];
    }
  }

  // Below the first id, and below the range, there is nothing to count.
  lemma TallyEmpty(c: Crypto, job: Job, main: map<int, Row>, sure: bool, success: int, fail: int, a: int, b: int)
    requires PositiveIds(main) && (a <= 0 || a < job.lo) && (b <= 0 || b < job.lo)
    ensures Tally(c, job, main, sure, success, fail, a) <==> Tally(c, job, main, sure, success, fail, b)
  {
    assert GoodIds(c, job, main, a) == {} == GoodIds(c, job, main, b);
    assert BadIds(c, job, main, a) == {} == BadIds(c, job, main, b);
    assert FittingIds(main, job.lo, a) == {} == FittingIds(main, job.lo, b);
    assert RowsIn(main, job.lo, a) == {} == RowsIn(main, job.lo, b);
  }
}
