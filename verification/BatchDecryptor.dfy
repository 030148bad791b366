/** The batch decryptor: every atomic section of its threads as a method, run under an arbitrary schedule. */
module BatchDecryptor {
  import opened Common
  import opened Ordering
  import opened Sm4
  import opened Tables
  import opened Keys
  import opened Dao
  import opened Pipeline

  datatype DecryptResult = DecryptResult(id: int, plaintext: Bytes, success: bool, error: Option<Error>,
      keyVersion: int)

  function Success(rec: CipherRecord, plain: Bytes): DecryptResult {
    DecryptResult(rec.id, plain, true, None, rec.encVersion)
  }

  function Failure(rec: CipherRecord, e: Error): DecryptResult {
    DecryptResult(rec.id, [], false, Some(e), rec.encVersion)
  }

  // The tag key is looked up under the row's encryption version.
  function DecryptOne(c: Crypto, keys: KeyState, rec: CipherRecord): DecryptResult {
    match KeyByVersion(keys.tag, rec.encVersion)
    case None => Failure(rec, KeyVersionNotFound)
    case Some(tagKey) =>
      if HmacHex(c, rec.cipher, tagKey) != rec.tag then Failure(rec, TagMismatch)
      else match KeyByVersion(keys.enc, rec.encVersion)
        case None => Failure(rec, KeyVersionNotFound)
        case Some(encKey) =>
          match Opened(c, rec.cipher, encKey)
          case Ok(plain) => Success(rec, plain)
          case Err(e) => Failure(rec, e)
  }

  // A record whose tag key and encryption key are known, whose tag verifies and whose ciphertext
  // opens; and what the result of a record says.
  ghost predicate Decrypts(c: Crypto, keys: KeyState, rec: CipherRecord) {
    && rec.encVersion in keys.tag.infos && HmacHex(c, rec.cipher, keys.tag.infos[rec.encVersion].key) == rec.tag
    && rec.encVersion in keys.enc.infos && Opened(c, rec.cipher, keys.enc.infos[rec.encVersion].key).Ok?
  }

  ghost predicate OutcomeOf(c: Crypto, keys: KeyState, rec: CipherRecord, d: DecryptResult) {
    var v := rec.encVersion;
    && d.id == rec.id && d.keyVersion == rec.encVersion && (d.success <==> Decrypts(c, keys, rec))
    && (d.success ==> d.error == None && Opened(c, rec.cipher, keys.enc.infos[v].key) == Ok(d.plaintext))
    && (!d.success ==> d.plaintext == [] && d.error.Some?)
    && (v !in keys.tag.infos ==> d.error == Some(KeyVersionNotFound))
    && (v in keys.tag.infos ==>
        if HmacHex(c, rec.cipher, keys.tag.infos[v].key) != rec.tag then d.error == Some(TagMismatch)
        else if v !in keys.enc.infos then d.error == Some(KeyVersionNotFound)
        else var plain := Opened(c, rec.cipher, keys.enc.infos[v].key);
             plain.Err? ==> d.error == Some(plain.error))
  }

  lemma DecryptOneIs(c: Crypto, keys: KeyState, rec: CipherRecord)
    ensures OutcomeOf(c, keys, rec, DecryptOne(c, keys, rec))
  {
  }

  ghost predicate OutcomesOf(c: Crypto, keys: KeyState, input: seq<CipherRecord>, r: seq<DecryptResult>) {
    |r| == |input| && forall i :: 0 <= i < |input| ==> OutcomeOf(c, keys, input[i], r[i])
  }

  lemma DecryptAllIs(c: Crypto, keys: KeyState, input: seq<CipherRecord>)
    ensures OutcomesOf(c, keys, input, DecryptAll(c, keys, input))
  {
    forall i | 0 <= i < |input| ensures OutcomeOf(c, keys, input[i], DecryptAll(c, keys, input)[i]) {
      DecryptOneIs(c, keys, input[i]);
    }
  }

  function Decryption(c: Crypto, keys: KeyState): CipherRecord -> DecryptResult {
    (rec: CipherRecord) => DecryptOne(c, keys, rec)
  }

  function DecryptAll(c: Crypto, keys: KeyState, input: seq<CipherRecord>): seq<DecryptResult> {
    seq(|input|, i requires 0 <= i < |input| => DecryptOne(c, keys, input[i]))
  }

  type DecryptState = State<CipherRecord, DecryptResult>
  type DecryptConfig = Config<CipherRecord, DecryptResult>

  class BatchDecryptor {
    const crypto: Crypto
    const keyMgr: KeyManager
    const queueCapacity: nat
    var records: seq<CipherRecord>
    var caller: Caller
    var submitted: nat
    var taskQueue: seq<Task<CipherRecord>>
    var workers: seq<Worker<CipherRecord>>
    var resultQueue: seq<Item<DecryptResult>>
    var results: seq<Option<DecryptResult>>
    var finished: nat

    constructor (crypto: Crypto, keyMgr: KeyManager, workerCount: nat, queueCapacity: nat)
      ensures this.crypto == crypto && this.keyMgr == keyMgr && this.queueCapacity == queueCapacity
      ensures |workers| == if workerCount == 0 then 4 else workerCount
      ensures Quiet()
    {
      this.crypto, this.keyMgr, this.queueCapacity := crypto, keyMgr, queueCapacity;
      records, caller, submitted, taskQueue, resultQueue, results, finished := [], Returned, 0, [], [], [], 0;
      workers := seq(if workerCount == 0 then 4 else workerCount, _ => Idle);
    }

    ghost function View(): DecryptState
      reads this
    {
      State(caller, submitted, taskQueue, workers, resultQueue, results, finished)
    }

    ghost function Setup(): DecryptConfig
      reads this, keyMgr
    {
      Config(records, queueCapacity, Decryption(crypto, keyMgr.state))
    }

    // Between two calls: both queues empty, no task in a worker.
    ghost predicate Quiet()
      reads this
    {
      taskQueue == [] && resultQueue == [] && forall k :: 0 <= k < |workers| ==> !workers[k].Busy?
    }

    method DecryptOneRecord(rec: CipherRecord) returns (r: DecryptResult)
      ensures r == DecryptOne(crypto, keyMgr.state, rec) && OutcomeOf(crypto, keyMgr.state, rec, r)
    {
      DecryptOneIs(crypto, keyMgr.state, rec);
      var tagKey := keyMgr.GetKeyByVersion(Database.Tag, rec.encVersion);
      if tagKey.None? {
        return Failure(rec, KeyVersionNotFound);
      }
      var calcTag := HmacHex(crypto, rec.cipher, tagKey.value);
      if calcTag != rec.tag {
        return Failure(rec, TagMismatch);
      }
      var encKey := keyMgr.GetKeyByVersion(Database.Enc, rec.encVersion);
      if encKey.None? {
        return Failure(rec, KeyVersionNotFound);
      }
      var plain := Decrypt(crypto, rec.cipher, encKey.value);
      r := match plain case Ok(p) => Success(rec, p) case Err(e) => Failure(rec, e);
    }

    // One critical section of pushTask: wait for space, or push and notify one worker.
    method PushTask() returns (ghost step: Step)
      requires caller.Submitting? && submitted < |records|
      modifies this
      ensures records == old(records) && !Spurious(step)
      ensures Enabled(Setup(), old(View()), step) && View() == Apply(Setup(), old(View()), step)
    {
      if |taskQueue| >= queueCapacity {
        caller := AsleepFull;
        return SleepFull;
      }
      taskQueue := taskQueue + [Task(submitted, records[submitted])];
      submitted := submitted + 1;
      caller := if submitted < |records| then Submitting else Collecting;
      if exists k: nat :: k < |workers| && workers[k].Asleep? {
        var k: nat :| k < |workers| && workers[k].Asleep?;
        workers := workers[k := Idle];
        return Submit(Some(k));
      }
      return Submit(None);
    }

    // One section of workerLoop, by the state the worker is in.
    method WorkerTurn(w: nat) returns (ghost step: Step)
      requires w < |workers| && !workers[w].Asleep?
      modifies this
      ensures records == old(records) && !Spurious(step)
      ensures Enabled(Setup(), old(View()), step) && View() == Apply(Setup(), old(View()), step)
    {
      match workers[w]
      case Idle =>
        if |taskQueue| == 0 {
          workers := workers[w := Asleep];
          return SleepTask(w);
        }
        workers := workers[w := Busy(taskQueue[0])];
        taskQueue := taskQueue[1..];
        if caller.AsleepFull? {
          caller := Submitting;
        }
        return Take(w);
      case Busy(task) =>
        var result := DecryptOneRecord(task.record);
        resultQueue := resultQueue + [Item(task.index, result)];
        workers := workers[w := Notifying];
        return Finish(w);
      case Notifying =>
        workers := workers[w := Idle];
        if caller.AsleepEmpty? {
          caller := Collecting;
        }
        return Notify(w);
    }

    // One turn of collectResults: wait for a result, or pop it and store it.
    method CollectResult() returns (ghost step: Step)
      requires caller.Collecting?
      requires |resultQueue| > 0 ==> resultQueue[0].index < |results|
      modifies this
      ensures records == old(records) && !Spurious(step)
      ensures Enabled(Setup(), old(View()), step) && View() == Apply(Setup(), old(View()), step)
    {
      if |resultQueue| == 0 {
        caller := AsleepEmpty;
        return SleepEmpty;
      }
      var item := resultQueue[0];
      resultQueue := resultQueue[1..];
      results := results[item.index := Some(item.result)];
      finished := finished + 1;
      caller := if finished < |records| then Collecting else Returned;
      return Collect;
    }

    method RunThread(t: nat) returns (ghost step: Step)
      requires Inv(Setup(), View()) && Runnable(caller, workers, t)
      modifies this
      ensures records == old(records) && !Spurious(step)
      ensures Enabled(Setup(), old(View()), step) && View() == Apply(Setup(), old(View()), step)
    {
      if t > 0 {
        step := WorkerTurn(t - 1);
      } else if caller.Submitting? {
        step := PushTask();
      } else {
        step := CollectResult();
      }
    }

    // Some thread that is not asleep runs its next section; which one is left open.
    method OneTurn()
      requires Inv(Setup(), View()) && !caller.Returned? && queueCapacity > 0
      modifies this
      ensures records == old(records) && |workers| == old(|workers|)
      ensures Inv(Setup(), View()) && Rank(Setup(), View()) < Rank(Setup(), old(View()))
    {
      ghost var config, before := Setup(), View();
      ghost var possible := NoDeadlock(config, before);
      assert Runnable(caller, workers, ThreadOf(possible));
      var t: nat :| t <= |workers| && Runnable(caller, workers, t);
      ghost var step := RunThread(t);
      StepKeepsInv(config, before, step);
      RankDecreases(config, before, step);
    }

    // Whatever thread runs next, the call ends with the outcome of every record in its place.
    method DecryptRecords(input: seq<CipherRecord>) returns (r: seq<DecryptResult>)
      requires Quiet() && |workers| > 0 && queueCapacity > 0
      modifies this
      ensures Quiet() && |workers| == old(|workers|)
      ensures r == DecryptAll(crypto, keyMgr.state, input) && OutcomesOf(crypto, keyMgr.state, input, r)
    {
      DecryptAllIs(crypto, keyMgr.state, input);
      if |input| == 0 {
        return [];
      }
      records := input;
      caller, submitted, finished := Submitting, 0, 0;
      results := seq(|input|, _ => None);
      InitInv(Setup(), View());
      while !caller.Returned?
        invariant records == input && |workers| == old(|workers|)
        invariant Inv(Setup(), View())
        decreases Rank(Setup(), View())
      {
        OneTurn();
      }
      ReturnedIsComplete(Setup(), View());
      var done := results;
      assert forall i :: 0 <= i < |input| ==> done[i] == Some(DecryptOne(crypto, keyMgr.state, input[i]));
      r := seq(|input|, i requires 0 <= i < |input| => done[i].value);
    }

    // decryptBatch: read the rows IO_BATCH at a time, submit all their records, collect.
    // Submitting is a step of the pipeline at any time, so reading is done first here.
    method DecryptBatch(dao: DAO, ids: seq<int>) returns (r: seq<DecryptResult>)
      requires Quiet() && |workers| > 0 && queueCapacity > 0
      modifies this
      ensures Quiet()
      ensures r == DecryptAll(crypto, keyMgr.state, InBatches(dao.conn.main, ids, IO_BATCH))
      ensures OutcomesOf(crypto, keyMgr.state, InBatches(dao.conn.main, ids, IO_BATCH), r)
    {
      var all := ReadBatches(dao, ids);
      r := DecryptRecords(all);
    }
  }

  method ReadBatches(dao: DAO, ids: seq<int>) returns (all: seq<CipherRecord>)
    ensures all == InBatches(dao.conn.main, ids, IO_BATCH)
  {
    ghost var main := dao.conn.main;
    all := [];
    var offset := 0;
    while offset < |ids|
      invariant 0 <= offset <= |ids|
      invariant InBatches(main, ids, IO_BATCH) == all + InBatches(main, ids[offset..], IO_BATCH)
      decreases |ids| - offset
    {
      var end := if offset + IO_BATCH < |ids| then offset + IO_BATCH else |ids|;
      var batchRecords := dao.BatchSelectCiphers(IdSet(ids[offset..end]));
      InBatchesNext(main, ids, offset, IO_BATCH);
      AppendNext(all, batchRecords, InBatches(main, ids[end..], IO_BATCH));
      all := all + batchRecords;
      offset := end;
    }
  }

  // Up to 32768 ids are read in one batch; of more, as many are.
  lemma BatchesAre(main: map<int, Row>, ids: seq<int>)
    ensures |ids| <= 32768 ==>
      var present := Present(main, set id | id in ids);
      RecordsAre(main, ReadablePrefix(main, present), InBatches(main, ids, IO_BATCH))
    ensures |ids| > 32768 ==>
      InBatches(main, ids, IO_BATCH)
        == InBatches(main, ids[..32768], IO_BATCH) + InBatches(main, ids[32768..], IO_BATCH)
  {
    if |ids| > 32768 {
      OneBatch(main, ids[..32768]);
    } else {
      OneBatch(main, ids);
      RecordsOfAre(main, ReadablePrefix(main, Present(main, IdSet(ids))));
    }
  }

  lemma OneBatch(main: map<int, Row>, ids: seq<int>)
    requires |ids| <= IO_BATCH
    ensures InBatches(main, ids, IO_BATCH) == SelectCiphers(main, IdSet(ids))
  {
    assert ids[..|ids|] == ids && ids[|ids|..] == [];
    if ids == [] {
      assert Present(main, IdSet(ids)) == [];
    }
  }

  lemma AppendNext(a: seq<CipherRecord>, b: seq<CipherRecord>, c: seq<CipherRecord>)
    ensures a + (b + c) == (a + b) + c
  {
  }

  const IO_BATCH := 32768

  function IdSet(ids: seq<int>): set<int> {
    set id | id in ids
  }

  // What batchSelectCiphers delivers.
  function SelectCiphers(main: map<int, Row>, ids: set<int>): seq<CipherRecord> {
    RecordsOf(main, ReadablePrefix(main, Present(main, ids)))
  }

  function BatchEnd(ids: seq<int>, size: nat): nat {
    if size < |ids| then size else |ids|
  }

  function InBatches(main: map<int, Row>, ids: seq<int>, size: nat): seq<CipherRecord>
    requires size > 0
    decreases |ids|
  {
    if ids == [] then [] else
      SelectCiphers(main, IdSet(ids[..BatchEnd(ids, size)])) + InBatches(main, ids[BatchEnd(ids, size)..], size)
  }

  lemma InBatchesNext(main: map<int, Row>, ids: seq<int>, offset: nat, size: nat)
    requires size > 0 && offset < |ids|
    ensures
      var end := if offset + size < |ids| then offset + size else |ids|;
      InBatches(main, ids[offset..], size)
        == SelectCiphers(main, IdSet(ids[offset..end])) + InBatches(main, ids[end..], size)
  {
    var end := if offset + size < |ids| then offset + size else |ids|;
    var n := BatchEnd(ids[offset..], size);
    assert ids[offset..][..n] == ids[offset..end] && ids[offset..][n..] == ids[end..];
  }

  // Cutting ascending ids into batches changes nothing, as long as every row is readable.
  lemma {:induction false} BatchesDoNotMatter(main: map<int, Row>, ids: seq<int>, size: nat)
    requires size > 0 && StrictlyAscending(ids)
    requires forall id :: id in ids && id in main ==> Readable(main[id])
    ensures InBatches(main, ids, size) == RecordsOf(main, Present(main, IdSet(ids)))
    decreases |ids|
  {
    if ids == [] {
      assert IdSet(ids) == {} && |Present(main, {})| == 0;
    } else {
      var n := BatchEnd(ids, size);
      assert forall id :: id in ids[n..] ==> id in ids;
      BatchesDoNotMatter(main, ids[n..], size);
      PresentSplit(main, ids, n);
      AllPresentReadable(main, ids[..n]);
      RecordsOfAppend(main, Present(main, IdSet(ids[..n])), Present(main, IdSet(ids[n..])));
    }
  }

  lemma AllPresentReadable(main: map<int, Row>, ids: seq<int>)
    requires forall id :: id in ids && id in main ==> Readable(main[id])
    ensures SelectCiphers(main, IdSet(ids)) == RecordsOf(main, Present(main, IdSet(ids)))
  {
    var a := Present(main, IdSet(ids));
    forall i | 0 <= i < |a| ensures Readable(main[a[i]]) {
      assert a[i] in a && a[i] in IdSet(ids);
    }
    ReadablePrefixIs(main, a, |a|);
    assert a[..|a|] == a;
  }

  lemma PresentSplit(main: map<int, Row>, ids: seq<int>, n: nat)
    requires StrictlyAscending(ids) && n <= |ids|
    ensures Present(main, IdSet(ids)) == Present(main, IdSet(ids[..n])) + Present(main, IdSet(ids[n..]))
  {
    var a := set id | id in IdSet(ids[..n]) && id in main;
    var b := set id | id in IdSet(ids[n..]) && id in main;
    assert ids == ids[..n] + ids[n..];
    assert (set id | id in IdSet(ids) && id in main) == a + b;
    forall x, y | x in a && y in b ensures x < y {
      assert x in ids[..n] && y in ids[n..];
    }
    AscendingSplit(a, b);
  }

  lemma {:induction false} RecordsOfAppend(main: map<int, Row>, a: seq<int>, b: seq<int>)
    requires forall i :: 0 <= i < |a| ==> a[i] in main
    requires forall i :: 0 <= i < |b| ==> b[i] in main
    ensures RecordsOf(main, a + b) == RecordsOf(main, a) + RecordsOf(main, b)
  {
    if b == [] {
      assert a + b == a;
    } else {
      var n := |b| - 1;
      RecordsOfAppend(main, a, b[..n]);
      assert (a + b)[..|a + b| - 1] == a + b[..n];
    }
  }

  // Thread 0 is the caller, thread w + 1 is worker w.
  predicate Runnable<T>(caller: Caller, workers: seq<Worker<T>>, t: nat) {
    if t == 0 then caller.Submitting? || caller.Collecting?
    else t <= |workers| && !workers[t - 1].Asleep?
  }

  ghost function ThreadOf(step: Step): nat {
    match step
    case Take(w) => w + 1
    case SleepTask(w) => w + 1
    case Finish(w) => w + 1
    case Notify(w) => w + 1
    case WakeWorker(w) => w + 1
    case _ => 0
  }
}
