/** The program of src/main.cpp: its global keys, and the order in which its commands touch them. */
module Application {
  import opened Common
  import opened Sm4
  import opened Tables
  import opened Database
  import opened Keys
  import opened Dao
  import opened Reindex
  import opened Rebuild
  import opened RateLimiter
  import opened Search
  import opened Answers
  import opened Exactness
  import opened QueryService
  import opened Lifecycle
  import opened Runs

  class App {
    const crypto: Crypto
    const db: Session
    const dao: DAO
    const keyMgr: KeyManager
    const qs: QueryService
    var encKey: Bytes
    var idxKey: Bytes
    var tagKey: Bytes
    var running: bool                         // false once an exception has left main's loop
    ghost var plain: map<int, Plain>          // the last written values
    ghost var marks: Marks                    // what failures have done to rows and fields

    ghost function View(): World
      reads this, db, keyMgr
    {
      World(db.View(), db.nextId, db.keyConfig, keyMgr.state, Globals(encKey, idxKey, tagKey), plain, marks)
    }

    ghost predicate Wired()
      reads this, db
    {
      && dao.conn == db && dao.crypto == crypto && keyMgr.crypto == crypto && db.snapshot.None?
      && qs.dao == dao && qs.crypto == crypto && qs.keyMgr == keyMgr
    }

    ghost predicate Valid()
      reads this, db, keyMgr
    {
      Wired() && Inv(crypto, keyMgr.kek, View())
    }

    // main from its loop on, when the keys are loaded. started is the state it is in.
    constructor (dao: DAO, keyMgr: KeyManager, qs: QueryService, globals: Globals, reached: bool, ghost started: World)
      requires dao.crypto == keyMgr.crypto == qs.crypto && qs.dao == dao && qs.keyMgr == keyMgr
      requires dao.conn.snapshot.None? && dao.conn.View() == started.tables && dao.conn.nextId == started.nextId
      requires dao.conn.keyConfig == started.config && keyMgr.state == started.keys && globals == started.globals
      ensures Wired() && View() == started && running == reached
      ensures this.dao == dao && this.keyMgr == keyMgr && this.qs == qs
    {
      this.crypto, this.db, this.dao, this.keyMgr, this.qs := dao.crypto, dao.conn, dao, keyMgr, qs;
      this.encKey, this.idxKey, this.tagKey, this.running := globals.enc, globals.idx, globals.tag, reached;
      this.plain, this.marks := started.plain, started.marks;
    }

    // failAt numbers the steps of DAO.InsertData; above 5 none fails.
    method InsertData(data: Plain, ivs: Vectors, failAt: nat) returns (r: Option<int>)
      requires Valid() && running
      modifies this`plain, this`marks, db`main, db`inverted, db`nextId, db`snapshot
      ensures Valid()
      ensures failAt > 5 ==> r == Some(old(db.nextId))
      ensures r.Some? ==>
        && r.value in db.main && db.main == old(db.main)[r.value := db.main[r.value]]
        && SealsRow(crypto, db.main[r.value], data, encKey, idxKey, tagKey, keyMgr.state.enc.current, ivs)
        && TokensAdded(crypto, old(db.inverted), db.inverted, r.value, data, idxKey)
      ensures View() == Next(crypto, keyMgr.kek, old(View()),
                             Insert(data, ivs, if r.Some? then Complete else if failAt == 0 then NoRow else RowOnly))
    {
      ghost var before, id := View(), db.nextId;
      GlobalKeys(crypto, keyMgr.kek, before);
      r := dao.InsertData(data, encKey, idxKey, tagKey, keyMgr.state.enc.current, ivs, failAt);
      ghost var extent := if r.Some? then Complete else if failAt == 0 then NoRow else RowOnly;
      plain := if extent.NoRow? then plain else plain[id := data];
      marks := AfterInsertEvent(crypto, before, data, ivs, extent).marks;
      InsertKeepsInv(crypto, keyMgr.kek, before, data, ivs, extent);
      assert View() == AfterInsertEvent(crypto, before, data, ivs, extent);
    }

    // failAt numbers the steps of DAO.UpdateData; above 7 none fails.
    method UpdateData(id: int, data: Plain, ivs: Vectors, failAt: nat) returns (ok: bool)
      requires Valid() && running
      modifies this`plain, this`marks, db`main, db`inverted, db`snapshot
      ensures Valid()
      ensures failAt > 7 && id > 0 ==> ok
      ensures id <= 0 ==> !ok
      ensures !ok ==> db.View() == old(db.View())
      ensures ok ==> TokensReplaced(crypto, old(db.inverted), db.inverted, id, data, idxKey)
      ensures ok && id !in old(db.main) ==> db.main == old(db.main)
      ensures ok && id in old(db.main) ==>
        && id in db.main && db.main == old(db.main)[id := db.main[id]]
        && SealsRow(crypto, db.main[id], data, encKey, idxKey, tagKey, keyMgr.state.enc.current, ivs)
      ensures View() == Next(crypto, keyMgr.kek, old(View()), Update(id, data, ivs, ok))
    {
      if id <= 0 {
        return false;
      }
      ghost var before := View();
      GlobalKeys(crypto, keyMgr.kek, before);
      ok := dao.UpdateData(id, data, encKey, idxKey, tagKey, keyMgr.state.enc.current, ivs, failAt);
      if ok {
        plain := if id in before.tables.main then plain[id := data] else plain;
        marks := AfterUpdateEvent(crypto, before, id, data, ivs, ok).marks;
      }
      UpdateKeepsInv(crypto, keyMgr.kek, before, id, data, ivs, ok);
      assert View() == AfterUpdateEvent(crypto, before, id, data, ivs, ok);
    }

    // failAt numbers the steps of DAO.DeleteData; above 3 none fails.
    method DeleteData(id: int, failAt: nat) returns (ok: bool)
      requires Valid() && running
      modifies this`plain, this`marks, db`main, db`inverted, db`snapshot
      ensures Valid()
      ensures ok == (id > 0 && failAt > 3)
      ensures !ok ==> db.View() == old(db.View())
      ensures ok ==> db.main == old(db.main) - {id} && TokensRemoved(old(db.inverted), db.inverted, id)
      ensures View() == Next(crypto, keyMgr.kek, old(View()), Delete(id, ok))
    {
      if id <= 0 {
        return false;
      }
      ghost var before := View();
      ok := dao.DeleteData(id, failAt);
      if ok {
        plain := plain - {id};
        marks := marks.Clear(id);
      }
      DeleteKeepsInv(crypto, keyMgr.kek, before, id, ok);
      assert View() == AfterDeleteEvent(before, id, ok);
    }

    method SetGlobal(t: KeyType)
      requires keyMgr.GetKey(t).Ok?
      modifies this`encKey, this`idxKey, this`tagKey
      ensures Globals(encKey, idxKey, tagKey) == old(Globals(encKey, idxKey, tagKey)).Put(t, keyMgr.GetKey(t).value)
    {
      match t
      case Enc => encKey := keyMgr.GetKey(Enc).value;
      case Idx => idxKey := keyMgr.GetKey(Idx).value;
      case Tag => tagKey := keyMgr.GetKey(Tag).value;
    }

    // The key menu: rotate one key, save it, refresh its global. drawn is what the random
    // generator delivers, accepted whether the database takes the new key. Nothing catches the
    // exception of a failure: it ends the program.
    method RotateOne(t: KeyType, drawn: Option<Block>, iv: Block, accepted: bool) returns (ok: bool)
      requires Valid() && running
      modifies this`encKey, this`idxKey, this`tagKey, this`running, db`keyConfig, keyMgr`state
      ensures Valid() && running == ok == (drawn.Some? && accepted)
      ensures View() == Next(crypto, keyMgr.kek, old(View()),
        if ok then Rotate(t, drawn.value, iv) else RotateFailed(t, drawn))
      ensures OnlyRotated(crypto, keyMgr.kek, old(View()), View(), t, drawn, ok)
    {
      OneRotationIs(crypto, keyMgr.kek, View(), t, drawn, iv, drawn.Some? && accepted);
      ok := RotateSaveRefresh(t, drawn, iv, accepted);
    }

    method RotateSaveRefresh(t: KeyType, drawn: Option<Block>, iv: Block, accepted: bool) returns (ok: bool)
      requires Valid() && running
      modifies this`encKey, this`idxKey, this`tagKey, this`running, db`keyConfig, keyMgr`state
      ensures Valid() && running == ok == (drawn.Some? && accepted)
      ensures View() == Next(crypto, keyMgr.kek, old(View()),
        if ok then Rotate(t, drawn.value, iv) else RotateFailed(t, drawn))
    {
      ghost var before := View();
      CurrentKeys(crypto, keyMgr.kek, before);
      assert CurrentKey(before.keys.Get(t)).Ok?;
      RotateFailedKeepsInv(crypto, keyMgr.kek, before, t, drawn);
      var rotated := keyMgr.RotateKey(t, drawn);
      assert View() == Next(crypto, keyMgr.kek, before, RotateFailed(t, drawn));
      if rotated.Err? {
        running := false;
        return false;
      }
      ok := keyMgr.SaveToDatabase(db, t, keyMgr.GetKey(t).value, rotated.value, Enabled, iv, accepted);
      if !ok {
        running := false;
        return;
      }
      SetGlobal(t);
      RotateKeepsInv(crypto, keyMgr.kek, before, t, drawn.value, iv);
      assert View() == AfterRotate(crypto, keyMgr.kek, before, t, drawn.value, iv);
    }

    // Rotation of all three keys, by the menu or by the timer: rotate all, save all, refresh
    // all. failAt is the number of the save that fails; above 2 none does. The timer catches the
    // exception of a failure, the menu does not.
    method RotateAllKeys(enc: Option<Block>, idx: Option<Block>, tag: Option<Block>, ivs: Vectors,
        failAt: nat, timed: bool) returns (ok: bool)
      requires Valid() && running
      modifies this`encKey, this`idxKey, this`tagKey, this`running, db`keyConfig, keyMgr`state
      ensures running == (ok || timed)
      ensures Valid() && ok == (enc.Some? && idx.Some? && tag.Some? && failAt > 2)
      ensures View() == Next(crypto, keyMgr.kek, old(View()), RotateAllEvent(enc, idx, tag, ivs, failAt))
      ensures AllTypesRotated(crypto, keyMgr.kek, old(View()), View(), enc, idx, tag, failAt)
    {
      RotateAllIsEvent(crypto, keyMgr.kek, View(), enc, idx, tag, ivs, failAt);
      AllRotationsAre(crypto, keyMgr.kek, View(), enc, idx, tag, ivs, failAt);
      ok := RotateSaveRefreshAll(enc, idx, tag, ivs, failAt, timed);
    }

    method RotateSaveRefreshAll(enc: Option<Block>, idx: Option<Block>, tag: Option<Block>, ivs: Vectors,
        failAt: nat, timed: bool) returns (ok: bool)
      requires Valid() && running
      modifies this`encKey, this`idxKey, this`tagKey, this`running, db`keyConfig, keyMgr`state
      ensures running == (ok || timed) && Wired()
      ensures ok == (enc.Some? && idx.Some? && tag.Some? && failAt > 2)
      ensures View() == Refreshed(AfterRotateAllFailed(crypto, keyMgr.kek, old(View()), enc, idx, tag, ivs, failAt),
                                  enc, idx, tag, failAt)
    {
      ok := RotateAndSave(enc, idx, tag, ivs, failAt);
      if ok {
        RefreshGlobals();
      } else {
        running := timed;
      }
    }

    // Everything but the refresh.
    method RotateAndSave(enc: Option<Block>, idx: Option<Block>, tag: Option<Block>, ivs: Vectors,
        failAt: nat) returns (ok: bool)
      requires Wired() && AllKeysInv(crypto, keyMgr.kek, View())
      modifies db`keyConfig, keyMgr`state
      ensures ok == (enc.Some? && idx.Some? && tag.Some? && failAt > 2)
      ensures View() == AfterRotateAllFailed(crypto, keyMgr.kek, old(View()), enc, idx, tag, ivs, failAt)
      ensures ok ==>
        && keyMgr.GetKey(Enc) == Ok(enc.value) && keyMgr.GetKey(Idx) == Ok(idx.value)
        && keyMgr.GetKey(Tag) == Ok(tag.value)
    {
      ghost var before := View();
      CurrentKeys(crypto, keyMgr.kek, before);
      ok := RotateThree(enc, idx, tag);
      if ok {
        DrawnKeys(crypto, keyMgr.kek, before, enc.value, idx.value, tag.value);
        ok := SaveAll(keyMgr.state.enc.current, keyMgr.state.idx.current, keyMgr.state.tag.current, ivs, failAt);
      }
    }

    method RefreshGlobals()
      requires keyMgr.GetKey(Enc).Ok? && keyMgr.GetKey(Idx).Ok? && keyMgr.GetKey(Tag).Ok?
      modifies this`encKey, this`idxKey, this`tagKey
      ensures encKey == keyMgr.GetKey(Enc).value && idxKey == keyMgr.GetKey(Idx).value
      ensures tagKey == keyMgr.GetKey(Tag).value
    {
      SetGlobal(Enc);
      SetGlobal(Idx);
      SetGlobal(Tag);
    }

    // The three rotations, one after the other.
    method RotateThree(enc: Option<Block>, idx: Option<Block>, tag: Option<Block>) returns (ok: bool)
      requires forall t: KeyType :: CurrentKey(keyMgr.state.Get(t)).Ok?
      modifies keyMgr`state
      ensures ok == (enc.Some? && idx.Some? && tag.Some?)
      ensures keyMgr.state == RotatedKeys(old(keyMgr.state), enc, idx, tag)
    {
      assert CurrentKey(keyMgr.state.Get(Enc)).Ok? && CurrentKey(keyMgr.state.Get(Idx)).Ok?;
      assert CurrentKey(keyMgr.state.Get(Tag)).Ok?;
      var newEnc := keyMgr.RotateKey(Enc, enc);
      if newEnc.Err? {
        return false;
      }
      var newIdx := keyMgr.RotateKey(Idx, idx);
      if newIdx.Err? {
        return false;
      }
      var newTag := keyMgr.RotateKey(Tag, tag);
      ok := newTag.Ok?;
    }

    // The three saves, one after the other.
    method SaveAll(encVersion: int, idxVersion: int, tagVersion: int, ivs: Vectors, failAt: nat) returns (ok: bool)
      requires |keyMgr.kek| == KEY_LEN && keyMgr.GetKey(Enc).Ok? && keyMgr.GetKey(Idx).Ok? && keyMgr.GetKey(Tag).Ok?
      requires encVersion == keyMgr.state.enc.current && idxVersion == keyMgr.state.idx.current
      requires tagVersion == keyMgr.state.tag.current
      modifies db`keyConfig
      ensures ok == (failAt > 2)
      ensures db.keyConfig == SavedFirst(keyMgr.crypto, keyMgr.kek, old(db.keyConfig), keyMgr.state, ivs, failAt)
    {
      ok := keyMgr.SaveToDatabase(db, Enc, keyMgr.GetKey(Enc).value, encVersion, Enabled, ivs.name, failAt != 0);
      if !ok {
        return;
      }
      ok := keyMgr.SaveToDatabase(db, Idx, keyMgr.GetKey(Idx).value, idxVersion, Enabled, ivs.phone, failAt != 1);
      if !ok {
        return;
      }
      ok := keyMgr.SaveToDatabase(db, Tag, keyMgr.GetKey(Tag).value, tagVersion, Enabled, ivs.address, failAt != 2);
    }

    // The rebuild menu, over any range. taskId is the id the database gives the task, reliable
    // says that MySQL refuses no statement of a record, tracked that it refuses no write of the
    // task's row, budget is the number of writes before a crash.
    method RebuildIndex(fieldCode: int, startId: int, endId: int, batchSize: int, taskId: int, reliable: bool,
        tracked: bool, budget: Option<nat>)
      returns (outcome: Option<Outcome>)
      requires Valid() && running && taskId !in db.tasks
      modifies this`marks, this`running, db`main, db`inverted, db`tasks, db`taskLog
      ensures Valid() && running == !(outcome.Some? && outcome.value.Crashed?)
      ensures outcome.None? <==> endId <= 0 || endId < startId
      ensures outcome.None? ==> View() == old(View())
      ensures outcome.Some? && budget == None ==> outcome.value.Returned? || outcome.value == Threw(StatementRefused)
      ensures outcome.Some? && outcome.value.Threw? ==> outcome.value.error == StatementRefused && !tracked
      ensures outcome.Some? ==>
        RebuildEvent(crypto, keyMgr.kek, old(View()), View(), fieldCode, startId, endId, reliable, outcome.value)
      ensures outcome.Some? ==>
        RebuildByCode(crypto, Job(fieldCode, KeyOr(keyMgr.state.enc), KeyOr(keyMgr.state.idx), startId, endId),
                      old(db.View()), db.View(), reliable, outcome.value)
    {
      if endId <= 0 || endId < startId {
        return None;
      }
      var size := BatchSize(batchSize);
      ghost var before := View();
      ghost var job := JobOf(before, fieldCode, startId, endId);
      var rebuilder := new IndexRebuilder(crypto, db, keyMgr, reliable, tracked, budget);
      var result := RunNewTask(rebuilder, taskId, fieldCode, startId, endId, size, before, job);
      ghost var finished := reliable && result.Returned? && ReadableIn(before.tables.main, startId, endId);
      OutcomeByCode(crypto, job, before.tables, db.View(), reliable, result);
      marks := AfterRebuild(crypto, before, job, db.View(), finished).marks;
      running := !result.Crashed?;
      RebuildIsEvent(crypto, keyMgr.kek, before, View(), fieldCode, startId, endId, reliable, result);
      outcome := Some(result);
    }

    // A batch holds 100 ids where the operator names no positive size.
    method BatchSize(batchSize: int) returns (size: int)
      ensures batchSize <= 0 ==> size == 100
      ensures batchSize > 0 ==> size == batchSize
    {
      size := if batchSize <= 0 then 100 else batchSize;
    }

    // rebuildField: create a task and run it.
    method RunNewTask(rebuilder: IndexRebuilder, taskId: int, fieldCode: int, startId: int, endId: int, batchSize: int,
                      ghost before: World, ghost job: Job)
      returns (outcome: Outcome)
      requires before == View() && Inv(crypto, keyMgr.kek, before) && job == JobOf(before, fieldCode, startId, endId)
      requires rebuilder.db == db && rebuilder.keyMgr == keyMgr && rebuilder.crypto == crypto
      requires taskId !in db.tasks && batchSize >= 1 && rebuilder.alive
      modifies rebuilder`budget, rebuilder`alive, db`main, db`inverted, db`tasks, db`taskLog
      ensures old(rebuilder.budget) == None ==> !outcome.Crashed?
      ensures outcome.Threw? ==> outcome.error == StatementRefused && !rebuilder.tracked
      ensures Between(crypto, job, before.tables, db.View())
      ensures rebuilder.reliable && outcome.Returned? && ReadableIn(before.tables.main, startId, endId) ==>
        && db.View() == FullPass(crypto, job, before.tables)
        && outcome.count == |GoodIds(crypto, job, before.tables.main, endId)|
    {
      CurrentKeys(crypto, keyMgr.kek, before);
      assert CurrentKey(before.keys.Get(Enc)).Ok? && CurrentKey(before.keys.Get(Idx)).Ok?;
      assert CurrentKey(before.keys.Get(Tag)).Ok?;
      ghost var prior := db.taskLog;
      var stopped := rebuilder.CreateTask(taskId, fieldCode, startId, endId, job);
      if stopped {
        return rebuilder.Stopped();
      }
      ghost var first := db.tasks[taskId];
      ghost var visited;
      outcome, visited := rebuilder.RunTask(taskId, batchSize, before.tables, job, prior, first);
    }

    method ExactQuery(keyword: Bytes, f: Field, now: int) returns (r: Result<seq<FullRecord>>)
      requires Valid() && running && qs.limiter.Valid() && (qs.limiter.clock <= now || qs.limiter.history == [])
      modifies qs.limiter
      ensures qs.limiter.Valid() && db.main.Keys == plain.Keys
      ensures keyword == [] ==> r == Err(KeywordEmpty) && qs.limiter.history == old(qs.limiter.history)
      ensures keyword != [] ==> qs.limiter.clock == now && qs.limiter.history == Record(old(qs.limiter.history), now)
      ensures keyword != [] && !Accepts(old(qs.limiter.history), now) ==> r == Err(RateLimited)
      ensures keyword != [] && Accepts(old(qs.limiter.history), now) ==> ExactReply(crypto, View(), f, keyword, r)
      ensures ExactRecords(db.main, f, keyword, r)
      ensures keyword != [] ==>
        Refusals(keyword, |Within(old(qs.limiter.history), now - 1_000_000_000, now)| >= 10,
                 |ExactIds(crypto, keyMgr.state, db.main, f, keyword)|, r)
      ensures |db.main| <= 10000 ==> r != Err(TooManyCandidates)
    {
      ghost var w := View();
      RowsOfInv(crypto, keyMgr.kek, w);
      if keyword == [] {
        return Err(KeywordEmpty);
      }
      r := qs.ExactQuery(keyword, f, encKey, now);
      ExactOutcomeIsReply(crypto, keyMgr.kek, w, f, keyword);
    }

    method FuzzyQuery(keyword: Bytes, f: Field, now: int) returns (r: Result<seq<FullRecord>>)
      requires Valid() && running && qs.limiter.Valid() && (qs.limiter.clock <= now || qs.limiter.history == [])
      modifies qs.limiter
      ensures qs.limiter.Valid() && db.main.Keys == plain.Keys
      ensures keyword == [] ==> r == Err(KeywordEmpty) && qs.limiter.history == old(qs.limiter.history)
      ensures keyword != [] ==> qs.limiter.clock == now && qs.limiter.history == Record(old(qs.limiter.history), now)
      ensures keyword != [] && !Accepts(old(qs.limiter.history), now) ==> r == Err(RateLimited)
      ensures keyword != [] && Accepts(old(qs.limiter.history), now) ==> FuzzyReply(crypto, View(), f, keyword, r)
      ensures FuzzyRecords(db.main, f, keyword, r)
      ensures keyword != [] ==>
        Refusals(keyword, |Within(old(qs.limiter.history), now - 1_000_000_000, now)| >= 10,
                 |FuzzyIds(crypto, keyMgr.state, db.inverted, f, keyword)|, r)
      ensures |set x | x in db.inverted :: x.id| <= 10000 ==> r != Err(TooManyCandidates)
    {
      ghost var w := View();
      RowsOfInv(crypto, keyMgr.kek, w);
      if keyword == [] {
        return Err(KeywordEmpty);
      }
      r := qs.FuzzyQuery(keyword, f, encKey, now);
      FuzzyOutcomeIsReply(crypto, keyMgr.kek, w, f, keyword);
    }
  }

  // What an exact query past the rate limit answers: the scan exactly when every row with the
  // value is indexed, reached and read, and no other candidate gets in the way.
  ghost predicate ExactReply(c: Crypto, w: World, f: Field, keyword: Bytes, r: Result<seq<FullRecord>>)
    requires w.tables.main.Keys == w.plain.Keys
  {
    var ids := ExactIds(c, w.keys, w.tables.main, f, keyword);
    if |keyword| < MIN_KEYWORD_LENGTH then r == Err(KeywordTooShort)
    else if |ids| > MAX_CANDIDATE_COUNT then r == Err(TooManyCandidates)
    else
      r == Ok(Scan(w.tables.main, w.plain, Equals(f, keyword))) <==>
      Answered(c, w.keys, w.tables.main, w.plain, ids, Equals(f, keyword), w.globals.enc)
  }

  // Which is so when no failure touched the field, no value is too long and the rows read back.
  lemma IntactIsAnswered(c: Crypto, kek: Bytes, w: World, f: Field, keyword: Bytes)
    requires Inv(c, kek, w) && ShortValues(w.plain) && RowsRead(c, w) && |keyword| >= 2
    requires forall id :: id in w.tables.main ==> (id, f) !in w.marks.broken && (id, f) !in w.marks.orphaned
    ensures w.tables.main.Keys == w.plain.Keys
    ensures Answered(c, w.keys, w.tables.main, w.plain, ExactIds(c, w.keys, w.tables.main, f, keyword),
                     Equals(f, keyword), w.globals.enc)
  {
    RowsOfInv(c, kek, w);
    AllReadableIff(w.tables.main, w.plain);
    forall id | id in w.tables.main ensures BlindKnown(c, w.keys.idx, w.tables.main[id], w.plain[id], f) {
      FieldOfInv(c, kek, w, id, f);
    }
    ExactQueryIff(c, w.keys, w.tables, w.plain, f, keyword, w.globals.enc);
    AnyQueryIff(c, w.keys, w.tables.main, w.plain, ExactIds(c, w.keys, w.tables.main, f, keyword), Equals(f, keyword),
                w.globals.enc);
  }

  lemma ExactOutcomeIsReply(c: Crypto, kek: Bytes, w: World, f: Field, keyword: Bytes)
    requires Inv(c, kek, w)
    ensures w.tables.main.Keys == w.plain.Keys
    ensures ExactReply(c, w, f, keyword, ExactOutcome(c, w.keys, w.tables, f, keyword, w.globals.enc))
  {
    RowsOfInv(c, kek, w);
    AnyQueryIff(c, w.keys, w.tables.main, w.plain, ExactIds(c, w.keys, w.tables.main, f, keyword), Equals(f, keyword),
                w.globals.enc);
  }

  // What a fuzzy query past the rate limit answers, in the same terms; while the rows read back
  // it is also right about every row that is neither pending nor behind a long value.
  ghost predicate FuzzyReply(c: Crypto, w: World, f: Field, keyword: Bytes, r: Result<seq<FullRecord>>)
    requires w.tables.main.Keys == w.plain.Keys
  {
    var ids := FuzzyIds(c, w.keys, w.tables.inverted, f, keyword);
    if |keyword| < MIN_KEYWORD_LENGTH then r == Err(KeywordTooShort)
    else if |ids| > MAX_CANDIDATE_COUNT then r == Err(TooManyCandidates)
    else
      && r == FuzzyAnswer(c, w.keys, w.tables, f, keyword, w.globals.enc)
      && (r == Ok(Scan(w.tables.main, w.plain, Holds(f, keyword))) <==>
          Answered(c, w.keys, w.tables.main, w.plain, ids, Holds(f, keyword), w.globals.enc))
      && (RowsRead(c, w) && DistinctHashes(c, w.keys.idx, keyword) ==> FuzzySearchCorrect(c, w, f, keyword))
  }

  lemma FuzzyOutcomeIsReply(c: Crypto, kek: Bytes, w: World, f: Field, keyword: Bytes)
    requires Inv(c, kek, w)
    ensures w.tables.main.Keys == w.plain.Keys
    ensures FuzzyReply(c, w, f, keyword, FuzzyOutcome(c, w.keys, w.tables, f, keyword, w.globals.enc))
  {
    RowsOfInv(c, kek, w);
    AnyQueryIff(c, w.keys, w.tables.main, w.plain, FuzzyIds(c, w.keys, w.tables.inverted, f, keyword),
                Holds(f, keyword), w.globals.enc);
    if |keyword| >= 2 && RowsRead(c, w) && DistinctHashes(c, w.keys.idx, keyword) {
      FuzzyKeywordUnderInv(c, kek, w, f, keyword);
    }
  }

  // The rows of a range with nothing to decrypt in the field, or with a ciphertext that opens.
  ghost function DecryptedByCode(c: Crypto, code: int, encKey: Bytes, lo: int, hi: int, main: map<int, Row>): set<int> {
    set id | id in main && lo <= id <= hi
      && (CodeCipher(code, main[id]) == [] || Opened(c, CodeCipher(code, main[id]), encKey).Ok?)
  }

  // What a rebuild leaves, by its code: a whole rebuild if it returned, no statement of a record
  // was refused and every row of the range fits the fetch buffers, and otherwise part of one.
  ghost predicate RebuildByCode(c: Crypto, job: Job, before: Tables, after: Tables, reliable: bool, outcome: Outcome) {
    && CutByCode(c, job.code, job.encKey, job.idxKey, job.lo, job.hi, before, after)
    && (reliable && outcome.Returned? && ReadableIn(before.main, job.lo, job.hi) ==>
        && RebuiltByCode(c, job.code, job.encKey, job.idxKey, job.lo, job.hi, before, after)
        && outcome.count == |DecryptedByCode(c, job.code, job.encKey, job.lo, job.hi, before.main)|)
  }

  lemma OutcomeByCode(c: Crypto, job: Job, before: Tables, after: Tables, reliable: bool, outcome: Outcome)
    requires Between(c, job, before, after)
    requires reliable && outcome.Returned? && ReadableIn(before.main, job.lo, job.hi) ==>
      after == FullPass(c, job, before) && outcome.count == |GoodIds(c, job, before.main, job.hi)|
    ensures RebuildByCode(c, job, before, after, reliable, outcome)
  {
    BetweenByCode(c, job, before, after);
    PassByCode(c, job, before);
    GoodIdsAre(c, job, before.main, job.hi);
  }

  // What a rebuild is in the life of the store: finished when it returned, no statement of a
  // record was refused and every row of the range fits the fetch buffers, and cut short otherwise.
  ghost predicate RebuildEvent(c: Crypto, kek: Bytes, before: World, after: World, code: int, lo: int, hi: int,
      reliable: bool, outcome: Outcome) {
    if reliable && outcome.Returned? && ReadableIn(before.tables.main, lo, hi) then
      && after == Next(c, kek, before, RebuildDone(code, lo, hi))
      && outcome.count == |GoodIds(c, JobOf(before, code, lo, hi), before.tables.main, hi)|
    else
      && Possible(c, before, RebuildCut(code, lo, hi, after.tables))
      && after == Next(c, kek, before, RebuildCut(code, lo, hi, after.tables))
  }

  lemma RebuildIsEvent(c: Crypto, kek: Bytes, before: World, after: World, code: int, lo: int, hi: int,
      reliable: bool, outcome: Outcome)
    requires Inv(c, kek, before) && Between(c, JobOf(before, code, lo, hi), before.tables, after.tables)
    requires reliable && outcome.Returned? && ReadableIn(before.tables.main, lo, hi) ==>
      && after.tables == FullPass(c, JobOf(before, code, lo, hi), before.tables)
      && outcome.count == |GoodIds(c, JobOf(before, code, lo, hi), before.tables.main, hi)|
    requires after == AfterRebuild(c, before, JobOf(before, code, lo, hi), after.tables,
                                   reliable && outcome.Returned? && ReadableIn(before.tables.main, lo, hi))
    ensures Inv(c, kek, after) && RebuildEvent(c, kek, before, after, code, lo, hi, reliable, outcome)
  {
    if reliable && outcome.Returned? && ReadableIn(before.tables.main, lo, hi) {
      RebuildDoneKeepsInv(c, kek, before, code, lo, hi);
    } else {
      RebuildKeepsInv(c, kek, before, code, lo, hi, after.tables, false);
    }
  }

  lemma DrawnKeys(c: Crypto, kek: Bytes, w: World, enc: Block, idx: Block, tag: Block)
    requires AllKeysInv(c, kek, w)
    ensures
      var keys := RotatedKeys(w.keys, Some(enc), Some(idx), Some(tag));
      CurrentKey(keys.enc) == Ok(enc) && CurrentKey(keys.idx) == Ok(idx) && CurrentKey(keys.tag) == Ok(tag)
  {
    forall t: KeyType, drawn: Block ensures CurrentKey(Rotated(w.keys.Get(t), Some(drawn))) == Ok(drawn) {
      KeysOfInv(c, kek, w, t);
    }
    GetEach(w);
  }

  // When the three rotations, the three saves and the refresh all succeed, the result is
  // that of three rotations each saved and refreshed at once.
  lemma AllRotated(c: Crypto, kek: Bytes, w: World, enc: Block, idx: Block, tag: Block, ivs: Vectors, saves: nat)
    requires AllKeysInv(c, kek, w) && saves > 2
    ensures AfterRotateAll(c, kek, w, enc, idx, tag, ivs) ==
            AfterRotateAllFailed(c, kek, w, Some(enc), Some(idx), Some(tag), ivs, saves)
              .(globals := Globals(enc, idx, tag))
  {
    DrawnKeys(c, kek, w, enc, idx, tag);
    GetEach(w);
  }

  // The refresh follows when nothing failed.
  function Refreshed(w: World, enc: Option<Block>, idx: Option<Block>, tag: Option<Block>, saves: nat): World {
    if enc.Some? && idx.Some? && tag.Some? && saves > 2
    then w.(globals := Globals(enc.value, idx.value, tag.value)) else w
  }

  lemma RotateAllIsEvent(c: Crypto, kek: Bytes, w: World, enc: Option<Block>, idx: Option<Block>, tag: Option<Block>,
      ivs: Vectors, saves: nat)
    requires Inv(c, kek, w)
    ensures
      var w' := Refreshed(AfterRotateAllFailed(c, kek, w, enc, idx, tag, ivs, saves), enc, idx, tag, saves);
      w' == Next(c, kek, w, RotateAllEvent(enc, idx, tag, ivs, saves)) && Inv(c, kek, w')
  {
    NextKeepsInv(c, kek, w, RotateAllEvent(enc, idx, tag, ivs, saves));
    NextOfRotation(c, kek, w, RotateAllEvent(enc, idx, tag, ivs, saves));
    if enc.Some? && idx.Some? && tag.Some? && saves > 2 {
      AllRotated(c, kek, w, enc.value, idx.value, tag.value, ivs, saves);
    }
  }

  lemma OneRotationIs(c: Crypto, kek: Bytes, w: World, t: KeyType, drawn: Option<Block>, iv: Block, ok: bool)
    requires AllKeysInv(c, kek, w) && (ok ==> drawn.Some?)
    ensures
      var w' := Next(c, kek, w, if ok then Rotate(t, drawn.value, iv) else RotateFailed(t, drawn));
      OnlyRotated(c, kek, w, w', t, drawn, ok)
  {
    if ok {
      RotateIs(c, kek, w, t, drawn.value, iv, Enc);
      RotateIs(c, kek, w, t, drawn.value, iv, Idx);
      RotateIs(c, kek, w, t, drawn.value, iv, Tag);
    } else {
      RotateFailedIs(c, kek, w, t, drawn, Enc);
      RotateFailedIs(c, kek, w, t, drawn, Idx);
      RotateFailedIs(c, kek, w, t, drawn, Tag);
    }
  }

  // One type of key was rotated, saved and refreshed, or only rotated; the others are as before.
  ghost predicate OnlyRotated(c: Crypto, kek: Bytes, w: World, w': World, t: KeyType, drawn: Option<Block>, ok: bool) {
    && TypeRotated(c, kek, w, w', Enc, t == Enc, drawn, t == Enc && ok, t == Enc && ok)
    && TypeRotated(c, kek, w, w', Idx, t == Idx, drawn, t == Idx && ok, t == Idx && ok)
    && TypeRotated(c, kek, w, w', Tag, t == Tag, drawn, t == Tag && ok, t == Tag && ok)
  }

  // What rotating all keys does to each: nothing is saved before all are drawn, the three saves
  // come in order, and the globals are refreshed when all succeeded.
  ghost predicate AllTypesRotated(c: Crypto, kek: Bytes, w: World, w': World, enc: Option<Block>, idx: Option<Block>,
      tag: Option<Block>, failAt: nat) {
    var drawn := enc.Some? && idx.Some? && tag.Some?;
    && TypeRotated(c, kek, w, w', Enc, true, enc, drawn && failAt > 0, drawn && failAt > 2)
    && TypeRotated(c, kek, w, w', Idx, enc.Some?, idx, drawn && failAt > 1, drawn && failAt > 2)
    && TypeRotated(c, kek, w, w', Tag, enc.Some? && idx.Some?, tag, drawn && failAt > 2, drawn && failAt > 2)
  }

  lemma AllRotationsAre(c: Crypto, kek: Bytes, w: World, enc: Option<Block>, idx: Option<Block>, tag: Option<Block>,
      ivs: Vectors, saves: nat)
    requires Inv(c, kek, w)
    ensures AllTypesRotated(c, kek, w, Next(c, kek, w, RotateAllEvent(enc, idx, tag, ivs, saves)), enc, idx, tag, saves)
  {
    RotateAllIsEvent(c, kek, w, enc, idx, tag, ivs, saves);
    RefreshedRotations(c, kek, w, enc, idx, tag, ivs, saves);
  }

  lemma RefreshedRotations(c: Crypto, kek: Bytes, w: World, enc: Option<Block>, idx: Option<Block>, tag: Option<Block>,
      ivs: Vectors, saves: nat)
    requires AllKeysInv(c, kek, w)
    ensures
      var w' := Refreshed(AfterRotateAllFailed(c, kek, w, enc, idx, tag, ivs, saves), enc, idx, tag, saves);
      AllTypesRotated(c, kek, w, w', enc, idx, tag, saves)
  {
    var w1 := AfterRotateAllFailed(c, kek, w, enc, idx, tag, ivs, saves);
    RotateAllFailedIs(c, kek, w, enc, idx, tag, ivs, saves);
    GetEach(w1);
    if enc.Some? && idx.Some? && tag.Some? {
      DrawnKeys(c, kek, w, enc.value, idx.value, tag.value);
    }
    RefreshedTypes(c, kek, w, w1, Refreshed(w1, enc, idx, tag, saves), enc, idx, tag, saves);
  }

  lemma RefreshedTypes(c: Crypto, kek: Bytes, w: World, w1: World, w': World, enc: Option<Block>, idx: Option<Block>,
      tag: Option<Block>, saves: nat)
    requires w' == Refreshed(w1, enc, idx, tag, saves)
    requires enc.Some? && idx.Some? && tag.Some? ==>
      KeyOr(w1.keys.enc) == enc.value && KeyOr(w1.keys.idx) == idx.value && KeyOr(w1.keys.tag) == tag.value
    requires
      var drawn := enc.Some? && idx.Some? && tag.Some?;
      && TypeRotated(c, kek, w, w1, Enc, true, enc, drawn && saves > 0, false)
      && TypeRotated(c, kek, w, w1, Idx, enc.Some?, idx, drawn && saves > 1, false)
      && TypeRotated(c, kek, w, w1, Tag, enc.Some? && idx.Some?, tag, drawn && saves > 2, false)
    ensures AllTypesRotated(c, kek, w, w', enc, idx, tag, saves)
  {
    GetEach(w1);
    GetEach(w');
  }

  lemma NextOfRotation(c: Crypto, kek: Bytes, w: World, e: Event)
    ensures e.RotateAll? ==> Next(c, kek, w, e) == AfterRotateAll(c, kek, w, e.enc, e.idx, e.tag, e.ivs)
    ensures e.RotateAllFailed? ==>
      Next(c, kek, w, e) == AfterRotateAllFailed(c, kek, w, e.encDraw, e.idxDraw, e.tagDraw, e.ivs, e.saves)
  {
  }

  // The event a rotation of all keys is, when the save with that number fails.
  function RotateAllEvent(enc: Option<Block>, idx: Option<Block>, tag: Option<Block>, ivs: Vectors, saves: nat): Event {
    if enc.Some? && idx.Some? && tag.Some? && saves > 2 then RotateAll(enc.value, idx.value, tag.value, ivs)
    else RotateAllFailed(enc, idx, tag, ivs, saves)
  }

  lemma CurrentKeys(c: Crypto, kek: Bytes, w: World)
    requires AllKeysInv(c, kek, w)
    ensures forall t: KeyType :: CurrentKey(w.keys.Get(t)) == Ok(KeyOr(w.keys.Get(t)))
  {
    forall t: KeyType ensures CurrentKey(w.keys.Get(t)).Ok? {
      KeysOfInv(c, kek, w, t);
    }
  }

  // The globals may be behind the current keys, but they are always keys.
  lemma GlobalKeys(c: Crypto, kek: Bytes, w: World)
    requires AllKeysInv(c, kek, w)
    ensures |w.globals.enc| == |w.globals.idx| == |w.globals.tag| == KEY_LEN
  {
    forall t: KeyType ensures |w.globals.Get(t)| == KEY_LEN {
      KeysOfInv(c, kek, w, t);
    }
    GetEach(w);
    assert |w.globals.Get(Enc)| == |w.globals.Get(Idx)| == |w.globals.Get(Tag)| == KEY_LEN;
  }

  // getEncryptionKey, getIndexKey and getTagKey do not throw.
  predicate HasCurrentKeys(s: KeyState) {
    CurrentKey(s.enc).Ok? && CurrentKey(s.idx).Ok? && CurrentKey(s.tag).Ok?
  }

  lemma CurrentKeysAre(s: KeyState)
    ensures HasCurrentKeys(s) <==> forall t: KeyType :: CurrentKey(s.Get(t)).Ok?
  {
    assert s.Get(Enc) == s.enc && s.Get(Idx) == s.idx && s.Get(Tag) == s.tag;
  }

  lemma InvHasCurrentKeys(c: Crypto, kek: Bytes, w: World)
    requires AllKeysInv(c, kek, w)
    ensures HasCurrentKeys(w.keys)
  {
    CurrentKeys(c, kek, w);
    GetEach(w);
    assert CurrentKey(w.keys.Get(Enc)).Ok? && CurrentKey(w.keys.Get(Idx)).Ok? && CurrentKey(w.keys.Get(Tag)).Ok?;
  }

  // ---- The start ----

  // The program stopped here before, or it never got further than its first saves.
  ghost predicate Startable(c: Crypto, kek: Bytes, before: World) {
    Inv(c, kek, before) || (Fresh(c, kek, before) && before.marks == NO_MARKS)
  }

  // The rows of one state, the keys of a config table, and the globals these give.
  ghost predicate LoadedFrom(c: Crypto, kek: Bytes, before: World, w: World) {
    && w.tables == before.tables && w.nextId == before.nextId && w.plain == before.plain
    && w.keys == LoadedState(OpenWith(c, kek), w.config)
    && w.globals == Globals(KeyOr(w.keys.enc), KeyOr(w.keys.idx), KeyOr(w.keys.tag))
  }

  lemma StartedIs(c: Crypto, kek: Bytes, ivs: Vectors, before: World)
    requires |kek| == KEY_LEN
    ensures LoadedFrom(c, kek, before, Started(c, kek, ivs, before))
    ensures Startable(c, kek, before) ==>
      Inv(c, kek, Started(c, kek, ivs, before)) && HasCurrentKeys(Started(c, kek, ivs, before).keys)
  {
    if Inv(c, kek, before) {
      InvLoads(c, kek, before);
      RestartKeepsInv(c, kek, before);
      InvHasCurrentKeys(c, kek, AfterRestart(c, kek, before));
    } else if Fresh(c, kek, before) && before.marks == NO_MARKS {
      StartSatisfiesInv(c, kek, ivs, before);
      InvHasCurrentKeys(c, kek, Started(c, kek, ivs, before));
    }
  }

  lemma InvLoads(c: Crypto, kek: Bytes, w: World)
    requires AllKeysInv(c, kek, w)
    ensures HasAllTypes(LoadedState(OpenWith(c, kek), w.config))
  {
    var open := OpenWith(c, kek);
    forall t: KeyType ensures Loaded(open, w.config.Get(t)).infos != map[] {
      KeysOfInv(c, kek, w, t);
      LoadedTruthful(open, w.config.Get(t), w.keys.Get(t));
      assert Loaded(open, w.config.Get(t)).current in Loaded(open, w.config.Get(t)).infos;
    }
    GetEach(w);
    assert Loaded(open, w.config.Get(Enc)).infos != map[] && Loaded(open, w.config.Get(Idx)).infos != map[]
        && Loaded(open, w.config.Get(Tag)).infos != map[];
  }

  // The start of the program on any database: load the keys, or, when some type has none, save
  // version 1 of each and load again. before is the state the program stopped in.
  method Start(dao: DAO, keyMgr: KeyManager, qs: QueryService, kek: Bytes, ivs: Vectors, ghost before: World)
    returns (app: App)
    requires |kek| == KEY_LEN && dao.conn.snapshot.None?
    requires dao.crypto == keyMgr.crypto == qs.crypto && qs.dao == dao && qs.keyMgr == keyMgr
    requires dao.conn.View() == before.tables && dao.conn.nextId == before.nextId
    requires dao.conn.keyConfig == before.config
    modifies dao.conn`keyConfig, keyMgr`kek, keyMgr`state
    ensures fresh(app) && app.dao == dao && app.keyMgr == keyMgr && app.qs == qs && keyMgr.kek == kek
    ensures app.View() == Started(dao.crypto, kek, ivs, before) && app.running == HasCurrentKeys(keyMgr.state)
    ensures Startable(dao.crypto, kek, before) ==> app.Valid() && app.running
    ensures app.running <==> forall t: KeyType :: CurrentKey(keyMgr.state.Get(t)).Ok?
  {
    LoadKeys(dao.conn, keyMgr, kek, ivs);
    StartedIs(dao.crypto, kek, ivs, before);
    app := Begin(dao, keyMgr, qs, kek, before, Started(dao.crypto, kek, ivs, before));
  }

  // The globals take the current keys, and the loop is entered when there are some.
  method Begin(dao: DAO, keyMgr: KeyManager, qs: QueryService, kek: Bytes, ghost before: World, ghost started: World)
    returns (app: App)
    requires dao.crypto == keyMgr.crypto == qs.crypto && qs.dao == dao && qs.keyMgr == keyMgr
    requires dao.conn.snapshot.None? && dao.conn.View() == before.tables && dao.conn.nextId == before.nextId
    requires dao.conn.keyConfig == started.config && LoadedFrom(dao.crypto, kek, before, started)
    requires keyMgr.state == LoadedState(OpenWith(dao.crypto, kek), started.config)
    ensures fresh(app) && app.dao == dao && app.keyMgr == keyMgr && app.qs == qs
    ensures app.Wired() && app.View() == started && app.running == HasCurrentKeys(keyMgr.state)
    ensures app.running <==> forall t: KeyType :: CurrentKey(keyMgr.state.Get(t)).Ok?
    ensures keyMgr.kek == kek && Inv(dao.crypto, kek, started) ==> app.Valid()
  {
    CurrentKeysAre(keyMgr.state);
    var globals := Globals(KeyOr(keyMgr.state.enc), KeyOr(keyMgr.state.idx), KeyOr(keyMgr.state.tag));
    app := new App(dao, keyMgr, qs, globals, HasCurrentKeys(keyMgr.state), started);
  }

  // The keys of the config table, or, when some type has none, new ones saved and loaded.
  method LoadKeys(db: Session, keyMgr: KeyManager, kek: Bytes, ivs: Vectors)
    requires |kek| == KEY_LEN
    modifies db`keyConfig, keyMgr`kek, keyMgr`state
    ensures keyMgr.kek == kek && keyMgr.state == LoadedState(OpenWith(keyMgr.crypto, kek), db.keyConfig)
    ensures db.keyConfig == StartConfig(keyMgr.crypto, kek, ivs, old(db.keyConfig))
  {
    var loaded := keyMgr.LoadFromDatabase(db, kek);
    if loaded.Err? {
      SaveInitialKeys(db, keyMgr, ivs);
      loaded := keyMgr.LoadFromDatabase(db, kek);
    }
  }

  method SaveInitialKeys(db: Session, keyMgr: KeyManager, ivs: Vectors)
    requires |keyMgr.kek| == KEY_LEN
    modifies db`keyConfig
    ensures db.keyConfig == SavedInitially(keyMgr.crypto, keyMgr.kek, old(db.keyConfig), ivs, 3)
  {
    var saved := keyMgr.SaveToDatabase(db, Enc, InitialKey(Enc), 1, Enabled, ivs.name, true);
    saved := keyMgr.SaveToDatabase(db, Idx, InitialKey(Idx), 1, Enabled, ivs.phone, true);
    saved := keyMgr.SaveToDatabase(db, Tag, InitialKey(Tag), 1, Enabled, ivs.address, true);
  }
}
