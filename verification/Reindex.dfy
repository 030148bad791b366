/** The effect of an index rebuild on the tables, finished or interrupted anywhere (src/audit/index_rebuilder.cpp). */
module Reindex {
  import opened Common
  import opened Ordering
  import opened Sm4
  import opened Tables
  import opened Keys
  import opened Dao
  import opened Search
  import opened Exactness
  import opened AnyStore

  // What one task does: the field code, the current keys, the range of ids.
  datatype Job = Job(code: int, encKey: Bytes, idxKey: Bytes, lo: int, hi: int)

  function FieldOfCode(code: int): Option<Field> {
    if code == 1 then Some(Name) else if code == 2 then Some(Phone) else if code == 3 then Some(Address) else None
  }

  // The text to index: none when the code names no field or the column is empty.
  function Text(c: Crypto, job: Job, row: Row): Result<Option<Bytes>> {
    match FieldOfCode(job.code)
    case None => Ok(None)
    case Some(f) =>
      if row.Get(f).cipher == [] then Ok(None)
      else match Opened(c, row.Get(f).cipher, job.encKey)
        case Ok(plain) => Ok(Some(plain))
        case Err(e) => Err(e)
  }

  // The record counts as rebuilt.
  predicate Good(c: Crypto, job: Job, row: Row) {
    Text(c, job, row).Ok?
  }

  // The record has something to rewrite.
  predicate Target(c: Crypto, job: Job, id: int, row: Row) {
    job.lo <= id <= job.hi && Text(c, job, row).Ok? && Text(c, job, row).value.Some?
  }

  function JobField(job: Job): Field {
    match FieldOfCode(job.code) case Some(f) => f case None => Name
  }

  function NewBlind(c: Crypto, job: Job, row: Row): Bytes
    requires Text(c, job, row).Ok? && Text(c, job, row).value.Some?
  {
    HmacHex(c, Text(c, job, row).value.value, job.idxKey)
  }

  function NewTokens(c: Crypto, job: Job, id: int, row: Row): set<Token>
    requires Text(c, job, row).Ok? && Text(c, job, row).value.Some?
  {
    TokensFor(c, id, JobField(job), Text(c, job, row).value.value, job.idxKey)
  }

  function WithoutField(inverted: set<Token>, id: int, f: Field): set<Token> {
    set t | t in inverted && !(t.id == id && t.field == f)
  }

  // The three statements of one record.
  function BlindUpdated(c: Crypto, job: Job, t: Tables, id: int, row: Row): Tables
    requires Target(c, job, id, row)
  {
    if id in t.main then t.(main := t.main[id := t.main[id].WithBlind(JobField(job), NewBlind(c, job, row))]) else t
  }

  function TokensDeleted(job: Job, t: Tables, id: int): Tables {
    t.(inverted := WithoutField(t.inverted, id, JobField(job)))
  }

  function TokensInserted(c: Crypto, job: Job, t: Tables, id: int, row: Row): Tables
    requires Target(c, job, id, row)
  {
    t.(inverted := t.inverted + NewTokens(c, job, id, row))
  }

  function RowRebuilt(c: Crypto, job: Job, t: Tables, id: int, row: Row): Tables {
    if Target(c, job, id, row)
    then TokensInserted(c, job, TokensDeleted(job, BlindUpdated(c, job, t, id, row), id), id, row)
    else t
  }

  // One uninterrupted pass over the listed rows.
  function Pass(c: Crypto, job: Job, t: Tables, ids: seq<int>): Tables
    requires forall i :: 0 <= i < |ids| ==> ids[i] in t.main
  {
    if ids == [] then t else
      var last := ids[|ids| - 1];
      RowRebuilt(c, job, Pass(c, job, t, ids[..|ids| - 1]), last, t.main[last])
  }

  function RowsIn(main: map<int, Row>, lo: int, hi: int): set<int> {
    set id | id in main && lo <= id <= hi
  }

  // SELECT ... WHERE id >= lo AND id <= hi ORDER BY id ASC
  function RowsInOrder(main: map<int, Row>, lo: int, hi: int): (r: seq<int>)
    ensures StrictlyAscending(r) && |r| == |RowsIn(main, lo, hi)|
    ensures forall id :: id in r <==> id in main && lo <= id <= hi
    ensures forall i :: 0 <= i < |r| ==> r[i] in main && lo <= r[i] <= hi
  {
    var r := Ascending(RowsIn(main, lo, hi));
    assert forall i :: 0 <= i < |r| ==> r[i] in r;
    r
  }

  function FullPass(c: Crypto, job: Job, t: Tables): Tables {
    Pass(c, job, t, RowsInOrder(t.main, job.lo, job.hi))
  }

  // ---- What the field codes of a task mean ----

  // 1 is the name, 2 the phone, 3 the address.
  ghost predicate CodeField(code: int, f: Field) {
    (code == 1 && f == Name) || (code == 2 && f == Phone) || (code == 3 && f == Address)
  }

  ghost function CodeCipher(code: int, row: Row): Bytes {
    if code == 1 then row.name.cipher else if code == 2 then row.phone.cipher
    else if code == 3 then row.address.cipher else []
  }

  // Of the row's columns the blind index of that field alone is rewritten, if its ciphertext opens.
  ghost predicate RowByCode(c: Crypto, code: int, encKey: Bytes, idxKey: Bytes, before: Row, after: Row) {
    var text := Opened(c, CodeCipher(code, before), encKey);
    && (text.Ok? && code == 1 ==> after == before.(name := before.name.(blind := HmacHex(c, text.value, idxKey))))
    && (text.Ok? && code == 2 ==> after == before.(phone := before.phone.(blind := HmacHex(c, text.value, idxKey))))
    && (text.Ok? && code == 3 ==> after == before.(address := before.address.(blind := HmacHex(c, text.value, idxKey))))
    && (text.Err? || code < 1 || code > 3 ==> after == before)
  }

  // Of the row's tokens those of that field alone: they are the text's, if its ciphertext opens.
  ghost predicate TokensByCode(c: Crypto, code: int, encKey: Bytes, idxKey: Bytes, row: Row, id: int,
      before: set<Token>, after: set<Token>) {
    var text := Opened(c, CodeCipher(code, row), encKey);
    forall h, f: Field :: Token(h, id, f) in after <==>
      if CodeField(code, f) && text.Ok? then HashesBigram(c, h, text.value, idxKey) else Token(h, id, f) in before
  }

  // A whole rebuild of the rows from lo to hi.
  ghost predicate RebuiltByCode(c: Crypto, code: int, encKey: Bytes, idxKey: Bytes, lo: int, hi: int, t0: Tables,
      t: Tables) {
    && t.main.Keys == t0.main.Keys
    && (forall id :: id in t0.main && lo <= id <= hi ==>
        && RowByCode(c, code, encKey, idxKey, t0.main[id], t.main[id])
        && TokensByCode(c, code, encKey, idxKey, t0.main[id], id, t0.inverted, t.inverted))
    && (forall id :: id in t0.main && !(lo <= id <= hi) ==> t.main[id] == t0.main[id])
    && forall x: Token :: !(x.id in t0.main && lo <= x.id <= hi) ==> (x in t.inverted <==> x in t0.inverted)
  }

  // One that was cut short anywhere: it has touched nothing else.
  ghost predicate CutByCode(c: Crypto, code: int, encKey: Bytes, idxKey: Bytes, lo: int, hi: int, t0: Tables,
      t: Tables) {
    && t.main.Keys == t0.main.Keys
    && (forall id :: id in t0.main ==>
        t.main[id] == t0.main[id]
        || (lo <= id <= hi && RowByCode(c, code, encKey, idxKey, t0.main[id], t.main[id])))
    && forall x: Token ::
      (x in t.inverted <==> x in t0.inverted) || (x.id in t0.main && lo <= x.id <= hi && CodeField(code, x.field))
  }

  // A task has something to rewrite in a row exactly when the ciphertext its code names opens.
  lemma TargetIff(c: Crypto, job: Job, id: int, row: Row)
    ensures Target(c, job, id, row) <==> job.lo <= id <= job.hi && Opened(c, CodeCipher(job.code, row), job.encKey).Ok?
    ensures Target(c, job, id, row) ==>
      CodeField(job.code, JobField(job))
      && Text(c, job, row).value == Some(Opened(c, CodeCipher(job.code, row), job.encKey).value)
  {
    OpenedIs(c, [], job.encKey);
  }

  lemma FieldsOfCode(code: int, f: Field)
    ensures CodeField(code, f) <==> FieldOfCode(code) == Some(f)
  {
  }

  lemma RewrittenByCode(c: Crypto, job: Job, id: int, row0: Row, row: Row)
    requires job.lo <= id <= job.hi
    requires row == if Target(c, job, id, row0) then row0.WithBlind(JobField(job), NewBlind(c, job, row0)) else row0
    ensures RowByCode(c, job.code, job.encKey, job.idxKey, row0, row)
  {
    TargetIff(c, job, id, row0);
    FieldsOfCode(job.code, JobField(job));
  }

  lemma TokensRewritten(c: Crypto, job: Job, id: int, row: Row, before: set<Token>, after: set<Token>)
    requires job.lo <= id <= job.hi
    requires forall h, f: Field :: Token(h, id, f) in after <==>
      if f == JobField(job) && Target(c, job, id, row) then Token(h, id, f) in NewTokens(c, job, id, row)
      else Token(h, id, f) in before
    ensures TokensByCode(c, job.code, job.encKey, job.idxKey, row, id, before, after)
  {
    TargetIff(c, job, id, row);
    forall h, f: Field
      ensures Token(h, id, f) in after <==>
        if CodeField(job.code, f) && Opened(c, CodeCipher(job.code, row), job.encKey).Ok?
        then HashesBigram(c, h, Opened(c, CodeCipher(job.code, row), job.encKey).value, job.idxKey)
        else Token(h, id, f) in before
    {
      FieldsOfCode(job.code, f);
      if Target(c, job, id, row) {
        TokenIff(c, Token(h, id, f), id, f, Text(c, job, row).value.value, job.idxKey);
      }
    }
  }

  // ---- A state some prefix of statements of a rebuild of t0 can leave ----

  ghost predicate Between(c: Crypto, job: Job, t0: Tables, t: Tables) {
    && t.main.Keys == t0.main.Keys
    && (forall id :: id in t0.main ==> RowBetween(c, job, t0.main, t.main, id))
    && (forall k: Token :: (k in t.inverted <==> k in t0.inverted) || TokenTouched(c, job, t0.main, k))
  }

  ghost predicate RowBetween(c: Crypto, job: Job, main0: map<int, Row>, main: map<int, Row>, id: int)
    requires id in main0 && id in main
  {
    main[id] == main0[id] ||
    (Target(c, job, id, main0[id]) && main[id] == main0[id].WithBlind(JobField(job), NewBlind(c, job, main0[id])))
  }

  ghost predicate TokenTouched(c: Crypto, job: Job, main0: map<int, Row>, k: Token) {
    k.id in main0 && k.field == JobField(job) && Target(c, job, k.id, main0[k.id])
  }

  // The row's columns and tokens are those of a finished rebuild.
  ghost predicate Done(c: Crypto, job: Job, t0: Tables, t: Tables, id: int)
    requires id in t0.main
  {
    Target(c, job, id, t0.main[id]) ==>
      && id in t.main && t.main[id] == t0.main[id].WithBlind(JobField(job), NewBlind(c, job, t0.main[id]))
      && forall h :: Token(h, id, JobField(job)) in t.inverted <==>
                     Token(h, id, JobField(job)) in NewTokens(c, job, id, t0.main[id])
  }

  ghost predicate DoneUpTo(c: Crypto, job: Job, t0: Tables, t: Tables, upTo: int) {
    forall id :: id in t0.main && job.lo <= id <= upTo ==> Done(c, job, t0, t, id)
  }

  lemma WithBlindTwice(row: Row, f: Field, b: Bytes)
    ensures row.WithBlind(f, b).WithBlind(f, b) == row.WithBlind(f, b)
  {
  }

  // Each statement keeps the state between, and the other rows as they are.
  lemma BlindUpdateKeeps(c: Crypto, job: Job, t0: Tables, t: Tables, id: int)
    requires Between(c, job, t0, t) && id in t0.main && Target(c, job, id, t0.main[id])
    ensures Between(c, job, t0, BlindUpdated(c, job, t, id, t0.main[id]))
    ensures forall k :: k in t0.main && k != id && Done(c, job, t0, t, k) ==>
      Done(c, job, t0, BlindUpdated(c, job, t, id, t0.main[id]), k)
  {
    var t' := BlindUpdated(c, job, t, id, t0.main[id]);
    assert RowBetween(c, job, t0.main, t.main, id);
    WithBlindTwice(t0.main[id], JobField(job), NewBlind(c, job, t0.main[id]));
    forall k | k in t0.main ensures RowBetween(c, job, t0.main, t'.main, k) {
      assert RowBetween(c, job, t0.main, t.main, k);
    }
  }

  lemma TokenDeleteKeeps(c: Crypto, job: Job, t0: Tables, t: Tables, id: int)
    requires Between(c, job, t0, t) && id in t0.main && Target(c, job, id, t0.main[id])
    ensures Between(c, job, t0, TokensDeleted(job, t, id))
    ensures forall k :: k in t0.main && k != id && Done(c, job, t0, t, k) ==>
      Done(c, job, t0, TokensDeleted(job, t, id), k)
  {
  }

  lemma TokenInsertKeeps(c: Crypto, job: Job, t0: Tables, t: Tables, id: int)
    requires Between(c, job, t0, t) && id in t0.main && Target(c, job, id, t0.main[id])
    ensures Between(c, job, t0, TokensInserted(c, job, t, id, t0.main[id]))
    ensures forall k :: k in t0.main && k != id && Done(c, job, t0, t, k) ==>
      Done(c, job, t0, TokensInserted(c, job, t, id, t0.main[id]), k)
  {
    var t' := TokensInserted(c, job, t, id, t0.main[id]);
    assert forall k :: k in NewTokens(c, job, id, t0.main[id]) ==> k.id == id && k.field == JobField(job);
  }

  // The three statements together finish the row.
  lemma RowRebuiltKeeps(c: Crypto, job: Job, t0: Tables, t: Tables, id: int)
    requires Between(c, job, t0, t) && id in t0.main
    ensures Between(c, job, t0, RowRebuilt(c, job, t, id, t0.main[id]))
    ensures Done(c, job, t0, RowRebuilt(c, job, t, id, t0.main[id]), id)
    ensures forall k :: k in t0.main && Done(c, job, t0, t, k) ==>
      Done(c, job, t0, RowRebuilt(c, job, t, id, t0.main[id]), k)
  {
    if Target(c, job, id, t0.main[id]) {
      var t1 := BlindUpdated(c, job, t, id, t0.main[id]);
      var t2 := TokensDeleted(job, t1, id);
      BlindUpdateKeeps(c, job, t0, t, id);
      TokenDeleteKeeps(c, job, t0, t1, id);
      TokenInsertKeeps(c, job, t0, t2, id);
      RowIsDone(c, job, t0, t, id);
    }
  }

  lemma RowIsDone(c: Crypto, job: Job, t0: Tables, t: Tables, id: int)
    requires Between(c, job, t0, t) && id in t0.main && Target(c, job, id, t0.main[id])
    ensures Done(c, job, t0, RowRebuilt(c, job, t, id, t0.main[id]), id)
  {
    assert RowBetween(c, job, t0.main, t.main, id);
    WithBlindTwice(t0.main[id], JobField(job), NewBlind(c, job, t0.main[id]));
  }

  // A finished state between is determined by where it started.
  lemma DoneIsUnique(c: Crypto, job: Job, t0: Tables, a: Tables, b: Tables)
    requires Between(c, job, t0, a) && Between(c, job, t0, b)
    requires DoneUpTo(c, job, t0, a, job.hi) && DoneUpTo(c, job, t0, b, job.hi)
    ensures a == b
  {
    forall id | id in t0.main ensures a.main[id] == b.main[id] {
      assert RowBetween(c, job, t0.main, a.main, id) && RowBetween(c, job, t0.main, b.main, id);
      if Target(c, job, id, t0.main[id]) {
        assert Done(c, job, t0, a, id) && Done(c, job, t0, b, id);
      }
    }
    assert a.main == b.main;
    forall k: Token ensures k in a.inverted <==> k in b.inverted {
      if TokenTouched(c, job, t0.main, k) {
        assert Done(c, job, t0, a, k.id) && Done(c, job, t0, b, k.id);
        assert k == Token(k.hash, k.id, JobField(job));
      }
    }
    assert a.inverted == b.inverted;
  }

  lemma {:induction false} PassIsDone(c: Crypto, job: Job, t: Tables, ids: seq<int>)
    requires forall i :: 0 <= i < |ids| ==> ids[i] in t.main
    ensures Between(c, job, t, Pass(c, job, t, ids))
    ensures forall i :: 0 <= i < |ids| ==> Done(c, job, t, Pass(c, job, t, ids), ids[i])
  {
    if ids == [] {
      assert forall id :: id in t.main ==> RowBetween(c, job, t.main, t.main, id);
    } else {
      var n := |ids| - 1;
      var before := Pass(c, job, t, ids[..n]);
      PassIsDone(c, job, t, ids[..n]);
      RowRebuiltKeeps(c, job, t, before, ids[n]);
      forall i | 0 <= i < n ensures Done(c, job, t, Pass(c, job, t, ids), ids[i]) {
        assert ids[..n][i] == ids[i] && Done(c, job, t, before, ids[i]);
      }
    }
  }

  lemma FullPassIsDone(c: Crypto, job: Job, t: Tables)
    ensures Between(c, job, t, FullPass(c, job, t))
    ensures DoneUpTo(c, job, t, FullPass(c, job, t), job.hi)
  {
    var s := RowsInOrder(t.main, job.lo, job.hi);
    PassIsDone(c, job, t, s);
    forall id | id in t.main && job.lo <= id <= job.hi ensures Done(c, job, t, FullPass(c, job, t), id) {
      assert id in s;
    }
  }

  // What the two states are, by the task's code.
  lemma PassByCode(c: Crypto, job: Job, t: Tables)
    ensures RebuiltByCode(c, job.code, job.encKey, job.idxKey, job.lo, job.hi, t, FullPass(c, job, t))
  {
    var t' := FullPass(c, job, t);
    FullPassIsDone(c, job, t);
    forall id | id in t.main && job.lo <= id <= job.hi
      ensures RowByCode(c, job.code, job.encKey, job.idxKey, t.main[id], t'.main[id])
      ensures TokensByCode(c, job.code, job.encKey, job.idxKey, t.main[id], id, t.inverted, t'.inverted)
    {
      DoneByCode(c, job, t, t', id);
    }
    forall id | id in t.main && !(job.lo <= id <= job.hi) ensures t'.main[id] == t.main[id] {
      assert RowBetween(c, job, t.main, t'.main, id);
    }
  }

  lemma DoneByCode(c: Crypto, job: Job, t0: Tables, t: Tables, id: int)
    requires Between(c, job, t0, t) && id in t0.main && job.lo <= id <= job.hi && Done(c, job, t0, t, id)
    ensures RowByCode(c, job.code, job.encKey, job.idxKey, t0.main[id], t.main[id])
    ensures TokensByCode(c, job.code, job.encKey, job.idxKey, t0.main[id], id, t0.inverted, t.inverted)
  {
    assert RowBetween(c, job, t0.main, t.main, id);
    RewrittenByCode(c, job, id, t0.main[id], t.main[id]);
    forall h, f: Field
      ensures Token(h, id, f) in t.inverted <==>
        if f == JobField(job) && Target(c, job, id, t0.main[id])
        then Token(h, id, f) in NewTokens(c, job, id, t0.main[id])
        else Token(h, id, f) in t0.inverted
    {
      assert TokenTouched(c, job, t0.main, Token(h, id, f)) <==> f == JobField(job) && Target(c, job, id, t0.main[id]);
    }
    TokensRewritten(c, job, id, t0.main[id], t0.inverted, t.inverted);
  }

  lemma BetweenByCode(c: Crypto, job: Job, t0: Tables, t: Tables)
    requires Between(c, job, t0, t)
    ensures CutByCode(c, job.code, job.encKey, job.idxKey, job.lo, job.hi, t0, t)
  {
    forall id | id in t0.main && t.main[id] != t0.main[id]
      ensures job.lo <= id <= job.hi && RowByCode(c, job.code, job.encKey, job.idxKey, t0.main[id], t.main[id])
    {
      assert RowBetween(c, job, t0.main, t.main, id);
      RewrittenByCode(c, job, id, t0.main[id], t.main[id]);
    }
    forall x: Token | TokenTouched(c, job, t0.main, x)
      ensures job.lo <= x.id <= job.hi && CodeField(job.code, x.field)
    {
      TargetIff(c, job, x.id, t0.main[x.id]);
    }
  }

  // Any finished interleaving of interrupted attempts equals one uninterrupted pass.
  lemma FinishedIsFullPass(c: Crypto, job: Job, t0: Tables, t: Tables)
    requires Between(c, job, t0, t) && DoneUpTo(c, job, t0, t, job.hi)
    ensures t == FullPass(c, job, t0)
  {
    FullPassIsDone(c, job, t0);
    DoneIsUnique(c, job, t0, t, FullPass(c, job, t0));
  }

  // ---- What a rebuild makes of a row ----

  // Reading the row with the job's key fails or gives the last written value.
  ghost predicate SafeRow(c: Crypto, job: Job, row: Row, data: Plain) {
    Text(c, job, row).Ok? && Text(c, job, row).value.Some? ==>
      Text(c, job, row).value.value == data.Get(JobField(job))
  }

  // Rows at the current encryption version are safe.
  lemma CurrentRowsAreSafe(c: Crypto, job: Job, enc: KeyRing, row: Row, data: Plain)
    requires RowOpens(c, enc, row, data)
    requires enc.current in enc.infos && row.encVersion == enc.current && job.encKey == enc.infos[enc.current].key
    ensures SafeRow(c, job, row, data)
    ensures Good(c, job, row)
  {
    var f := JobField(job);
    assert Opened(c, row.Get(f).cipher, job.encKey) == Ok(data.Get(f));
  }

  ghost predicate SafeJob(c: Crypto, job: Job, main: map<int, Row>, plain: map<int, Plain>)
    requires main.Keys == plain.Keys
  {
    forall id :: id in main && job.lo <= id <= job.hi ==> SafeRow(c, job, main[id], plain[id])
  }

  // The job hashes with a key the queries know.
  ghost predicate KnownIndexKey(job: Job, idx: KeyRing) {
    exists v :: v in idx.infos && idx.infos[v].key == job.idxKey
  }

  // The fields a rebuild rewrites from the last written value, and those it rewrites from
  // something else.
  function RightFields(c: Crypto, job: Job, main: map<int, Row>, plain: map<int, Plain>): set<(int, Field)> {
    set id | id in main && id in plain && Target(c, job, id, main[id])
             && Text(c, job, main[id]).value.value == plain[id].Get(JobField(job)) :: (id, JobField(job))
  }

  function WrongFields(c: Crypto, job: Job, main: map<int, Row>, plain: map<int, Plain>): set<(int, Field)> {
    set id | id in main && id in plain && Target(c, job, id, main[id])
             && Text(c, job, main[id]).value.value != plain[id].Get(JobField(job)) :: (id, JobField(job))
  }

  lemma NothingWrongIff(c: Crypto, job: Job, main: map<int, Row>, plain: map<int, Plain>)
    requires main.Keys == plain.Keys
    ensures WrongFields(c, job, main, plain) == {} <==> SafeJob(c, job, main, plain)
  {
    if WrongFields(c, job, main, plain) == {} {
      forall id | id in main && job.lo <= id <= job.hi ensures SafeRow(c, job, main[id], plain[id]) {
        assert (id, JobField(job)) !in WrongFields(c, job, main, plain);
      }
    }
    if SafeJob(c, job, main, plain) {
      forall id | id in main && id in plain && Target(c, job, id, main[id])
        ensures Text(c, job, main[id]).value.value == plain[id].Get(JobField(job))
      {
        assert SafeRow(c, job, main[id], plain[id]);
      }
    }
  }

  // What a blind index was computed from.
  datatype Source = Source(text: Bytes, key: Bytes)

  // The blind index of the field is the hash of another text.
  ghost predicate WrongBlind(c: Crypto, row: Row, data: Plain, f: Field, source: Source) {
    row.Get(f).blind == HmacHex(c, source.text, source.key) && source.text != data.Get(f)
  }

  // What the job computes blind indexes from.
  function WrongSources(c: Crypto, job: Job, main: map<int, Row>, wrong: set<(int, Field)>): map<(int, Field), Source> {
    map e | e in wrong :: SourceOf(c, job, main, e.0)
  }

  function SourceOf(c: Crypto, job: Job, main: map<int, Row>, id: int): Source {
    if id in main && Target(c, job, id, main[id]) then Source(Text(c, job, main[id]).value.value, job.idxKey)
    else Source([], [])
  }

  lemma RowBetweenSame(c: Crypto, job: Job, main0: map<int, Row>, main: map<int, Row>, id: int)
    requires id in main0 && id in main && RowBetween(c, job, main0, main, id)
    ensures main[id].encVersion == main0[id].encVersion
    ensures forall g: Field :: main[id].Get(g).cipher == main0[id].Get(g).cipher
    ensures forall g: Field :: main[id].Get(g).tag == main0[id].Get(g).tag
    ensures forall g: Field :: g != JobField(job) ==> main[id].Get(g) == main0[id].Get(g)
    ensures !Target(c, job, id, main0[id]) ==> main[id] == main0[id]
  {
  }

  lemma SameRead(c: Crypto, keys: KeyState, id: int, a: Row, b: Row, fallback: Bytes)
    requires a.encVersion == b.encVersion
    requires forall g: Field :: a.Get(g).cipher == b.Get(g).cipher && a.Get(g).tag == b.Get(g).tag
    ensures FullRow(c, keys, id, a, fallback) == FullRow(c, keys, id, b, fallback)
  {
    forall g: Field ensures FieldValue(c, keys, id, a, g, fallback) == FieldValue(c, keys, id, b, g, fallback) {
      assert RecordOf(id, a, g) == RecordOf(id, b, g);
    }
  }

  // A field reads, opens and fits as before at every intermediate statement.
  lemma BetweenKeepsRow(c: Crypto, job: Job, enc: KeyRing, main0: map<int, Row>, main: map<int, Row>, id: int,
      data: Plain)
    requires id in main0 && id in main && RowBetween(c, job, main0, main, id)
    ensures RowOpens(c, enc, main[id], data) <==> RowOpens(c, enc, main0[id], data)
    ensures Sized(main[id], data) <==> Sized(main0[id], data)
    ensures Readable(main[id]) <==> Readable(main0[id])
  {
    RowBetweenSame(c, job, main0, main, id);
    SameCiphersReadable(main[id], main0[id]);
  }

  lemma SameCiphersReadable(a: Row, b: Row)
    requires forall f: Field :: a.Get(f).cipher == b.Get(f).cipher
    ensures Readable(a) <==> Readable(b)
  {
    assert a.Get(Name) == a.name && a.Get(Phone) == a.phone && a.Get(Address) == a.address;
    assert b.Get(Name) == b.name && b.Get(Phone) == b.phone && b.Get(Address) == b.address;
  }

  // A rewritten blind index is known when the text was right, and wrong when it was not.
  lemma RewrittenBlind(c: Crypto, job: Job, idx: KeyRing, main0: map<int, Row>, main: map<int, Row>, id: int,
      data: Plain)
    requires id in main0 && id in main && Target(c, job, id, main0[id]) && KnownIndexKey(job, idx)
    requires main[id] == main0[id].WithBlind(JobField(job), NewBlind(c, job, main0[id]))
    ensures
      var text := Text(c, job, main0[id]).value.value;
      if text == data.Get(JobField(job)) then BlindKnown(c, idx, main[id], data, JobField(job))
      else WrongBlind(c, main[id], data, JobField(job), SourceOf(c, job, main0, id))
  {
    var text := Text(c, job, main0[id]).value.value;
    var v :| v in idx.infos && idx.infos[v].key == job.idxKey;
    assert main[id].Get(JobField(job)).blind == HmacHex(c, text, job.idxKey);
    assert main[id].Get(JobField(job)).blind == HmacHex(c, text, idx.infos[v].key);
  }

  // A finished rebuild covers a field it rewrote from the right text...
  lemma RightIsCovered(c: Crypto, job: Job, idx: KeyRing, t0: Tables, t: Tables, data: Plain, id: int)
    requires id in t0.main && Target(c, job, id, t0.main[id]) && Done(c, job, t0, t, id) && KnownIndexKey(job, idx)
    requires Text(c, job, t0.main[id]).value.value == data.Get(JobField(job))
    ensures Covered(c, idx, t.inverted, id, data, JobField(job))
  {
    var f := JobField(job);
    var v :| v in idx.infos && idx.infos[v].key == job.idxKey;
    forall k | k in TokensFor(c, id, f, data.Get(f), idx.infos[v].key) ensures k in t.inverted {
      assert k == Token(k.hash, id, f);
    }
  }

  // ... and leaves the tokens of the fields it does not rewrite alone.
  lemma UntouchedStaysCovered(c: Crypto, job: Job, idx: KeyRing, t0: Tables, t: Tables, data: Plain, id: int, f: Field)
    requires Between(c, job, t0, t) && id in t0.main && !(f == JobField(job) && Target(c, job, id, t0.main[id]))
    requires Covered(c, idx, t0.inverted, id, data, f)
    ensures Covered(c, idx, t.inverted, id, data, f)
  {
    var v :| v in idx.infos && TokensFor(c, id, f, data.Get(f), idx.infos[v].key) <= t0.inverted;
    forall k | k in TokensFor(c, id, f, data.Get(f), idx.infos[v].key) ensures k in t.inverted {
      assert !TokenTouched(c, job, t0.main, k);
    }
  }

  // ---- Search over states between ----

  // The rows still read back.
  lemma BetweenStaysRead(c: Crypto, job: Job, keys: KeyState, t0: Tables, t: Tables, plain: map<int, Plain>,
      fallback: Bytes)
    requires Reads(c, keys, t0.main, plain, fallback) && Between(c, job, t0, t)
    ensures Reads(c, keys, t.main, plain, fallback)
    ensures AllReadable(t0.main) ==> AllReadable(t.main)
  {
    forall id | id in t.main
      ensures FullRow(c, keys, id, t.main[id], fallback) == Ok(TrueRecord(t.main, plain, id))
      ensures Readable(t.main[id]) <==> Readable(t0.main[id])
    {
      assert RowBetween(c, job, t0.main, t.main, id);
      RowBetweenSame(c, job, t0.main, t.main, id);
      SameCiphersReadable(t.main[id], t0.main[id]);
      SameRead(c, keys, id, t.main[id], t0.main[id], fallback);
    }
  }

  // The blind index of a field stays known at every statement, unless the field is rewritten
  // from another text.
  lemma BetweenStaysKnown(c: Crypto, job: Job, idx: KeyRing, t0: Tables, t: Tables, plain: map<int, Plain>, id: int,
      f: Field)
    requires t0.main.Keys == plain.Keys && Between(c, job, t0, t) && KnownIndexKey(job, idx) && id in t0.main
    requires BlindKnown(c, idx, t0.main[id], plain[id], f) && SafeRow(c, job, t0.main[id], plain[id])
    ensures BlindKnown(c, idx, t.main[id], plain[id], f)
  {
    assert RowBetween(c, job, t0.main, t.main, id);
    RowBetweenSame(c, job, t0.main, t.main, id);
    if t.main[id] != t0.main[id] && f == JobField(job) {
      RewrittenBlind(c, job, idx, t0.main, t.main, id, plain[id]);
    } else {
      assert t.main[id].Get(f) == t0.main[id].Get(f);
    }
  }

  // A safe rebuild, finished or cut anywhere, changes the answer of no exact query.
  lemma SafeRebuildKeepsExactSearch(c: Crypto, job: Job, keys: KeyState, t0: Tables, t: Tables, plain: map<int, Plain>,
      f: Field, keyword: Bytes, fallback: Bytes)
    requires Reads(c, keys, t0.main, plain, fallback) && AllReadable(t0.main)
    requires IndexIntact(c, keys.idx, t0.main, plain)
    requires Between(c, job, t0, t) && SafeJob(c, job, t0.main, plain) && KnownIndexKey(job, keys.idx) && |keyword| >= 2
    ensures ExactAnswer(c, keys, t, f, keyword, fallback) == ExactAnswer(c, keys, t0, f, keyword, fallback)
  {
    BetweenStaysRead(c, job, keys, t0, t, plain, fallback);
    SameScan(c, job, t0, t, plain, Equals(f, keyword));
    forall id | id in t.main && plain[id].Get(f) == keyword ensures BlindKnown(c, keys.idx, t.main[id], plain[id], f) {
      assert BlindKnown(c, keys.idx, t0.main[id], plain[id], f);
      KnownAfterJob(c, job, keys.idx, t0, t, plain, id, f);
    }
    ExactQueryIff(c, keys, t0, plain, f, keyword, fallback);
    ExactQueryIff(c, keys, t, plain, f, keyword, fallback);
  }

  lemma KnownAfterJob(c: Crypto, job: Job, idx: KeyRing, t0: Tables, t: Tables, plain: map<int, Plain>, id: int,
      f: Field)
    requires t0.main.Keys == plain.Keys && Between(c, job, t0, t) && KnownIndexKey(job, idx) && id in t0.main
    requires BlindKnown(c, idx, t0.main[id], plain[id], f) && SafeJob(c, job, t0.main, plain)
    ensures BlindKnown(c, idx, t.main[id], plain[id], f)
  {
    assert RowBetween(c, job, t0.main, t.main, id);
    if job.lo <= id <= job.hi {
      BetweenStaysKnown(c, job, idx, t0, t, plain, id, f);
    } else {
      assert t.main[id] == t0.main[id];
    }
  }

  // No known hash of one text is a known hash of the other.
  ghost predicate HashesApart(c: Crypto, idx: KeyRing, a: Bytes, b: Bytes) {
    forall v, u :: v in idx.infos && u in idx.infos ==>
      HmacHex(c, a, idx.infos[v].key) != HmacHex(c, b, idx.infos[u].key)
  }

  // A row whose blind index is known is a candidate for its value, and for other keywords only
  // by a collision.
  lemma KnownCandidateIff(c: Crypto, keys: KeyState, main: map<int, Row>, data: Plain, f: Field, keyword: Bytes,
      id: int)
    requires id in main && BlindKnown(c, keys.idx, main[id], data, f)
    requires data.Get(f) == keyword || HashesApart(c, keys.idx, data.Get(f), keyword)
    ensures id in ExactIds(c, keys, main, f, keyword) <==> data.Get(f) == keyword
  {
    var v :| v in keys.idx.infos && main[id].Get(f).blind == HmacHex(c, data.Get(f), keys.idx.infos[v].key);
    assert data.Get(f) == keyword ==> main[id].Get(f).blind in ExactHashes(c, keys.idx, keyword);
  }

  // Rows that overflow the buffers or do not read back make no difference to this: where the
  // keyword collides with no other stored value, a safe rebuild of a field with known blind
  // indexes leaves its exact answer as it was.
  lemma SafeRebuildKeepsEveryExactAnswer(c: Crypto, job: Job, keys: KeyState, t0: Tables, t: Tables,
      plain: map<int, Plain>, f: Field, keyword: Bytes, fallback: Bytes)
    requires KnownIndexKey(job, keys.idx) && t0.main.Keys == plain.Keys
    requires Between(c, job, t0, t) && SafeJob(c, job, t0.main, plain)
    requires forall id :: id in t0.main ==> BlindKnown(c, keys.idx, t0.main[id], plain[id], f)
    requires forall id :: id in t0.main ==>
      plain[id].Get(f) == keyword || HashesApart(c, keys.idx, plain[id].Get(f), keyword)
    ensures ExactAnswer(c, keys, t, f, keyword, fallback) == ExactAnswer(c, keys, t0, f, keyword, fallback)
  {
    var ids, ids0 := ExactIds(c, keys, t.main, f, keyword), ExactIds(c, keys, t0.main, f, keyword);
    forall id ensures id in ids <==> id in ids0 {
      if id in t0.main {
        KnownAfterJob(c, job, keys.idx, t0, t, plain, id, f);
        KnownCandidateIff(c, keys, t0.main, plain[id], f, keyword, id);
        KnownCandidateIff(c, keys, t.main, plain[id], f, keyword, id);
      }
    }
    assert ids == ids0;
    BetweenFetchesSame(c, job, keys, t0, t, ids, fallback);
  }

  // What a query fetches, and what it decrypts to, is the same at every statement.
  lemma BetweenFetchesSame(c: Crypto, job: Job, keys: KeyState, t0: Tables, t: Tables, ids: set<int>, fallback: Bytes)
    requires Between(c, job, t0, t)
    ensures FetchFullRecords(c, keys, t.main, ids, fallback) == FetchFullRecords(c, keys, t0.main, ids, fallback)
  {
    forall id | id in t0.main
      ensures Readable(t.main[id]) <==> Readable(t0.main[id])
      ensures FullRow(c, keys, id, t.main[id], fallback) == FullRow(c, keys, id, t0.main[id], fallback)
    {
      assert RowBetween(c, job, t0.main, t.main, id);
      RowBetweenSame(c, job, t0.main, t.main, id);
      SameCiphersReadable(t.main[id], t0.main[id]);
      SameRead(c, keys, id, t.main[id], t0.main[id], fallback);
    }
    SameRowsSameFetch(c, keys, t0.main, t.main, ids, fallback);
  }

  lemma SameRowsSameFetch(c: Crypto, keys: KeyState, main0: map<int, Row>, main: map<int, Row>, ids: set<int>,
      fallback: Bytes)
    requires main.Keys == main0.Keys
    requires forall id :: id in main0 ==> (Readable(main[id]) <==> Readable(main0[id]))
    requires forall id :: id in main0 ==>
      FullRow(c, keys, id, main[id], fallback) == FullRow(c, keys, id, main0[id], fallback)
    ensures FetchFullRecords(c, keys, main, ids, fallback) == FetchFullRecords(c, keys, main0, ids, fallback)
  {
    FetchedOrdered(main, ids);
    FetchedOrdered(main0, ids);
    forall id ensures id in Fetched(main, ids) <==> id in Fetched(main0, ids) {
      FetchedIff(main, ids, id);
      FetchedIff(main0, ids, id);
    }
    AscendingUnique(Fetched(main, ids), Fetched(main0, ids));
    SameFullRows(c, keys, main0, main, Fetched(main, ids), fallback);
  }

  lemma {:induction false} SameFullRows(c: Crypto, keys: KeyState, main0: map<int, Row>, main: map<int, Row>,
      ids: seq<int>, fallback: Bytes)
    requires forall i :: 0 <= i < |ids| ==> ids[i] in main && ids[i] in main0
    requires forall i :: 0 <= i < |ids| ==>
      FullRow(c, keys, ids[i], main[ids[i]], fallback) == FullRow(c, keys, ids[i], main0[ids[i]], fallback)
    ensures FullRows(c, keys, main, ids, fallback) == FullRows(c, keys, main0, ids, fallback)
  {
    if ids != [] {
      SameFullRows(c, keys, main0, main, ids[..|ids| - 1], fallback);
    }
  }

  // A completed safe rebuild changes the answer of no fuzzy query over a covered store
  // with a distinct-hash keyword either.
  lemma SafeRebuildKeepsFuzzySearch(c: Crypto, job: Job, keys: KeyState, t: Tables, plain: map<int, Plain>,
      f: Field, keyword: Bytes, fallback: Bytes)
    requires Reads(c, keys, t.main, plain, fallback) && AllReadable(t.main) && AllCovered(c, keys.idx, t, plain)
    requires SafeJob(c, job, t.main, plain) && KnownIndexKey(job, keys.idx)
    requires |keyword| >= 2 && DistinctHashes(c, keys.idx, keyword)
    ensures FuzzyAnswer(c, keys, FullPass(c, job, t), f, keyword, fallback)
       == FuzzyAnswer(c, keys, t, f, keyword, fallback)
  {
    var t' := FullPass(c, job, t);
    FullPassIsDone(c, job, t);
    BetweenStaysRead(c, job, keys, t, t', plain, fallback);
    SameScan(c, job, t, t', plain, Holds(f, keyword));
    forall id | id in t'.main ensures Covered(c, keys.idx, t'.inverted, id, plain[id], f) {
      assert Covered(c, keys.idx, t.inverted, id, plain[id], f);
      SafeFullPassCovers(c, job, keys.idx, t, plain, id, f);
    }
    FuzzyIsScan(c, keys, t, plain, f, keyword, fallback);
    FuzzyIsScan(c, keys, t', plain, f, keyword, fallback);
  }

  // Where rows may overflow the buffers, it leaves the answer as it was exactly when it hides no
  // row with the keyword from the fetch loop, and uncovers none: all of them are candidates
  // before and after, so only other candidates that overflow can make a difference.
  lemma SafeRebuildFuzzyIff(c: Crypto, job: Job, keys: KeyState, t: Tables, plain: map<int, Plain>,
      f: Field, keyword: Bytes, fallback: Bytes)
    requires Reads(c, keys, t.main, plain, fallback) && AllCovered(c, keys.idx, t, plain)
    requires SafeJob(c, job, t.main, plain) && KnownIndexKey(job, keys.idx)
    requires |keyword| >= 2 && DistinctHashes(c, keys.idx, keyword)
    ensures
      var ids := FuzzyIds(c, keys, t.inverted, f, keyword);
      var ids' := FuzzyIds(c, keys, FullPass(c, job, t).inverted, f, keyword);
      FuzzyAnswer(c, keys, FullPass(c, job, t), f, keyword, fallback)
        == FuzzyAnswer(c, keys, t, f, keyword, fallback) <==>
      forall id :: id in t.main && Contains(plain[id].Get(f), keyword) ==>
        (ReachedIn(t.main, ids, id) <==> ReachedIn(t.main, ids', id))
  {
    var t' := FullPass(c, job, t);
    FullPassIsDone(c, job, t);
    SafeRebuildFoundIff(c, job, keys, t, plain, f, keyword);
    SameAnswerIff(c, job, keys, t, t', plain, f, keyword, fallback);
  }

  // Two answers are the same exactly when the same rows are found.
  lemma SameAnswerIff(c: Crypto, job: Job, keys: KeyState, t: Tables, t': Tables, plain: map<int, Plain>,
      f: Field, keyword: Bytes, fallback: Bytes)
    requires Reads(c, keys, t.main, plain, fallback) && Between(c, job, t, t')
    ensures t'.main.Keys == plain.Keys
    ensures FuzzyAnswer(c, keys, t', f, keyword, fallback) == FuzzyAnswer(c, keys, t, f, keyword, fallback) <==>
            FoundIds(c, keys, t', plain, f, keyword) == FoundIds(c, keys, t, plain, f, keyword)
  {
    BetweenStaysRead(c, job, keys, t, t', plain, fallback);
    FuzzyAnswerFound(c, keys, t, plain, f, keyword, fallback);
    FuzzyAnswerFound(c, keys, t', plain, f, keyword, fallback);
    SameList(c, job, t, t', plain, FoundIds(c, keys, t', plain, f, keyword));
    SameListIff(t.main, plain, FoundIds(c, keys, t', plain, f, keyword),
                plain, FoundIds(c, keys, t, plain, f, keyword));
  }

  lemma SafeRebuildFoundIff(c: Crypto, job: Job, keys: KeyState, t: Tables, plain: map<int, Plain>,
      f: Field, keyword: Bytes)
    requires t.main.Keys == plain.Keys && AllCovered(c, keys.idx, t, plain)
    requires SafeJob(c, job, t.main, plain) && KnownIndexKey(job, keys.idx)
    requires |keyword| >= 2 && DistinctHashes(c, keys.idx, keyword)
    ensures FullPass(c, job, t).main.Keys == plain.Keys
    ensures
      var ids := FuzzyIds(c, keys, t.inverted, f, keyword);
      var ids' := FuzzyIds(c, keys, FullPass(c, job, t).inverted, f, keyword);
      FoundIds(c, keys, FullPass(c, job, t), plain, f, keyword) == FoundIds(c, keys, t, plain, f, keyword) <==>
      forall id :: id in t.main && Contains(plain[id].Get(f), keyword) ==>
        (ReachedIn(t.main, ids, id) <==> ReachedIn(t.main, ids', id))
  {
    var t' := FullPass(c, job, t);
    FullPassIsDone(c, job, t);
    var ids' := FuzzyIds(c, keys, t'.inverted, f, keyword);
    forall id
      ensures id in FoundIds(c, keys, t, plain, f, keyword) <==>
              id in t.main && Contains(plain[id].Get(f), keyword)
              && ReachedIn(t.main, FuzzyIds(c, keys, t.inverted, f, keyword), id)
      ensures id in FoundIds(c, keys, t', plain, f, keyword) <==>
              id in t.main && Contains(plain[id].Get(f), keyword) && ReachedIn(t.main, ids', id)
    {
      if id in t.main {
        assert Covered(c, keys.idx, t.inverted, id, plain[id], f);
        SafeFullPassCovers(c, job, keys.idx, t, plain, id, f);
      }
      FoundIff(c, keys, t, plain, f, keyword, id);
      FoundIff(c, keys, t', plain, f, keyword, id);
      SameReach(c, job, t, t', ids', id);
    }
  }

  // A covered row is found exactly when it contains the keyword and is reached.
  lemma FoundIff(c: Crypto, keys: KeyState, t: Tables, plain: map<int, Plain>, f: Field, keyword: Bytes, id: int)
    requires t.main.Keys == plain.Keys && |keyword| >= 2 && DistinctHashes(c, keys.idx, keyword)
    requires id in t.main ==> Covered(c, keys.idx, t.inverted, id, plain[id], f)
    ensures id in FoundIds(c, keys, t, plain, f, keyword) <==>
            id in t.main && Contains(plain[id].Get(f), keyword)
            && ReachedIn(t.main, FuzzyIds(c, keys, t.inverted, f, keyword), id)
  {
    FetchedIff(t.main, FuzzyIds(c, keys, t.inverted, f, keyword), id);
    MatchesContain(t.main, plain, f, keyword, id);
    if id in t.main && Contains(plain[id].Get(f), keyword) {
      CoveredIsFound(c, keys, t.inverted, id, plain[id], f, keyword);
    }
  }

  lemma SameReach(c: Crypto, job: Job, t: Tables, t': Tables, ids: set<int>, id: int)
    requires Between(c, job, t, t')
    ensures ReachedIn(t.main, ids, id) <==> ReachedIn(t'.main, ids, id)
  {
    forall j | j in t.main ensures Readable(t.main[j]) <==> Readable(t'.main[j]) {
      assert RowBetween(c, job, t.main, t'.main, j);
      RowBetweenSame(c, job, t.main, t'.main, j);
      SameCiphersReadable(t'.main[j], t.main[j]);
    }
  }

  lemma SameList(c: Crypto, job: Job, t: Tables, t': Tables, plain: map<int, Plain>, ids: set<int>)
    requires t.main.Keys == plain.Keys && Between(c, job, t, t') && ids <= t.main.Keys
    ensures ids <= t'.main.Keys && ListOf(t'.main, plain, ids) == ListOf(t.main, plain, ids)
  {
    forall id | id in t.main ensures id in t'.main && TrueRecord(t.main, plain, id) == TrueRecord(t'.main, plain, id) {
      assert RowBetween(c, job, t.main, t'.main, id);
    }
    var s := Ascending(ids);
    forall i | 0 <= i < |s| ensures s[i] in t.main {
      assert s[i] in s;
    }
  }

  // A finished safe rebuild leaves covered rows covered.
  lemma SafeFullPassCovers(c: Crypto, job: Job, idx: KeyRing, t: Tables, plain: map<int, Plain>, id: int, f: Field)
    requires t.main.Keys == plain.Keys && SafeJob(c, job, t.main, plain) && KnownIndexKey(job, idx)
    requires id in t.main && Covered(c, idx, t.inverted, id, plain[id], f)
    ensures Covered(c, idx, FullPass(c, job, t).inverted, id, plain[id], f)
  {
    var t' := FullPass(c, job, t);
    FullPassIsDone(c, job, t);
    if f == JobField(job) && Target(c, job, id, t.main[id]) {
      assert SafeRow(c, job, t.main[id], plain[id]) && Done(c, job, t, t', id);
      RightIsCovered(c, job, idx, t, t', plain[id], id);
    } else {
      UntouchedStaysCovered(c, job, idx, t, t', plain[id], id, f);
    }
  }

  // The scan depends on the values and versions only.
  lemma SameScan(c: Crypto, job: Job, t: Tables, t': Tables, plain: map<int, Plain>, p: FullRecord -> bool)
    requires t.main.Keys == plain.Keys && Between(c, job, t, t')
    ensures Scan(t.main, plain, p) == Scan(t'.main, plain, p)
  {
    forall id | id in t.main ensures TrueRecord(t.main, plain, id) == TrueRecord(t'.main, plain, id) {
      assert RowBetween(c, job, t.main, t'.main, id);
    }
    assert Matches(plain, p, t.main) == Matches(plain, p, t'.main);
    var s := Ascending(Matches(plain, p, t.main));
    forall i | 0 <= i < |s|
      ensures s[i] in t.main && TrueRecord(t.main, plain, s[i]) == TrueRecord(t'.main, plain, s[i])
    {
      assert s[i] in s;
    }
  }

  // ---- Unsafe rebuilds ----

  // No row of the range whose value can be asked for is rewritten from another text.
  ghost predicate SafeForSearch(c: Crypto, job: Job, main: map<int, Row>, plain: map<int, Plain>)
    requires main.Keys == plain.Keys
  {
    forall id :: id in main && job.lo <= id <= job.hi && |plain[id].Get(JobField(job))| >= 2 ==>
      SafeRow(c, job, main[id], plain[id])
  }

  // What the job writes is a hash of the value under some known version: the value itself was
  // opened, or the hash collides.
  ghost predicate Reindexed(c: Crypto, job: Job, idx: KeyRing, row: Row, data: Plain)
    requires Text(c, job, row).Ok? && Text(c, job, row).value.Some?
  {
    NewBlind(c, job, row) in ExactHashes(c, idx, data.Get(JobField(job)))
  }

  // After a full pass the field's blind index is known exactly when what was written is a hash
  // of the value, or nothing was written and it was known before.
  lemma RebuiltBlindIff(c: Crypto, job: Job, idx: KeyRing, t: Tables, plain: map<int, Plain>, id: int, f: Field)
    requires t.main.Keys == plain.Keys && id in t.main
    ensures id in FullPass(c, job, t).main
    ensures BlindKnown(c, idx, FullPass(c, job, t).main[id], plain[id], f) <==>
            RebuiltKnown(c, job, idx, t.main, plain, id, f)
  {
    var t' := FullPass(c, job, t);
    FullPassIsDone(c, job, t);
    assert RowBetween(c, job, t.main, t'.main, id);
    RowBetweenSame(c, job, t.main, t'.main, id);
    if f == JobField(job) && Target(c, job, id, t.main[id]) {
      assert Done(c, job, t, t', id);
      assert t'.main[id].Get(f).blind == NewBlind(c, job, t.main[id]);
    } else {
      assert t'.main[id].Get(f) == t.main[id].Get(f);
    }
  }

  ghost predicate RebuiltKnown(c: Crypto, job: Job, idx: KeyRing, main: map<int, Row>, plain: map<int, Plain>, id: int,
      f: Field)
    requires id in main && id in plain
  {
    if f == JobField(job) && Target(c, job, id, main[id]) then Reindexed(c, job, idx, main[id], plain[id])
    else BlindKnown(c, idx, main[id], plain[id], f)
  }

  // The blind indexes a rebuild leaves are right for all values one can ask for.
  ghost predicate RebuiltIntact(c: Crypto, job: Job, idx: KeyRing, main: map<int, Row>, plain: map<int, Plain>)
    requires main.Keys == plain.Keys
  {
    forall id, f: Field :: id in main && |plain[id].Get(f)| >= 2 ==> RebuiltKnown(c, job, idx, main, plain, id, f)
  }

  // The text that the job opened, if it is not the value, does not collide with it: its hash is
  // no known hash of the value.
  ghost predicate OpenedApart(c: Crypto, job: Job, idx: KeyRing, row: Row, data: Plain) {
    Text(c, job, row).Ok? && Text(c, job, row).value.Some? ==>
      Text(c, job, row).value.value == data.Get(JobField(job)) || !Reindexed(c, job, idx, row, data)
  }

  ghost predicate AllOpenedApart(c: Crypto, job: Job, idx: KeyRing, main: map<int, Row>, plain: map<int, Plain>)
    requires main.Keys == plain.Keys
  {
    forall id :: id in main && job.lo <= id <= job.hi && |plain[id].Get(JobField(job))| >= 2 ==>
      OpenedApart(c, job, idx, main[id], plain[id])
  }

  // Without such collisions, to be reindexed is to be safe.
  lemma ReindexedIffSafe(c: Crypto, job: Job, idx: KeyRing, row: Row, data: Plain)
    requires KnownIndexKey(job, idx) && OpenedApart(c, job, idx, row, data)
    requires Text(c, job, row).Ok? && Text(c, job, row).value.Some?
    ensures Reindexed(c, job, idx, row, data) <==> SafeRow(c, job, row, data)
  {
    var v :| v in idx.infos && idx.infos[v].key == job.idxKey;
    assert HmacHex(c, data.Get(JobField(job)), idx.infos[v].key) in ExactHashes(c, idx, data.Get(JobField(job)));
  }

  lemma RebuiltIntactIff(c: Crypto, job: Job, idx: KeyRing, main: map<int, Row>, plain: map<int, Plain>)
    requires KnownIndexKey(job, idx) && main.Keys == plain.Keys
    requires AllOpenedApart(c, job, idx, main, plain) && IndexIntact(c, idx, main, plain)
    ensures RebuiltIntact(c, job, idx, main, plain) <==> SafeForSearch(c, job, main, plain)
  {
    forall id, f: Field | id in main && |plain[id].Get(f)| >= 2
      ensures RebuiltKnown(c, job, idx, main, plain, id, f) <==>
              (f == JobField(job) && job.lo <= id <= job.hi ==> SafeRow(c, job, main[id], plain[id]))
    {
      RowRebuiltKnownIff(c, job, idx, main, plain, id, f);
    }
  }

  lemma RowRebuiltKnownIff(c: Crypto, job: Job, idx: KeyRing, main: map<int, Row>, plain: map<int, Plain>, id: int,
      f: Field)
    requires KnownIndexKey(job, idx) && id in main && id in plain && BlindKnown(c, idx, main[id], plain[id], f)
    requires f == JobField(job) && job.lo <= id <= job.hi ==> OpenedApart(c, job, idx, main[id], plain[id])
    ensures RebuiltKnown(c, job, idx, main, plain, id, f) <==>
            (f == JobField(job) && job.lo <= id <= job.hi ==> SafeRow(c, job, main[id], plain[id]))
  {
    if f == JobField(job) && Target(c, job, id, main[id]) {
      ReindexedIffSafe(c, job, idx, main[id], plain[id]);
    }
  }

  lemma RebuiltBlindsIff(c: Crypto, job: Job, idx: KeyRing, t: Tables, plain: map<int, Plain>)
    requires t.main.Keys == plain.Keys
    ensures FullPass(c, job, t).main.Keys == plain.Keys
    ensures IndexIntact(c, idx, FullPass(c, job, t).main, plain) <==> RebuiltIntact(c, job, idx, t.main, plain)
  {
    FullPassIsDone(c, job, t);
    forall id, f: Field | id in t.main
      ensures BlindKnown(c, idx, FullPass(c, job, t).main[id], plain[id], f) <==>
              RebuiltKnown(c, job, idx, t.main, plain, id, f)
    {
      RebuiltBlindIff(c, job, idx, t, plain, id, f);
    }
  }

  // A rebuild decrypts every row with the current key, whatever the row's version. After it
  // exact search is right exactly when no value exceeds 2031 bytes, what it wrote are hashes of
  // the values, the other blind indexes were right, and the rows are sound. Where no opened text
  // collides with the value and the indexes were intact, that is to say the key rejected every
  // ciphertext of the range or opened it to the value; values too short to ask for excepted.
  lemma RebuiltExactIff(c: Crypto, job: Job, keys: KeyState, t: Tables, plain: map<int, Plain>, fallback: Bytes)
    requires t.main.Keys == plain.Keys && AllSized(t.main, plain)
    ensures FullPass(c, job, t).main.Keys == plain.Keys
    ensures ExactSearchRight(c, keys, FullPass(c, job, t), plain, fallback) <==>
            ShortValues(plain) && RebuiltIntact(c, job, keys.idx, t.main, plain)
            && ExactRowsSound(c, keys, FullPass(c, job, t).main, plain, fallback)
    ensures KnownIndexKey(job, keys.idx) && IndexIntact(c, keys.idx, t.main, plain)
            && AllOpenedApart(c, job, keys.idx, t.main, plain) ==>
              (RebuiltIntact(c, job, keys.idx, t.main, plain) <==> SafeForSearch(c, job, t.main, plain))
  {
    FullPassIsDone(c, job, t);
    BetweenStaysSized(c, job, t, FullPass(c, job, t), plain);
    RebuiltBlindsIff(c, job, keys.idx, t, plain);
    AnyExactSearchIff(c, keys, FullPass(c, job, t), plain, fallback);
    if KnownIndexKey(job, keys.idx) && IndexIntact(c, keys.idx, t.main, plain)
       && AllOpenedApart(c, job, keys.idx, t.main, plain) {
      RebuiltIntactIff(c, job, keys.idx, t.main, plain);
    }
  }

  // A row rewritten from another text whose hash does not collide is not found under its value.
  lemma UnsafeRowIsLost(c: Crypto, job: Job, keys: KeyState, t: Tables, plain: map<int, Plain>, id: int,
      fallback: Bytes)
    requires t.main.Keys == plain.Keys && id in t.main && OpenedApart(c, job, keys.idx, t.main[id], plain[id])
    requires job.lo <= id <= job.hi && |plain[id].Get(JobField(job))| >= 2 && !SafeRow(c, job, t.main[id], plain[id])
    ensures FullPass(c, job, t).main.Keys == plain.Keys
    ensures !ExactSearchRight(c, keys, FullPass(c, job, t), plain, fallback)
  {
    FullPassIsDone(c, job, t);
    RebuiltBlindIff(c, job, keys.idx, t, plain, id, JobField(job));
    if ExactSearchRight(c, keys, FullPass(c, job, t), plain, fallback) {
      RightSearchNeeds(c, keys, FullPass(c, job, t), plain, fallback, id, JobField(job));
    }
  }

  // No known hash of a string of one list is, by collision, the hash under key of one of the other.
  ghost predicate TokensApart(c: Crypto, idx: KeyRing, key: Bytes, a: seq<Bytes>, b: seq<Bytes>) {
    forall v, x, y :: v in idx.infos && x in a && y in b && HmacHex(c, x, idx.infos[v].key) == HmacHex(c, y, key) ==>
      x == y
  }

  // After a full pass a rewritten row is a candidate for a distinct-hash keyword exactly when
  // all bigrams of the keyword occur in the text the current key opened, collisions between the
  // two aside.
  lemma RebuiltFuzzyIff(c: Crypto, job: Job, keys: KeyState, t: Tables, id: int, keyword: Bytes)
    requires KnownIndexKey(job, keys.idx) && id in t.main && Target(c, job, id, t.main[id])
    requires |keyword| >= 2 && DistinctHashes(c, keys.idx, keyword)
    requires TokensApart(c, keys.idx, job.idxKey, SplitBigram(keyword),
                         SplitBigram(Text(c, job, t.main[id]).value.value))
    ensures
      var text := Text(c, job, t.main[id]).value.value;
      id in FuzzyIds(c, keys, FullPass(c, job, t).inverted, JobField(job), keyword) <==>
      forall b :: b in SplitBigram(keyword) ==> b in SplitBigram(text)
  {
    var f, inverted, text := JobField(job), FullPass(c, job, t).inverted, Text(c, job, t.main[id]).value.value;
    FullPassIsDone(c, job, t);
    assert Done(c, job, t, FullPass(c, job, t), id);
    if id in FuzzyIds(c, keys, inverted, f, keyword) {
      var v :| v in keys.idx.infos && id in FuzzyCandidates(inverted, KeywordHashes(c, keys.idx, v, keyword), f);
      CandidateBigrams(c, job, keys.idx, inverted, v, id, f, text, keyword);
    }
    if forall b :: b in SplitBigram(keyword) ==> b in SplitBigram(text) {
      var v :| v in keys.idx.infos && keys.idx.infos[v].key == job.idxKey;
      CandidateBigrams(c, job, keys.idx, inverted, v, id, f, text, keyword);
    }
  }

  lemma HashOfToken(c: Crypto, tokens: seq<Bytes>, key: Bytes, h: Bytes)
    ensures h in HashTokens(c, tokens, key) <==> exists b :: b in tokens && h == HmacHex(c, b, key)
  {
    if h in HashTokens(c, tokens, key) {
      var i :| 0 <= i < |tokens| && HashTokens(c, tokens, key)[i] == h;
      assert tokens[i] in tokens;
    }
    if b :| b in tokens && h == HmacHex(c, b, key) {
      var i :| 0 <= i < |tokens| && tokens[i] == b;
      assert HashTokens(c, tokens, key)[i] == h;
    }
  }

  // Against tokens that are exactly those of a text under the job's key.
  lemma CandidateBigrams(c: Crypto, job: Job, idx: KeyRing, inverted: set<Token>, v: int, id: int, f: Field,
      text: Bytes, keyword: Bytes)
    requires v in idx.infos && |keyword| >= 2 && Distinct(KeywordHashes(c, idx, v, keyword))
    requires forall h :: Token(h, id, f) in inverted <==> Token(h, id, f) in TokensFor(c, id, f, text, job.idxKey)
    ensures TokensApart(c, idx, job.idxKey, SplitBigram(keyword), SplitBigram(text))
            && id in FuzzyCandidates(inverted, KeywordHashes(c, idx, v, keyword), f) ==>
              forall b :: b in SplitBigram(keyword) ==> b in SplitBigram(text)
    ensures idx.infos[v].key == job.idxKey && (forall b :: b in SplitBigram(keyword) ==> b in SplitBigram(text)) ==>
      id in FuzzyCandidates(inverted, KeywordHashes(c, idx, v, keyword), f)
  {
    var key, hashes := idx.infos[v].key, KeywordHashes(c, idx, v, keyword);
    assert |hashes| == |keyword| - 1;
    FuzzyCandidateIff(inverted, hashes, id, f);
    if TokensApart(c, idx, job.idxKey, SplitBigram(keyword), SplitBigram(text))
       && id in FuzzyCandidates(inverted, hashes, f) {
      forall b | b in SplitBigram(keyword) ensures b in SplitBigram(text) {
        var h := HmacHex(c, b, key);
        HashOfToken(c, SplitBigram(keyword), key, h);
        HashOfToken(c, SplitBigram(text), job.idxKey, h);
        assert Token(h, id, f) in inverted;
      }
    }
    if key == job.idxKey && forall b :: b in SplitBigram(keyword) ==> b in SplitBigram(text) {
      forall h | h in hashes ensures Token(h, id, f) in inverted {
        HashOfToken(c, SplitBigram(keyword), key, h);
        HashOfToken(c, SplitBigram(text), job.idxKey, h);
      }
    }
  }

  lemma TokensOfPart(c: Crypto, idx: KeyRing, key: Bytes, value: Bytes, keyword: Bytes, b: seq<Bytes>)
    requires TokensApart(c, idx, key, SplitBigram(value), b) && |keyword| >= 2 && Contains(value, keyword)
    ensures TokensApart(c, idx, key, SplitBigram(keyword), b)
  {
    forall x | x in SplitBigram(keyword) ensures x in SplitBigram(value) {
      var j :| 0 <= j < |SplitBigram(keyword)| && SplitBigram(keyword)[j] == x;
      BigramsOccur(value, keyword, j);
    }
  }

  // Every bigram of the value occurs in the text the current key opened, if it opened one.
  ghost predicate BigramsKept(c: Crypto, job: Job, row: Row, data: Plain) {
    Text(c, job, row).Ok? && Text(c, job, row).value.Some? ==>
      forall b :: b in SplitBigram(data.Get(JobField(job))) ==> b in SplitBigram(Text(c, job, row).value.value)
  }

  ghost predicate SafeForFuzzy(c: Crypto, job: Job, main: map<int, Row>, plain: map<int, Plain>)
    requires main.Keys == plain.Keys
  {
    forall id :: id in main && job.lo <= id <= job.hi && |plain[id].Get(JobField(job))| >= 2 ==>
      BigramsKept(c, job, main[id], plain[id])
  }

  // No bigram of the value collides with another of the text the job opened.
  ghost predicate BigramsApart(c: Crypto, job: Job, idx: KeyRing, row: Row, data: Plain) {
    Text(c, job, row).Ok? && Text(c, job, row).value.Some? ==>
      TokensApart(c, idx, job.idxKey, SplitBigram(data.Get(JobField(job))), SplitBigram(Text(c, job, row).value.value))
  }

  ghost predicate AllBigramsApart(c: Crypto, job: Job, idx: KeyRing, main: map<int, Row>, plain: map<int, Plain>)
    requires main.Keys == plain.Keys
  {
    forall id :: id in main && job.lo <= id <= job.hi && |plain[id].Get(JobField(job))| >= 2 ==>
      BigramsApart(c, job, idx, main[id], plain[id])
  }

  // So a rewritten row stays a candidate for all keywords it contains exactly when every
  // bigram of its value occurs in the opened text.
  lemma RebuiltRowIsFoundIff(c: Crypto, job: Job, keys: KeyState, t: Tables, data: Plain, id: int)
    requires KnownIndexKey(job, keys.idx) && id in t.main && Target(c, job, id, t.main[id])
    requires |data.Get(JobField(job))| >= 2 && BigramsApart(c, job, keys.idx, t.main[id], data)
    ensures FoundAfter(c, job, keys, t, data, id) <==> BigramsKept(c, job, t.main[id], data)
  {
    var f, value, text := JobField(job), data.Get(JobField(job)), Text(c, job, t.main[id]).value.value;
    if BigramsKept(c, job, t.main[id], data) {
      forall keyword | |keyword| >= 2 && DistinctHashes(c, keys.idx, keyword) && Contains(value, keyword)
        ensures id in FuzzyIds(c, keys, FullPass(c, job, t).inverted, f, keyword)
      {
        KeptIsFound(c, job, keys, t, data, id, keyword);
      }
    }
    if FoundAfter(c, job, keys, t, data, id) {
      forall b | b in SplitBigram(value) ensures b in SplitBigram(text) {
        BigramIsKeyword(c, keys.idx, value, b);
        TokensOfPart(c, keys.idx, job.idxKey, value, b, SplitBigram(text));
        RebuiltFuzzyIff(c, job, keys, t, id, b);
        assert b in SplitBigram(b);
      }
    }
  }

  ghost predicate FoundAfter(c: Crypto, job: Job, keys: KeyState, t: Tables, data: Plain, id: int) {
    forall keyword ::
      |keyword| >= 2 && DistinctHashes(c, keys.idx, keyword) && Contains(data.Get(JobField(job)), keyword) ==>
      id in FuzzyIds(c, keys, FullPass(c, job, t).inverted, JobField(job), keyword)
  }

  // A rewritten row that kept its bigrams is found, collisions or not.
  lemma KeptIsFound(c: Crypto, job: Job, keys: KeyState, t: Tables, data: Plain, id: int, keyword: Bytes)
    requires KnownIndexKey(job, keys.idx) && id in t.main && Target(c, job, id, t.main[id])
    requires |keyword| >= 2 && DistinctHashes(c, keys.idx, keyword) && Contains(data.Get(JobField(job)), keyword)
    requires BigramsKept(c, job, t.main[id], data)
    ensures id in FuzzyIds(c, keys, FullPass(c, job, t).inverted, JobField(job), keyword)
  {
    var inverted, text := FullPass(c, job, t).inverted, Text(c, job, t.main[id]).value.value;
    FullPassIsDone(c, job, t);
    assert Done(c, job, t, FullPass(c, job, t), id);
    forall b | b in SplitBigram(keyword) ensures b in SplitBigram(text) {
      var j :| 0 <= j < |SplitBigram(keyword)| && SplitBigram(keyword)[j] == b;
      BigramsOccur(data.Get(JobField(job)), keyword, j);
    }
    var v :| v in keys.idx.infos && keys.idx.infos[v].key == job.idxKey;
    CandidateBigrams(c, job, keys.idx, inverted, v, id, JobField(job), text, keyword);
  }

  // After a full pass a covered row that contains a keyword is a candidate for it, provided a
  // rewritten row kept its bigrams.
  lemma RebuiltRowIsCandidate(c: Crypto, job: Job, keys: KeyState, t: Tables, data: Plain, id: int, f: Field,
      keyword: Bytes)
    requires KnownIndexKey(job, keys.idx) && id in t.main
    requires Covered(c, keys.idx, t.inverted, id, data, f) && Contains(data.Get(f), keyword)
    requires |keyword| >= 2 && DistinctHashes(c, keys.idx, keyword)
    requires f == JobField(job) && job.lo <= id <= job.hi ==> BigramsKept(c, job, t.main[id], data)
    ensures id in FuzzyIds(c, keys, FullPass(c, job, t).inverted, f, keyword)
  {
    FullPassIsDone(c, job, t);
    if f == JobField(job) && Target(c, job, id, t.main[id]) {
      KeptIsFound(c, job, keys, t, data, id, keyword);
    } else {
      UntouchedStaysCovered(c, job, keys.idx, t, FullPass(c, job, t), data, id, f);
      CoveredIsFound(c, keys, FullPass(c, job, t).inverted, id, data, f, keyword);
    }
  }

  // After a full pass a row that kept the bigrams of its value is findable, and without
  // collisions between them and the opened text only such a row.
  lemma RebuiltFindableIff(c: Crypto, job: Job, keys: KeyState, t: Tables, data: Plain, id: int)
    requires KnownIndexKey(job, keys.idx) && id in t.main
    requires forall f: Field :: Covered(c, keys.idx, t.inverted, id, data, f)
    ensures
      var findable := Findable(c, keys.idx, FullPass(c, job, t).inverted, id, data);
      var kept := job.lo <= id <= job.hi && |data.Get(JobField(job))| >= 2 ==> BigramsKept(c, job, t.main[id], data);
      var apart := job.lo <= id <= job.hi && |data.Get(JobField(job))| >= 2 ==>
        BigramsApart(c, job, keys.idx, t.main[id], data);
      (kept ==> findable) && (apart && findable ==> kept)
  {
    var f, inverted := JobField(job), FullPass(c, job, t).inverted;
    if job.lo <= id <= job.hi && |data.Get(f)| >= 2 ==> BigramsKept(c, job, t.main[id], data) {
      forall g: Field, keyword |
        |keyword| >= 2 && DistinctHashes(c, keys.idx, keyword) && Contains(data.Get(g), keyword)
        ensures KeywordIndexed(c, keys.idx, inverted, id, g, keyword)
      {
        LongerThanKeyword(data.Get(g), keyword);
        RebuiltRowIsCandidate(c, job, keys, t, data, id, g, keyword);
        IndexedIff(c, keys, inverted, id, g, keyword);
      }
    }
    if Findable(c, keys.idx, inverted, id, data) && |data.Get(f)| >= 2 && Target(c, job, id, t.main[id])
       && BigramsApart(c, job, keys.idx, t.main[id], data) {
      forall keyword | |keyword| >= 2 && DistinctHashes(c, keys.idx, keyword) && Contains(data.Get(f), keyword)
        ensures id in FuzzyIds(c, keys, inverted, f, keyword)
      {
        IndexedIff(c, keys, inverted, id, f, keyword);
      }
      RebuiltRowIsFoundIff(c, job, keys, t, data, id);
    }
  }

  // After a rebuild over a covered store fuzzy search is right exactly when no value exceeds
  // 2031 bytes, the rows are sound and every keyword a row contains is indexed. It is when each
  // opened text holds the bigrams of the value it stands for, and where those do not collide
  // with others of the text only then.
  lemma RebuiltFuzzySearchIff(c: Crypto, job: Job, keys: KeyState, t: Tables, plain: map<int, Plain>, fallback: Bytes)
    requires KnownIndexKey(job, keys.idx) && t.main.Keys == plain.Keys
    requires AllSized(t.main, plain) && AllCovered(c, keys.idx, t, plain)
    ensures FullPass(c, job, t).main.Keys == plain.Keys
    ensures FuzzySearchRight(c, keys, FullPass(c, job, t), plain, fallback) <==>
            ShortValues(plain) && AllFindable(c, keys.idx, FullPass(c, job, t), plain)
            && FuzzyRowsSound(c, keys, FullPass(c, job, t), plain, fallback)
    ensures SafeForFuzzy(c, job, t.main, plain) ==> AllFindable(c, keys.idx, FullPass(c, job, t), plain)
    ensures AllBigramsApart(c, job, keys.idx, t.main, plain) ==>
      (AllFindable(c, keys.idx, FullPass(c, job, t), plain) <==> SafeForFuzzy(c, job, t.main, plain))
  {
    var t' := FullPass(c, job, t);
    FullPassIsDone(c, job, t);
    BetweenStaysSized(c, job, t, t', plain);
    RebuiltAllFindableIff(c, job, keys, t, plain);
    AnyFuzzySearchIff(c, keys, t', plain, fallback);
  }

  lemma RebuiltAllFindableIff(c: Crypto, job: Job, keys: KeyState, t: Tables, plain: map<int, Plain>)
    requires KnownIndexKey(job, keys.idx) && t.main.Keys == plain.Keys && AllCovered(c, keys.idx, t, plain)
    ensures FullPass(c, job, t).main.Keys == plain.Keys
    ensures SafeForFuzzy(c, job, t.main, plain) ==> AllFindable(c, keys.idx, FullPass(c, job, t), plain)
    ensures AllBigramsApart(c, job, keys.idx, t.main, plain) ==>
      (AllFindable(c, keys.idx, FullPass(c, job, t), plain) ==> SafeForFuzzy(c, job, t.main, plain))
  {
    var t', f := FullPass(c, job, t), JobField(job);
    FullPassIsDone(c, job, t);
    forall id | id in t.main
      ensures (job.lo <= id <= job.hi && |plain[id].Get(f)| >= 2 ==> BigramsKept(c, job, t.main[id], plain[id])) ==>
              Findable(c, keys.idx, t'.inverted, id, plain[id])
      ensures (job.lo <= id <= job.hi && |plain[id].Get(f)| >= 2 ==>
               BigramsApart(c, job, keys.idx, t.main[id], plain[id]))
              && Findable(c, keys.idx, t'.inverted, id, plain[id]) ==>
                (job.lo <= id <= job.hi && |plain[id].Get(f)| >= 2 ==> BigramsKept(c, job, t.main[id], plain[id]))
    {
      assert forall g: Field :: Covered(c, keys.idx, t.inverted, id, plain[id], g);
      RebuiltFindableIff(c, job, keys, t, plain[id], id);
    }
  }

  lemma BetweenStaysSized(c: Crypto, job: Job, t0: Tables, t: Tables, plain: map<int, Plain>)
    requires t0.main.Keys == plain.Keys && AllSized(t0.main, plain) && Between(c, job, t0, t)
    ensures t.main.Keys == plain.Keys && AllSized(t.main, plain)
  {
    forall id | id in t.main ensures Sized(t.main[id], plain[id]) {
      assert RowBetween(c, job, t0.main, t.main, id);
      RowBetweenSame(c, job, t0.main, t.main, id);
      assert Sized(t0.main[id], plain[id]);
    }
  }

  // A bigram of a text is a keyword the text contains, with one hash.
  lemma BigramIsKeyword(c: Crypto, idx: KeyRing, text: Bytes, b: Bytes)
    requires |text| >= 2 && b in SplitBigram(text)
    ensures |b| == 2 && Contains(text, b) && SplitBigram(b) == [b] && DistinctHashes(c, idx, b)
  {
    var i :| 0 <= i < |SplitBigram(text)| && SplitBigram(text)[i] == b;
    assert OccursAt(text, b, i);
    assert b[0..2] == b;
  }
}
