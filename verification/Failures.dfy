/**
  What failures do to later queries: inserts without tokens, rotations cut short, rows under
  a label whose key did not seal them, and rebuilds with another key than the rows'.
 */
module Failures {
  import opened Common
  import opened Sm4
  import opened Hex
  import opened Tables
  import opened Database
  import opened Keys
  import opened Dao
  import BatchDecryptor
  import opened Search
  import opened Exactness
  import opened AnyStore
  import opened Reindex
  import opened Lifecycle
  import opened Runs

  // ---- Inserts without tokens ----

  // A row whose transaction failed is really missed: by every keyword it contains, unless an
  // earlier update of the then absent id left tokens behind.
  lemma FailedInsertIsMissed(c: Crypto, kek: Bytes, w: World, data: Plain, ivs: Vectors, f: Field, keyword: Bytes)
    requires Inv(c, kek, w) && |keyword| >= 2 && Contains(data.Get(f), keyword)
    requires forall h :: Token(h, w.nextId, f) !in w.tables.inverted
    ensures
      var w' := Next(c, kek, w, Insert(data, ivs, RowOnly));
      && w'.tables.main.Keys == w'.plain.Keys
      && FuzzyAnswer(c, w'.keys, w'.tables, f, keyword, w'.globals.enc)
           != Ok(Scan(w'.tables.main, w'.plain, Holds(f, keyword)))
  {
    var w' := Next(c, kek, w, Insert(data, ivs, RowOnly));
    TokenlessIsMissed(c, w'.keys, w'.tables, w'.plain, w.nextId, f, keyword, w'.globals.enc);
  }

  // ---- Rotations cut short ----

  // After a rotation of all keys that did not get to refresh the globals, these still are
  // the current keys exactly when every key drawn before the failure equals its predecessor.
  lemma GlobalsOutOfStep(c: Crypto, kek: Bytes, w: World, enc: Option<Block>, idx: Option<Block>, tag: Option<Block>,
      ivs: Vectors, saves: nat)
    requires Inv(c, kek, w) && InStep(w)
    ensures InStep(Next(c, kek, w, RotateAllFailed(enc, idx, tag, ivs, saves))) <==>
            && (enc.Some? ==> enc.value == w.globals.enc)
            && (enc.Some? && idx.Some? ==> idx.value == w.globals.idx)
            && (enc.Some? && idx.Some? && tag.Some? ==> tag.value == w.globals.tag)
  {
    var w' := Next(c, kek, w, RotateAllFailed(enc, idx, tag, ivs, saves));
    KeysOfInv(c, kek, w, Enc);
    KeysOfInv(c, kek, w, Idx);
    KeysOfInv(c, kek, w, Tag);
    GetEach(w);
    GetEach(w');
    CurrentAfterRotation(w.keys.enc, enc);
    CurrentAfterRotation(w.keys.idx, idx);
    CurrentAfterRotation(w.keys.tag, tag);
    assert w'.globals == w.globals;
    assert w'.keys == RotatedKeys(w.keys, enc, idx, tag);
    InStepEach(w);
    InStepEach(w');
  }

  lemma InStepEach(w: World)
    ensures InStep(w) <==> w.globals == Globals(KeyOr(w.keys.enc), KeyOr(w.keys.idx), KeyOr(w.keys.tag))
  {
    GetEach(w);
    assert InStep(w) ==> w.globals.Get(Enc) == KeyOr(w.keys.Get(Enc)) && w.globals.Get(Idx) == KeyOr(w.keys.Get(Idx))
                         && w.globals.Get(Tag) == KeyOr(w.keys.Get(Tag));
  }

  lemma CurrentAfterRotation(ring: KeyRing, drawn: Option<Block>)
    requires Usable(ring)
    ensures KeyOr(Rotated(ring, drawn)) == match drawn case Some(key) => key case None => KeyOr(ring)
  {
    RotationExtends(ring, drawn);
  }

  // A rotation that failed, whenever and wherever, is undone by a restart: the globals are
  // current again, no key is lost, and no row or field suffers.
  lemma RestartAfterFailure(c: Crypto, kek: Bytes, w: World, e: Event)
    requires Inv(c, kek, w) && Steady(c, kek, w) && (e.RotateFailed? || e.RotateAllFailed?)
    ensures
      var w' := AfterRestart(c, kek, Next(c, kek, w, e));
      && Inv(c, kek, w') && InStep(w') && w'.marks == w.marks && w'.tables == w.tables && w'.plain == w.plain
      && forall t: KeyType :: Extends(w'.keys.Get(t), w.keys.Get(t))
  {
    var w1 := Next(c, kek, w, e);
    var w' := AfterRestart(c, kek, w1);
    NextKeepsInv(c, kek, w, e);
    RestartKeepsInv(c, kek, w1);
    RestartKeepsKeys(c, kek, w1);
    KeysAfterFailure(c, kek, w, e);
    assert Extends(w'.keys.Get(Enc), w.keys.Get(Enc)) && Extends(w'.keys.Get(Idx), w.keys.Get(Idx));
    NothingLost(c, kek, w, w'.keys);
    FailureTouchesKeysOnly(c, kek, w, e);
    SameRestartMarks(c, w, w1, w'.keys);
  }

  lemma KeysAfterFailure(c: Crypto, kek: Bytes, w: World, e: Event)
    requires Inv(c, kek, w) && Steady(c, kek, w) && (e.RotateFailed? || e.RotateAllFailed?)
    ensures forall t: KeyType :: Extends(AfterRestart(c, kek, Next(c, kek, w, e)).keys.Get(t), w.keys.Get(t))
  {
    var w1 := Next(c, kek, w, e);
    NextKeepsInv(c, kek, w, e);
    RestartKeepsKeys(c, kek, w1);
    forall t: KeyType ensures Extends(AfterRestart(c, kek, w1).keys.Get(t), w.keys.Get(t)) {
      NextKeepsKeys(c, kek, w, e, t);
      FailureKeepsSaved(c, kek, w, e, t);
      ExtendsBetween(w.keys.Get(t), AfterRestart(c, kek, w1).keys.Get(t), w1.keys.Get(t));
    }
  }

  lemma FailureTouchesKeysOnly(c: Crypto, kek: Bytes, w: World, e: Event)
    requires e.RotateFailed? || e.RotateAllFailed?
    ensures
      var w1 := Next(c, kek, w, e);
      w1.tables == w.tables && w1.plain == w.plain && w1.marks == w.marks
  {
  }

  lemma SameRestartMarks(c: Crypto, w: World, w1: World, keys: KeyState)
    requires w1.tables == w.tables && w1.plain == w.plain && w1.marks == w.marks && LostKeys(c, w, keys) == map[]
    ensures RestartMarks(c, w1, keys) == RestartMarks(c, w, keys)
  {
    forall e ensures e !in LostKeys(c, w1, keys) {
      assert e in LostKeys(c, w1, keys) ==> e in LostKeys(c, w, keys);
    }
    assert LostKeys(c, w1, keys) == map[];
  }

  lemma ExtendsBetween(a: KeyRing, b: KeyRing, longer: KeyRing)
    requires Extends(longer, a) && Extends(longer, b) && a.infos.Keys <= b.infos.Keys
    ensures Extends(b, a)
  {
    forall v | v in a.infos ensures v in b.infos {
      assert v in a.infos.Keys;
    }
  }

  lemma FailureKeepsSaved(c: Crypto, kek: Bytes, w: World, e: Event, t: KeyType)
    requires Steady(c, kek, w) && (e.RotateFailed? || e.RotateAllFailed?)
    ensures w.keys.Get(t).infos.Keys <= Next(c, kek, w, e).config.Get(t).Keys
  {
    if e.RotateAllFailed? {
      var keys := RotatedKeys(w.keys, e.encDraw, e.idxDraw, e.tagDraw);
      SavedEach(c, kek, w.config, keys, e.ivs, e.saves, t);
    }
  }

  // ---- Rows under the wrong label ----

  // The batch only ever spares work: with its result or without, a field reads as a single
  // decryption does.
  lemma BatchChangesNothing(c: Crypto, keys: KeyState, id: int, row: Row, f: Field, fallback: Bytes)
    requires row.Get(f).cipher != []
    ensures FieldValue(c, keys, id, row, f, fallback)
       == DecryptField(c, keys, row.encVersion, row.Get(f).cipher, fallback)
  {
    assert RecordOf(id, row, f).cipher == row.Get(f).cipher;
  }

  // A row sealed by one key and labelled with another. While the sealing key is the fallback
  // the field reads back exactly when the label names no key, or its key rejects the
  // ciphertext or opens it to the value; when the fallback is the label's key, exactly when
  // that opens it to the value.
  lemma MislabelledRow(c: Crypto, keys: KeyState, id: int, row: Row, data: Plain, f: Field, oldKey: Bytes, iv: Block)
    requires |oldKey| == KEY_LEN && row.Get(f).cipher == Sealed(c, data.Get(f), oldKey, iv)
    ensures row.encVersion !in keys.enc.infos ==> FieldValue(c, keys, id, row, f, oldKey) == Ok(data.Get(f))
    ensures row.encVersion in keys.enc.infos ==>
      var newKey := keys.enc.infos[row.encVersion].key;
      var other := Opened(c, row.Get(f).cipher, newKey);
      && (FieldValue(c, keys, id, row, f, oldKey) == Ok(data.Get(f)) <==> other.Err? || other == Ok(data.Get(f)))
      && (FieldValue(c, keys, id, row, f, newKey) == Ok(data.Get(f)) <==> other == Ok(data.Get(f)))
      && (FieldValue(c, keys, id, row, f, newKey).Err? <==> other.Err?)
  {
    OpenUndoesSeal(c, data.Get(f), oldKey, iv);
    OpenedLength(c, row.Get(f).cipher, oldKey);
    BatchChangesNothing(c, keys, id, row, f, oldKey);
    if row.encVersion in keys.enc.infos {
      BatchChangesNothing(c, keys, id, row, f, keys.enc.infos[row.encVersion].key);
    }
  }

  // What main writes at any moment of any run reads back in the same session exactly when
  // the current key rejects what the global key sealed, or opens it to the value.
  lemma WrittenReadsIff(c: Crypto, kek: Bytes, w: World, data: Plain, ivs: Vectors, id: int, f: Field)
    requires AllKeysInv(c, kek, w)
    ensures
      var other := Opened(c, Sealed(c, data.Get(f), w.globals.enc, ivs.Get(f)), KeyOr(w.keys.enc));
      FieldValue(c, w.keys, id, Written(c, w, data, ivs), f, w.globals.enc) == Ok(data.Get(f)) <==>
      other.Err? || other == Ok(data.Get(f))
  {
    var row := Written(c, w, data, ivs);
    KeysOfInv(c, kek, w, Enc);
    GetEach(w);
    SealedColumns(c, w, data, ivs, f);
    MislabelledRow(c, w.keys, id, row, data, f, w.globals.enc, ivs.Get(f));
  }

  // After a restart that finds the version of the label saved, it reads back exactly when that
  // key opens it to the value, and cannot be read at all exactly when the key rejects it.
  lemma WrittenReadsAfterRestartIff(c: Crypto, kek: Bytes, w: World, data: Plain, ivs: Vectors, id: int, f: Field)
    requires AllKeysInv(c, kek, w) && w.keys.enc.current in w.config.enc
    ensures
      var other := Opened(c, Sealed(c, data.Get(f), w.globals.enc, ivs.Get(f)), KeyOr(w.keys.enc));
      var w' := AfterRestart(c, kek, w);
      var read := FieldValue(c, w'.keys, id, Written(c, w, data, ivs), f, w'.globals.enc);
      (read == Ok(data.Get(f)) <==> other == Ok(data.Get(f))) && (read.Err? <==> other.Err?)
  {
    var row, keys := Written(c, w, data, ivs), LoadedState(OpenWith(c, kek), w.config);
    KeysOfInv(c, kek, w, Enc);
    GetEach(w);
    LoadedTruthful(OpenWith(c, kek), w.config.enc, w.keys.enc);
    assert w.keys.enc.current in keys.enc.infos.Keys && keys.enc.current == row.encVersion;
    SealedColumns(c, w, data, ivs, f);
    MislabelledRow(c, keys, id, row, data, f, w.globals.enc, ivs.Get(f));
  }

  // One field that cannot be read fails every query with the row among its candidates.
  lemma {:induction false} MislabelledRowThrows(c: Crypto, keys: KeyState, main: map<int, Row>, ids: seq<int>, i: nat,
      f: Field, fallback: Bytes)
    requires forall k :: 0 <= k < |ids| ==> ids[k] in main
    requires i < |ids| && FieldValue(c, keys, ids[i], main[ids[i]], f, fallback).Err?
    ensures FullRows(c, keys, main, ids, fallback).Err?
    decreases |ids|
  {
    if i < |ids| - 1 {
      MislabelledRowThrows(c, keys, main, ids[..|ids| - 1], i, f, fallback);
    } else {
      assert f == Name || f == Phone || f == Address;
      assert FullRow(c, keys, ids[i], main[ids[i]], fallback).Err?;
    }
  }

  // ---- Which rows read back ----

  lemma RowReadsIff(c: Crypto, keys: KeyState, main: map<int, Row>, plain: map<int, Plain>, id: int, fallback: Bytes)
    requires id in main && id in plain
    ensures RowReads(c, keys, main, plain, id, fallback) <==>
            forall f: Field :: FieldValue(c, keys, id, main[id], f, fallback) == Ok(plain[id].Get(f))
  {
    assert plain[id].Get(Name) == plain[id].name && plain[id].Get(Phone) == plain[id].phone;
    assert plain[id].Get(Address) == plain[id].address;
  }

  // For each field, the current key rejects what the global key sealed, or opens it to the value.
  ghost predicate ReadsWritten(c: Crypto, w: World, data: Plain, ivs: Vectors) {
    forall f: Field ::
      var other := Opened(c, Sealed(c, data.Get(f), w.globals.enc, ivs.Get(f)), KeyOr(w.keys.enc));
      other.Err? || other == Ok(data.Get(f))
  }

  lemma WrittenRowReadsIff(c: Crypto, kek: Bytes, w: World, data: Plain, ivs: Vectors, main: map<int, Row>,
      plain: map<int, Plain>, id: int)
    requires AllKeysInv(c, kek, w) && id in main && id in plain
    requires main[id] == Written(c, w, data, ivs) && plain[id] == data
    ensures RowReads(c, w.keys, main, plain, id, w.globals.enc) <==> ReadsWritten(c, w, data, ivs)
  {
    RowReadsIff(c, w.keys, main, plain, id, w.globals.enc);
    forall f: Field
      ensures FieldValue(c, w.keys, id, main[id], f, w.globals.enc) == Ok(data.Get(f)) <==>
              (var other := Opened(c, Sealed(c, data.Get(f), w.globals.enc, ivs.Get(f)), KeyOr(w.keys.enc));
               other.Err? || other == Ok(data.Get(f)))
    {
      WrittenReadsIff(c, kek, w, data, ivs, id, f);
    }
  }

  ghost predicate OthersRead(c: Crypto, w: World, id: int) {
    forall k :: k in w.tables.main && k != id ==> RowReads(c, w.keys, w.tables.main, w.plain, k, w.globals.enc)
  }

  // A state that differs in one row.
  lemma OneRowReads(c: Crypto, w: World, w': World, id: int)
    requires w.tables.main.Keys == w.plain.Keys && w'.keys == w.keys && w'.globals == w.globals
    requires id in w'.tables.main && id in w'.plain
    requires w'.tables.main == w.tables.main[id := w'.tables.main[id]] && w'.plain == w.plain[id := w'.plain[id]]
    ensures RowsRead(c, w') <==>
            OthersRead(c, w, id) && RowReads(c, w'.keys, w'.tables.main, w'.plain, id, w'.globals.enc)
  {
    forall k | k in w.tables.main && k != id
      ensures RowReads(c, w'.keys, w'.tables.main, w'.plain, k, w'.globals.enc) <==>
              RowReads(c, w.keys, w.tables.main, w.plain, k, w.globals.enc)
    {
      assert TrueRecord(w'.tables.main, w'.plain, k) == TrueRecord(w.tables.main, w.plain, k);
    }
    if OthersRead(c, w, id) && RowReads(c, w'.keys, w'.tables.main, w'.plain, id, w'.globals.enc) {
      forall k | k in w'.tables.main ensures RowReads(c, w'.keys, w'.tables.main, w'.plain, k, w'.globals.enc) {
      }
    }
    if RowsRead(c, w') {
      forall k | k in w'.tables.main ensures RowReads(c, w'.keys, w'.tables.main, w'.plain, k, w'.globals.enc) {
      }
    }
  }

  // After an insert the rows read back exactly when they did before and what was written does.
  lemma InsertReadsIff(c: Crypto, kek: Bytes, w: World, data: Plain, ivs: Vectors, extent: Extent)
    requires Inv(c, kek, w) && !extent.NoRow?
    ensures RowsRead(c, Next(c, kek, w, Insert(data, ivs, extent))) <==> RowsRead(c, w) && ReadsWritten(c, w, data, ivs)
  {
    var w' := AfterInsertEvent(c, w, data, ivs, extent);
    assert w.nextId !in w.tables.main;
    assert OthersRead(c, w, w.nextId) <==> RowsRead(c, w) by {
      if OthersRead(c, w, w.nextId) {
        forall k | k in w.tables.main ensures RowReads(c, w.keys, w.tables.main, w.plain, k, w.globals.enc) {
        }
      }
    }
    WrittenRowReadsIff(c, kek, w, data, ivs, w'.tables.main, w'.plain, w.nextId);
    OneRowReads(c, w, w', w.nextId);
  }

  // After an update they do exactly when the other rows did and what was written does.
  lemma UpdateReadsIff(c: Crypto, kek: Bytes, w: World, id: int, data: Plain, ivs: Vectors)
    requires Inv(c, kek, w) && id in w.tables.main
    ensures RowsRead(c, Next(c, kek, w, Update(id, data, ivs, true))) <==>
            OthersRead(c, w, id) && ReadsWritten(c, w, data, ivs)
  {
    var w' := AfterUpdateEvent(c, w, id, data, ivs, true);
    WrittenRowReadsIff(c, kek, w, data, ivs, w'.tables.main, w'.plain, id);
    OneRowReads(c, w, w', id);
  }

  // ---- Sessions after a failure of the timer ----

  ghost function AfterTimedFailure(c: Crypto, kek: Bytes, w: World, e: Event, data: Plain, ivs: Vectors): World {
    Next(c, kek, Next(c, kek, w, e), Insert(data, ivs, Complete))
  }

  // In a store that was sound, the failure does harm exactly to what is written after it: both
  // searches are right exactly when no value exceeds 2031 bytes and the row reads back.
  lemma SearchAfterTimedFailureIff(c: Crypto, kek: Bytes, w: World, e: Event, data: Plain, ivs: Vectors)
    requires Inv(c, kek, w) && w.marks == NO_MARKS && e.RotateAllFailed? && Askable(data)
    ensures
      var w' := AfterTimedFailure(c, kek, w, e, data, ivs);
      var legible := ReadsWritten(c, Next(c, kek, w, e), data, ivs);
      && w'.tables.main.Keys == w'.plain.Keys && (RowsRead(c, w') <==> legible)
      && (ExactRight(c, w') <==> ShortValues(w'.plain) && legible)
      && (FuzzyRight(c, w') <==> ShortValues(w'.plain) && legible)
  {
    var w1, w' := Next(c, kek, w, e), AfterTimedFailure(c, kek, w, e, data, ivs);
    NextKeepsInv(c, kek, w, e);
    FailureTouchesKeysOnly(c, kek, w, e);
    InsertKeepsInv(c, kek, w1, data, ivs, Complete);
    RowsOfInv(c, kek, w1);
    InsertReadsIff(c, kek, w1, data, ivs, Complete);
    OnlyLabelWrong(c, kek, w1, data, ivs);
    ExactUnderInv(c, kek, w');
    FuzzyUnderInv(c, kek, w');
    NewRowSound(c, kek, w1, data, ivs);
  }

  // An insert into an unmarked store leaves no mark but on its label.
  lemma OnlyLabelWrong(c: Crypto, kek: Bytes, w: World, data: Plain, ivs: Vectors)
    requires Inv(c, kek, w) && w.marks == NO_MARKS
    ensures
      var w' := AfterInsertEvent(c, w, data, ivs, Complete);
      && w'.tables.main.Keys == w'.plain.Keys && NothingPending(w')
      && IndexIntact(c, w'.keys.idx, w'.tables.main, w'.plain)
  {
    var w' := AfterInsertEvent(c, w, data, ivs, Complete);
    InsertKeepsInv(c, kek, w, data, ivs, Complete);
    forall id, f: Field | id in w'.tables.main
      ensures BlindKnown(c, w'.keys.idx, w'.tables.main[id], w'.plain[id], f)
    {
      FieldOfInv(c, kek, w', id, f);
    }
  }

  lemma NewRowSound(c: Crypto, kek: Bytes, w: World, data: Plain, ivs: Vectors)
    requires Inv(c, kek, w) && RowsRead(c, w) && Askable(data)
    ensures
      var w' := AfterInsertEvent(c, w, data, ivs, Complete);
      && w'.tables.main.Keys == w'.plain.Keys
      && (ExactSound(c, w') <==> ReadsWritten(c, w, data, ivs))
      && (FuzzySound(c, w') <==> ReadsWritten(c, w, data, ivs))
  {
    var w' := AfterInsertEvent(c, w, data, ivs, Complete);
    InsertKeepsInv(c, kek, w, data, ivs, Complete);
    InsertReadsIff(c, kek, w, data, ivs, Complete);
    forall k | k in w'.tables.main && k != w.nextId
      ensures RowReads(c, w'.keys, w'.tables.main, w'.plain, k, w'.globals.enc)
    {
      SameRowReads(c, w.keys, w.tables.main, w.plain, w'.tables.main, w'.plain, k, w.globals.enc);
    }
    OneRowSound(c, kek, w', w.nextId);
  }

  // For each field, the current key opens what the global key sealed.
  ghost predicate OpensWritten(c: Crypto, w: World, data: Plain, ivs: Vectors) {
    forall f: Field ::
      Opened(c, Sealed(c, data.Get(f), w.globals.enc, ivs.Get(f)), KeyOr(w.keys.enc)) == Ok(data.Get(f))
  }

  // After the restart that follows, the rows read back exactly when the new version was not
  // saved, or its key opens what was written.
  lemma RestartAfterTimedFailureIff(c: Crypto, kek: Bytes, w: World, e: Event, data: Plain, ivs: Vectors)
    requires Inv(c, kek, w) && Steady(c, kek, w) && w.marks.mislabelled == {} && e.RotateAllFailed?
    ensures RowsRead(c, RestartedAfter(c, kek, w, e, data, ivs)) <==> LegibleLater(c, Next(c, kek, w, e), data, ivs)
  {
    OldRowsRead(c, kek, w, e, data, ivs);
    NewRowAfterRestart(c, kek, w, e, data, ivs);
    AllButOne(c, RestartedAfter(c, kek, w, e, data, ivs), w.nextId);
  }

  ghost function RestartedAfter(c: Crypto, kek: Bytes, w: World, e: Event, data: Plain, ivs: Vectors): (r: World)
    ensures r.tables == AfterTimedFailure(c, kek, w, e, data, ivs).tables
    ensures r.plain == AfterTimedFailure(c, kek, w, e, data, ivs).plain
  {
    AfterRestart(c, kek, AfterTimedFailure(c, kek, w, e, data, ivs))
  }

  ghost predicate LegibleLater(c: Crypto, w: World, data: Plain, ivs: Vectors) {
    w.keys.enc.current in w.config.enc ==> OpensWritten(c, w, data, ivs)
  }

  lemma AllButOne(c: Crypto, w: World, id: int)
    requires w.tables.main.Keys == w.plain.Keys && OthersRead(c, w, id) && id in w.tables.main
    ensures RowsRead(c, w) <==> RowReads(c, w.keys, w.tables.main, w.plain, id, w.globals.enc)
  {
    if RowReads(c, w.keys, w.tables.main, w.plain, id, w.globals.enc) {
      forall k | k in w.tables.main ensures RowReads(c, w.keys, w.tables.main, w.plain, k, w.globals.enc) {
      }
    }
  }

  lemma OldRowsRead(c: Crypto, kek: Bytes, w: World, e: Event, data: Plain, ivs: Vectors)
    requires Inv(c, kek, w) && Steady(c, kek, w) && w.marks.mislabelled == {} && e.RotateAllFailed?
    ensures OthersRead(c, RestartedAfter(c, kek, w, e, data, ivs), w.nextId)
    ensures
      var w3 := RestartedAfter(c, kek, w, e, data, ivs);
      w.nextId in w3.tables.main && w3.tables.main.Keys == w3.plain.Keys
  {
    var w3 := RestartedAfter(c, kek, w, e, data, ivs);
    forall k | k in w3.tables.main && k != w.nextId
      ensures RowReads(c, w3.keys, w3.tables.main, w3.plain, k, w3.globals.enc)
    {
      OldRowReads(c, kek, w, e, k, w3.globals.enc);
      SameRowReads(c, w3.keys, w.tables.main, w.plain, w3.tables.main, w3.plain, k, w3.globals.enc);
    }
  }

  lemma SameRowReads(c: Crypto, keys: KeyState, main: map<int, Row>, plain: map<int, Plain>, main': map<int, Row>,
      plain': map<int, Plain>, k: int, fallback: Bytes)
    requires k in main && k in plain && k in main' && k in plain' && main[k] == main'[k] && plain[k] == plain'[k]
    ensures RowReads(c, keys, main, plain, k, fallback) <==> RowReads(c, keys, main', plain', k, fallback)
  {
    assert TrueRecord(main, plain, k) == TrueRecord(main', plain', k);
  }

  lemma OldRowReads(c: Crypto, kek: Bytes, w: World, e: Event, k: int, fallback: Bytes)
    requires Inv(c, kek, w) && Steady(c, kek, w) && w.marks.mislabelled == {} && e.RotateAllFailed?
    requires k in w.tables.main
    ensures RowReads(c, AfterRestart(c, kek, Next(c, kek, w, e)).keys, w.tables.main, w.plain, k, fallback)
  {
    var keys := AfterRestart(c, kek, Next(c, kek, w, e)).keys;
    KeysAfterFailure(c, kek, w, e);
    assert Extends(keys.Get(Enc), w.keys.Get(Enc));
    assert RowInv(c, w.keys, w.tables.inverted, k, w.tables.main[k], w.plain[k], w.marks);
    FullRowIsTrue(c, keys, w.tables.main, w.plain, k, fallback);
  }

  lemma NewRowAfterRestart(c: Crypto, kek: Bytes, w: World, e: Event, data: Plain, ivs: Vectors)
    requires Inv(c, kek, w) && Steady(c, kek, w) && e.RotateAllFailed?
    ensures
      var w3 := RestartedAfter(c, kek, w, e, data, ivs);
      RowReads(c, w3.keys, w3.tables.main, w3.plain, w.nextId, w3.globals.enc) <==>
      LegibleLater(c, Next(c, kek, w, e), data, ivs)
  {
    var w1 := Next(c, kek, w, e);
    var w3 := RestartedAfter(c, kek, w, e, data, ivs);
    NextKeepsInv(c, kek, w, e);
    RowReadsIff(c, w3.keys, w3.tables.main, w3.plain, w.nextId, w3.globals.enc);
    forall f: Field
      ensures FieldValue(c, w3.keys, w.nextId, Written(c, w1, data, ivs), f, w3.globals.enc) == Ok(data.Get(f)) <==>
        (w1.keys.enc.current in w1.config.enc ==>
         Opened(c, Sealed(c, data.Get(f), w1.globals.enc, ivs.Get(f)), KeyOr(w1.keys.enc)) == Ok(data.Get(f)))
    {
      if w1.keys.enc.current in w1.config.enc {
        WrittenReadsAfterRestartIff(c, kek, w1, data, ivs, w.nextId, f);
      } else {
        UnsavedLabelReads(c, kek, w, e, data, ivs, f);
      }
    }
  }

  // When the new version was not saved, the restart finds the old key, which is the fallback.
  lemma UnsavedLabelReads(c: Crypto, kek: Bytes, w: World, e: Event, data: Plain, ivs: Vectors, f: Field)
    requires Inv(c, kek, w) && Steady(c, kek, w) && e.RotateAllFailed?
    requires Next(c, kek, w, e).keys.enc.current !in Next(c, kek, w, e).config.enc
    ensures
      var w1 := Next(c, kek, w, e);
      var w3 := AfterRestart(c, kek, w1);
      FieldValue(c, w3.keys, w.nextId, Written(c, w1, data, ivs), f, w3.globals.enc) == Ok(data.Get(f))
  {
    var w1 := Next(c, kek, w, e);
    var w3 := AfterRestart(c, kek, w1);
    NextKeepsInv(c, kek, w, e);
    UnsavedConfig(c, kek, w, e);
    UnsavedKeys(c, kek, w, w1);
    SealedColumns(c, w1, data, ivs, f);
    MislabelledRow(c, w3.keys, w.nextId, Written(c, w1, data, ivs), data, f, w1.globals.enc, ivs.Get(f));
  }

  lemma UnsavedConfig(c: Crypto, kek: Bytes, w: World, e: Event)
    requires e.RotateAllFailed? && Next(c, kek, w, e).keys.enc.current !in Next(c, kek, w, e).config.enc
    ensures Next(c, kek, w, e).config.enc == w.config.enc && Next(c, kek, w, e).globals == w.globals
  {
  }

  lemma UnsavedKeys(c: Crypto, kek: Bytes, w: World, w1: World)
    requires AllKeysInv(c, kek, w) && Steady(c, kek, w) && w1.config.enc == w.config.enc && w1.globals == w.globals
    requires w1.keys.enc.current !in w1.config.enc
    ensures |w1.globals.enc| == KEY_LEN && AfterRestart(c, kek, w1).globals.enc == w1.globals.enc
    ensures w1.keys.enc.current !in AfterRestart(c, kek, w1).keys.enc.infos
  {
    KeysOfInv(c, kek, w, Enc);
    GetEach(w);
    assert w.globals.Get(Enc) == KeyOr(w.keys.Get(Enc)) && w.config.Get(Enc).Keys == w.keys.Get(Enc).infos.Keys;
    SavedRing(OpenWith(c, kek), w.config.enc, w.keys.enc);
  }

  lemma SavedRing(open: Opener, config: map<int, StoredKey>, ring: KeyRing)
    requires Usable(ring) && Saved(open, config, ring)
    ensures KeyOr(Loaded(open, config)) == KeyOr(ring) && Loaded(open, config).infos.Keys == config.Keys
  {
    SavedComesBack(open, config, ring);
    LoadedTruthful(open, config, ring);
  }

  // ---- Search after that restart ----

  // The failure touches nothing that blind indexes and tokens depend on: both are as if the row
  // had been inserted without it.
  lemma IndexedAsWithout(c: Crypto, kek: Bytes, w: World, e: Event, data: Plain, ivs: Vectors)
    requires Inv(c, kek, w) && w.marks == NO_MARKS && e.RotateAllFailed?
    ensures
      var w2 := AfterTimedFailure(c, kek, w, e, data, ivs);
      && w2.tables.main.Keys == w2.plain.Keys && AllCovered(c, w.keys.idx, w2.tables, w2.plain)
      && IndexIntact(c, w.keys.idx, w2.tables.main, w2.plain)
  {
    var w2 := AfterTimedFailure(c, kek, w, e, data, ivs);
    var without := AfterInsertEvent(c, w, data, ivs, Complete);
    InsertKeepsInv(c, kek, w, data, ivs, Complete);
    SameButLabel(c, kek, w, e, data, ivs);
    forall id, f: Field | id in without.tables.main
      ensures BlindKnown(c, w.keys.idx, w2.tables.main[id], w2.plain[id], f)
      ensures Covered(c, w.keys.idx, w2.tables.inverted, id, w2.plain[id], f)
    {
      FieldOfInv(c, kek, without, id, f);
    }
  }

  lemma SameButLabel(c: Crypto, kek: Bytes, w: World, e: Event, data: Plain, ivs: Vectors)
    requires e.RotateAllFailed?
    ensures
      var w2, without := AfterTimedFailure(c, kek, w, e, data, ivs), AfterInsertEvent(c, w, data, ivs, Complete);
      && w2.plain == without.plain && w2.tables.inverted == without.tables.inverted
      && w2.tables.main.Keys == without.tables.main.Keys
      && forall id, f: Field :: id in w2.tables.main ==> w2.tables.main[id].Get(f) == without.tables.main[id].Get(f)
  {
    var w1 := Next(c, kek, w, e);
    forall f: Field ensures Written(c, w1, data, ivs).Get(f) == Written(c, w, data, ivs).Get(f) {
    }
  }

  lemma IndexedUnderLonger(c: Crypto, idx: KeyRing, idx': KeyRing, tables: Tables, plain: map<int, Plain>)
    requires tables.main.Keys == plain.Keys && Extends(idx', idx)
    requires AllCovered(c, idx, tables, plain) && IndexIntact(c, idx, tables.main, plain)
    ensures AllCovered(c, idx', tables, plain) && IndexIntact(c, idx', tables.main, plain)
  {
    forall id, f: Field | id in tables.main ensures Covered(c, idx', tables.inverted, id, plain[id], f) {
      assert Covered(c, idx, tables.inverted, id, plain[id], f);
    }
  }

  lemma OneRowSound(c: Crypto, kek: Bytes, w: World, id: int)
    requires Inv(c, kek, w) && id in w.tables.main && id in w.plain && OthersRead(c, w, id) && Askable(w.plain[id])
    ensures w.tables.main.Keys == w.plain.Keys
    ensures (ExactSound(c, w) <==> RowsRead(c, w)) && (FuzzySound(c, w) <==> RowsRead(c, w))
  {
    AllButOne(c, w, id);
    SoundIffRead(c, kek, w);
    if ExactSound(c, w) {
      assert ExactRowSound(c, w.keys, w.tables.main, w.plain, id, w.globals.enc);
    }
    if FuzzySound(c, w) {
      assert FuzzyRowSound(c, w.keys, w.tables, w.plain, id, w.globals.enc);
    }
  }

  // After the restart that follows both searches are right exactly when no value exceeds 2031
  // bytes and the row reads back: the failure has cost the indexes nothing.
  lemma SearchAfterRestartIff(c: Crypto, kek: Bytes, w: World, e: Event, data: Plain, ivs: Vectors)
    requires Inv(c, kek, w) && Steady(c, kek, w) && w.marks == NO_MARKS && e.RotateAllFailed? && Askable(data)
    ensures
      var w3, legible := RestartedAfter(c, kek, w, e, data, ivs), LegibleLater(c, Next(c, kek, w, e), data, ivs);
      && w3.tables.main.Keys == w3.plain.Keys
      && (ExactRight(c, w3) <==> ShortValues(w3.plain) && legible)
      && (FuzzyRight(c, w3) <==> ShortValues(w3.plain) && legible)
  {
    var w3 := RestartedAfter(c, kek, w, e, data, ivs);
    RestartedInv(c, kek, w, e, data, ivs);
    ExactUnderInv(c, kek, w3);
    FuzzyUnderInv(c, kek, w3);
    IndexedAfterRestart(c, kek, w, e, data, ivs);
    OldRowsRead(c, kek, w, e, data, ivs);
    OneRowSound(c, kek, w3, w.nextId);
    RestartAfterTimedFailureIff(c, kek, w, e, data, ivs);
  }

  lemma RestartedInv(c: Crypto, kek: Bytes, w: World, e: Event, data: Plain, ivs: Vectors)
    requires Inv(c, kek, w) && e.RotateAllFailed?
    ensures
      var w3 := RestartedAfter(c, kek, w, e, data, ivs);
      Inv(c, kek, w3) && w.nextId in w3.plain && w3.plain[w.nextId] == data
  {
    NextKeepsInv(c, kek, w, e);
    InsertKeepsInv(c, kek, Next(c, kek, w, e), data, ivs, Complete);
    RestartKeepsInv(c, kek, AfterTimedFailure(c, kek, w, e, data, ivs));
  }

  lemma IndexedAfterRestart(c: Crypto, kek: Bytes, w: World, e: Event, data: Plain, ivs: Vectors)
    requires Inv(c, kek, w) && Steady(c, kek, w) && w.marks == NO_MARKS && e.RotateAllFailed?
    ensures
      var w3 := RestartedAfter(c, kek, w, e, data, ivs);
      && w3.tables.main.Keys == w3.plain.Keys && IndexIntact(c, w3.keys.idx, w3.tables.main, w3.plain)
      && AllFindable(c, w3.keys.idx, w3.tables, w3.plain)
  {
    var w3 := RestartedAfter(c, kek, w, e, data, ivs);
    IndexedAsWithout(c, kek, w, e, data, ivs);
    KeysAfterFailure(c, kek, w, e);
    assert Extends(w3.keys.Get(Idx), w.keys.Get(Idx));
    IndexedUnderLonger(c, w.keys.idx, w3.keys.idx, w3.tables, w3.plain);
    forall id | id in w3.tables.main ensures Findable(c, w3.keys.idx, w3.tables.inverted, id, w3.plain[id]) {
      CoveredIsFindable(c, w3.keys, w3.tables.inverted, id, w3.plain[id]);
    }
  }
}
