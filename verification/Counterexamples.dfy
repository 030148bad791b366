/** Runs in which exact search goes wrong, and a library under which they do. */
module Counterexamples {
  import opened Common
  import opened Hex
  import opened Sm4
  import opened Tables
  import opened Database
  import opened Keys
  import opened Dao
  import opened Search
  import opened Exactness
  import opened Reindex
  import opened Lifecycle
  import opened Runs
  import opened Failures
  import opened Sessions

  lemma RunOfOne(c: Crypto, kek: Bytes, w: World, a: Event)
    ensures Run(c, kek, w, [a]) == Next(c, kek, w, a)
    ensures !a.RebuildCut? ==> AllPossible(c, kek, w, [a])
  {
    assert Run(c, kek, w, []) == w && AllPossible(c, kek, w, []);
    OneMore(c, kek, w, [], a);
    assert [] + [a] == [a];
  }

  lemma RunOfTwo(c: Crypto, kek: Bytes, w: World, a: Event, b: Event)
    ensures Run(c, kek, w, [a, b]) == Next(c, kek, Next(c, kek, w, a), b)
    ensures !a.RebuildCut? && !b.RebuildCut? ==> AllPossible(c, kek, w, [a, b])
  {
    RunOfOne(c, kek, w, a);
    OneMore(c, kek, w, [a], b);
    assert [a] + [b] == [a, b];
  }

  lemma OneMore(c: Crypto, kek: Bytes, w: World, es: seq<Event>, e: Event)
    ensures Run(c, kek, w, es + [e]) == Next(c, kek, Run(c, kek, w, es), e)
    ensures AllPossible(c, kek, w, es) && !e.RebuildCut? ==> AllPossible(c, kek, w, es + [e])
  {
    assert (es + [e])[..|es|] == es;
  }

  lemma {:induction false} RunConcat(c: Crypto, kek: Bytes, w: World, es: seq<Event>, more: seq<Event>)
    requires AllPossible(c, kek, w, es) && AllPossible(c, kek, Run(c, kek, w, es), more)
    ensures Run(c, kek, w, es + more) == Run(c, kek, Run(c, kek, w, es), more)
    ensures AllPossible(c, kek, w, es + more)
    decreases |more|
  {
    if more == [] {
      assert es + more == es;
    } else {
      RunConcat(c, kek, w, es, more[..|more| - 1]);
      assert (es + more)[..|es + more| - 1] == es + more[..|more| - 1];
    }
  }

  // ---- Rebuilding a row of an older version ----

  // The new key opens what the old one sealed, to another text.
  ghost predicate OpensToAnother(c: Crypto, value: Bytes, oldKey: Bytes, newKey: Bytes, iv: Block) {
    var other := Opened(c, Sealed(c, value, oldKey, iv), newKey);
    |value| >= 2 && other.Ok? && other.value != value
  }

  // What it opens does not collide with the value: its hash is no known hash of the value.
  ghost predicate OpensApart(c: Crypto, w: World, value: Bytes, oldKey: Bytes, newKey: Bytes, iv: Block) {
    var other := Opened(c, Sealed(c, value, oldKey, iv), newKey);
    other.Ok? ==> HmacHex(c, other.value, KeyOr(w.keys.idx)) !in ExactHashes(c, w.keys.idx, value)
  }

  function StaleRebuild(w: World, data: Plain, ivs: Vectors, key: Block, iv: Block): seq<Event> {
    [Insert(data, ivs, Complete), Rotate(Enc, key, iv), RebuildDone(1, w.nextId, w.nextId)]
  }

  // Insert, rotate, rebuild, each without any failure: exact search is wrong.
  lemma StaleRebuildHarms(c: Crypto, kek: Bytes, w: World, data: Plain, ivs: Vectors, key: Block, iv: Block)
    requires Inv(c, kek, w) && OpensToAnother(c, data.name, w.globals.enc, key, ivs.name)
    requires OpensApart(c, w, data.name, w.globals.enc, key, ivs.name)
    ensures
      var es := StaleRebuild(w, data, ivs, key, iv);
      var w' := Run(c, kek, w, es);
      AllPossible(c, kek, w, es) && w'.tables.main.Keys == w'.plain.Keys && !ExactRight(c, w')
  {
    var id := w.nextId;
    RunOfTwo(c, kek, w, Insert(data, ivs, Complete), Rotate(Enc, key, iv));
    OneMore(c, kek, w, [Insert(data, ivs, Complete), Rotate(Enc, key, iv)], RebuildDone(1, id, id));
    assert [Insert(data, ivs, Complete), Rotate(Enc, key, iv)] + [RebuildDone(1, id, id)]
        == StaleRebuild(w, data, ivs, key, iv);
    StaleRow(c, kek, w, data, ivs, key, iv);
    RebuildOfStaleRow(c, kek, BeforeRebuild(c, kek, w, data, ivs, key, iv), id, w.globals.enc, key, ivs.name);
  }

  ghost function BeforeRebuild(c: Crypto, kek: Bytes, w: World, data: Plain, ivs: Vectors, key: Block,
      iv: Block): World {
    Next(c, kek, Next(c, kek, w, Insert(data, ivs, Complete)), Rotate(Enc, key, iv))
  }

  lemma StaleRow(c: Crypto, kek: Bytes, w: World, data: Plain, ivs: Vectors, key: Block, iv: Block)
    requires Inv(c, kek, w)
    ensures
      var id, w2 := w.nextId, BeforeRebuild(c, kek, w, data, ivs, key, iv);
      && Inv(c, kek, w2) && id in w2.tables.main && w2.plain[id] == data && JobOf(w2, 1, id, id).encKey == key
      && w2.tables.main[id].name.cipher == Sealed(c, data.name, w.globals.enc, ivs.name) && w2.keys.idx == w.keys.idx
  {
    var w1 := AfterInsertEvent(c, w, data, ivs, Complete);
    InsertKeepsInv(c, kek, w, data, ivs, Complete);
    RotateKeepsInv(c, kek, w1, Enc, key, iv);
    RotatedJobKey(c, kek, w1, key, iv, w.nextId);
    SealedColumns(c, w, data, ivs, Name);
  }

  lemma RebuildOfStaleRow(c: Crypto, kek: Bytes, w: World, id: int, oldKey: Bytes, newKey: Bytes, iv: Block)
    requires Inv(c, kek, w) && id in w.tables.main && JobOf(w, 1, id, id).encKey == newKey
    requires w.tables.main[id].name.cipher == Sealed(c, w.plain[id].name, oldKey, iv)
    requires OpensToAnother(c, w.plain[id].name, oldKey, newKey, iv)
    requires OpensApart(c, w, w.plain[id].name, oldKey, newKey, iv)
    ensures
      var w' := Next(c, kek, w, RebuildDone(1, id, id));
      w'.tables.main.Keys == w'.plain.Keys && !ExactRight(c, w')
  {
    StaleRowIsUnsafe(c, JobOf(w, 1, id, id), w.tables.main[id], w.plain[id], oldKey, newKey, iv);
    UnsafeRebuildHarms(c, kek, w, 1, id, id, id);
  }

  lemma StaleRowIsUnsafe(c: Crypto, job: Job, row: Row, data: Plain, oldKey: Bytes, newKey: Bytes, iv: Block)
    requires job.code == 1 && job.encKey == newKey && row.name.cipher == Sealed(c, data.name, oldKey, iv)
    requires OpensToAnother(c, data.name, oldKey, newKey, iv)
    ensures !SafeRow(c, job, row, data) && JobField(job) == Name
  {
    SealedLength(c, data.name, oldKey, iv);
  }

  lemma RotatedJobKey(c: Crypto, kek: Bytes, w: World, key: Block, iv: Block, id: int)
    requires AllKeysInv(c, kek, w)
    ensures JobOf(AfterRotate(c, kek, w, Enc, key, iv), 1, id, id).encKey == key
  {
    KeysOfInv(c, kek, w, Enc);
    GetEach(w);
    CurrentAfterRotation(w.keys.enc, Some(key));
  }

  // ---- Writing after a failure of the timer ----

  // At the start the timer draws the new encryption key and fails on the next; the session goes on.
  function MislabelledInsert(data: Plain, ivs: Vectors, key: Block): seq<Event> {
    [RotateAllFailed(Some(key), None, None, ivs, 0), Insert(data, ivs, Complete)]
  }

  // A row inserted then is sealed by the old key: exact search is wrong.
  lemma MislabelledInsertHarms(c: Crypto, kek: Bytes, w: World, data: Plain, ivs: Vectors, key: Block)
    requires Inv(c, kek, w) && OpensToAnother(c, data.name, w.globals.enc, key, ivs.name)
    ensures
      var es := MislabelledInsert(data, ivs, key);
      var w' := Run(c, kek, w, es);
      AllPossible(c, kek, w, es) && w'.tables.main.Keys == w'.plain.Keys && !ExactRight(c, w')
  {
    var failure := RotateAllFailed(Some(key), None, None, ivs, 0);
    var w1 := Next(c, kek, w, failure);
    NextKeepsInv(c, kek, w, failure);
    RunOfTwo(c, kek, w, failure, Insert(data, ivs, Complete));
    FailedGlobals(c, kek, w, key, ivs);
    WrittenReadsIff(c, kek, w1, data, ivs, w.nextId, Name);
    MisreadRowHarms(c, w1, data, ivs);
  }

  lemma FailedGlobals(c: Crypto, kek: Bytes, w: World, key: Block, ivs: Vectors)
    requires Inv(c, kek, w)
    ensures
      var w1 := Next(c, kek, w, RotateAllFailed(Some(key), None, None, ivs, 0));
      && KeyOr(w1.keys.enc) == key && w1.globals == w.globals && w1.nextId == w.nextId
      && w1.tables.main.Keys == w1.plain.Keys
  {
    KeysOfInv(c, kek, w, Enc);
    GetEach(w);
    CurrentAfterRotation(w.keys.enc, Some(key));
  }

  lemma MisreadRowHarms(c: Crypto, w: World, data: Plain, ivs: Vectors)
    requires w.tables.main.Keys == w.plain.Keys && |data.name| >= 2
    requires FieldValue(c, w.keys, w.nextId, Written(c, w, data, ivs), Name, w.globals.enc) != Ok(data.name)
    ensures
      var w' := AfterInsertEvent(c, w, data, ivs, Complete);
      w'.tables.main.Keys == w'.plain.Keys && !ExactRight(c, w')
  {
    var w' := AfterInsertEvent(c, w, data, ivs, Complete);
    if ExactSearchRight(c, w'.keys, w'.tables, w'.plain, w'.globals.enc) {
      RightSearchNeeds(c, w'.keys, w'.tables, w'.plain, w'.globals.enc, w.nextId, Name);
    }
  }

  // ---- Losing an index key ----

  // At the start the timer draws new encryption and index keys and fails on the tag key; the
  // session goes on, and the menu rotates the encryption key.
  function RotatedTwice(ivs: Vectors, enc: Block, idx: Block, key: Block, iv: Block): seq<Event> {
    [RotateAllFailed(Some(enc), Some(idx), None, ivs, 0), Rotate(Enc, key, iv)]
  }

  function InsertAndRebuild(id: int, data: Plain, ivs: Vectors): seq<Event> {
    [Insert(data, ivs, Complete), RebuildDone(1, id, id)]
  }

  // Then a row is inserted and rebuilt, and the program ends: the index key that the rebuild used
  // was never saved.
  function LostIndexKey(w: World, data: Plain, ivs: Vectors, enc: Block, idx: Block, key: Block,
      iv: Block): seq<Event> {
    RotatedTwice(ivs, enc, idx, key, iv) + InsertAndRebuild(w.nextId, data, ivs) + [Restart]
  }

  // The blind index of the row is known after this exactly when its hash under the lost key
  // collides with one under a key that was saved: otherwise exact search is wrong, although the
  // rebuild opened the value itself.
  lemma LostIndexKeyHarms(c: Crypto, kek: Bytes, w: World, data: Plain, ivs: Vectors, enc: Block, idx: Block,
      key: Block, iv: Block)
    requires Inv(c, kek, w)
    ensures
      var es, id := LostIndexKey(w, data, ivs, enc, idx, key, iv), w.nextId;
      var w' := Run(c, kek, w, es);
      && AllPossible(c, kek, w, es) && w'.tables.main.Keys == w'.plain.Keys && id in w'.plain && w'.plain[id] == data
      && (BlindKnown(c, w'.keys.idx, w'.tables.main[id], data, Name) <==> HashSaved(c, w, data.name, idx))
      && (|data.name| >= 2 && ExactRight(c, w') ==> HashSaved(c, w, data.name, idx))
  {
    var before, writes := RotatedTwice(ivs, enc, idx, key, iv), InsertAndRebuild(w.nextId, data, ivs);
    KeysBeforeInsert(c, kek, w, ivs, enc, idx, key, iv);
    ReindexedRow(c, kek, Run(c, kek, w, before), data, ivs);
    LostInRun(c, kek, w, before, writes, data, idx);
  }

  // The hash under one key is the hash under a saved one.
  ghost predicate HashSaved(c: Crypto, w: World, value: Bytes, key: Bytes) {
    exists v :: v in w.config.idx && v in w.keys.idx.infos
                && HmacHex(c, value, key) == HmacHex(c, value, w.keys.idx.infos[v].key)
  }

  // The keys and the row as the two pieces of the run leave them.
  ghost predicate KeyUnsaved(w: World, w': World, key: Bytes) {
    && w'.nextId == w.nextId && w'.globals.enc == KeyOr(w'.keys.enc) && KeyOr(w'.keys.idx) == key
    && w'.config.idx == w.config.idx && Extends(w'.keys.idx, w.keys.idx)
  }

  ghost predicate RowIndexed(c: Crypto, w: World, w': World, data: Plain) {
    && w.nextId in w'.tables.main && w.nextId in w'.plain && w'.plain[w.nextId] == data
    && w'.tables.main[w.nextId].name.blind == HmacHex(c, data.name, KeyOr(w.keys.idx))
    && w'.keys == w.keys && w'.config == w.config
  }

  lemma LostInRun(c: Crypto, kek: Bytes, w: World, before: seq<Event>, writes: seq<Event>, data: Plain, idx: Bytes)
    requires Inv(c, kek, w) && AllPossible(c, kek, w, before)
    requires
      var w2 := Run(c, kek, w, before);
      && KeyUnsaved(w, w2, idx) && AllPossible(c, kek, w2, writes)
      && Inv(c, kek, Run(c, kek, w2, writes)) && RowIndexed(c, w2, Run(c, kek, w2, writes), data)
    ensures
      var es, id := before + writes + [Restart], w.nextId;
      var w' := Run(c, kek, w, es);
      && AllPossible(c, kek, w, es) && w'.tables.main.Keys == w'.plain.Keys && id in w'.plain && w'.plain[id] == data
      && (BlindKnown(c, w'.keys.idx, w'.tables.main[id], data, Name) <==> HashSaved(c, w, data.name, idx))
      && (|data.name| >= 2 && ExactRight(c, w') ==> HashSaved(c, w, data.name, idx))
  {
    RunConcat(c, kek, w, before, writes);
    OneMore(c, kek, w, before + writes, Restart);
    RestartIs(c, kek, Run(c, kek, w, before + writes), Restart);
    LostByRestart(c, kek, w, Run(c, kek, Run(c, kek, w, before), writes), w.nextId, data, idx);
  }

  lemma LostByRestart(c: Crypto, kek: Bytes, w: World, w4: World, id: int, data: Plain, idx: Bytes)
    requires Inv(c, kek, w) && Inv(c, kek, w4) && w4.config.idx == w.config.idx && Extends(w4.keys.idx, w.keys.idx)
    requires id in w4.tables.main && id in w4.plain && w4.plain[id] == data
    requires w4.tables.main[id].name.blind == HmacHex(c, data.name, idx)
    ensures
      var w' := AfterRestart(c, kek, w4);
      && w'.tables == w4.tables && w'.plain == w4.plain && w'.tables.main.Keys == w'.plain.Keys
      && (BlindKnown(c, w'.keys.idx, w'.tables.main[id], data, Name) <==> HashSaved(c, w, data.name, idx))
      && (|data.name| >= 2 && ExactRight(c, w') ==> HashSaved(c, w, data.name, idx))
  {
    var w' := AfterRestart(c, kek, w4);
    KnownAfterRestartIff(c, kek, w4, w4.tables.main[id], data, Name);
    SavedKeysStay(c, kek, w, w4);
    if |data.name| >= 2 && ExactRight(c, w') {
      RightSearchNeeds(c, w'.keys, w'.tables, w'.plain, w'.globals.enc, id, Name);
    }
  }

  // When the row is inserted the encryption key is in step and the current index key unsaved.
  lemma KeysBeforeInsert(c: Crypto, kek: Bytes, w: World, ivs: Vectors, enc: Block, idx: Block, key: Block, iv: Block)
    requires Inv(c, kek, w)
    ensures
      var es := RotatedTwice(ivs, enc, idx, key, iv);
      var w2 := Run(c, kek, w, es);
      AllPossible(c, kek, w, es) && Inv(c, kek, w2) && KeyUnsaved(w, w2, idx)
  {
    var failure := RotateAllFailed(Some(enc), Some(idx), None, ivs, 0);
    var w1 := Next(c, kek, w, failure);
    RunOfTwo(c, kek, w, failure, Rotate(Enc, key, iv));
    NextKeepsInv(c, kek, w, failure);
    KeysAfterDraws(c, kek, w, ivs, enc, idx);
    RotateKeepsInv(c, kek, w1, Enc, key, iv);
    KeysOfInv(c, kek, w1, Enc);
    GetEach(w1);
    CurrentAfterRotation(w1.keys.enc, Some(key));
  }

  lemma KeysAfterDraws(c: Crypto, kek: Bytes, w: World, ivs: Vectors, enc: Block, idx: Block)
    requires Inv(c, kek, w)
    ensures
      var w1 := Next(c, kek, w, RotateAllFailed(Some(enc), Some(idx), None, ivs, 0));
      && w1.nextId == w.nextId && KeyOr(w1.keys.idx) == idx && w1.config == w.config && Extends(w1.keys.idx, w.keys.idx)
  {
    KeysOfInv(c, kek, w, Idx);
    GetEach(w);
    RotationExtends(w.keys.idx, Some(idx));
    CurrentAfterRotation(w.keys.idx, Some(idx));
  }

  // The rebuild of a row written in step hashes the value under the current index key.
  lemma ReindexedRow(c: Crypto, kek: Bytes, w: World, data: Plain, ivs: Vectors)
    requires Inv(c, kek, w) && w.globals.enc == KeyOr(w.keys.enc)
    ensures
      var es := InsertAndRebuild(w.nextId, data, ivs);
      var w' := Run(c, kek, w, es);
      AllPossible(c, kek, w, es) && Inv(c, kek, w') && RowIndexed(c, w, w', data)
  {
    var id := w.nextId;
    RunOfTwo(c, kek, w, Insert(data, ivs, Complete), RebuildDone(1, id, id));
    InsertKeepsInv(c, kek, w, data, ivs, Complete);
    SealedColumns(c, w, data, ivs, Name);
    RebuiltName(c, kek, Next(c, kek, w, Insert(data, ivs, Complete)), id, data.name, ivs.name);
  }

  lemma RebuiltName(c: Crypto, kek: Bytes, w: World, id: int, value: Bytes, iv: Block)
    requires Inv(c, kek, w) && id in w.tables.main
    requires w.tables.main[id].name.cipher == Sealed(c, value, KeyOr(w.keys.enc), iv)
    ensures
      var w' := Next(c, kek, w, RebuildDone(1, id, id));
      && Inv(c, kek, w') && w'.plain == w.plain && w'.keys == w.keys && w'.config == w.config
      && id in w'.tables.main && w'.tables.main[id].name.blind == HmacHex(c, value, KeyOr(w.keys.idx))
  {
    var job := JobOf(w, 1, id, id);
    RebuildDoneKeepsInv(c, kek, w, 1, id, id);
    AfterRebuildDone(c, kek, w, 1, id, id);
    FullPassIsDone(c, job, w.tables);
    KeysOfInv(c, kek, w, Enc);
    GetEach(w);
    SealedOpens(c, job, w.tables.main[id], value, iv);
    assert Done(c, job, w.tables, FullPass(c, job, w.tables), id);
  }

  lemma SealedOpens(c: Crypto, job: Job, row: Row, value: Bytes, iv: Block)
    requires job.code == 1 && |job.encKey| == KEY_LEN && row.name.cipher == Sealed(c, value, job.encKey, iv)
    ensures Text(c, job, row) == Ok(Some(value)) && JobField(job) == Name
  {
    OpenUndoesSeal(c, value, job.encKey, iv);
    SealedLength(c, value, job.encKey, iv);
  }

  lemma SavedKeysStay(c: Crypto, kek: Bytes, w: World, w': World)
    requires AllKeysInv(c, kek, w) && w'.config.idx == w.config.idx && Extends(w'.keys.idx, w.keys.idx)
    ensures forall v :: v in w.config.idx ==>
      v in w.keys.idx.infos && v in w'.keys.idx.infos && w'.keys.idx.infos[v].key == w.keys.idx.infos[v].key
  {
    KeysOfInv(c, kek, w, Idx);
    GetEach(w);
  }

  // ---- A library under which they happen ----

  // The cipher adds the key to the block; the hash has 32 bytes, the key and, for texts of at most
  // fifteen bytes, the text and its length. No property of block ciphers and hashes of one length
  // rules the runs out.
  function KeyBlock(key: Bytes): Block {
    if |key| == 16 then key else seq(16, _ => 0)
  }

  function Added(key: Bytes, b: Block): Block {
    Xor(KeyBlock(key), b)
  }

  lemma AddedTwice(key: Bytes, b: Block)
    ensures Added(key, Added(key, b)) == b
  {
    XorCancels(KeyBlock(key), b);
  }

  function Folded(data: Bytes): Block {
    if |data| <= 15 then data + seq(15 - |data|, _ => 0) + [|data| as bv8] else seq(16, _ => 0xFF)
  }

  function ToyMac(data: Bytes, key: Bytes): (r: Bytes)
    ensures |r| == 32
  {
    KeyBlock(key) + Folded(data)
  }

  function Toy(): Crypto {
    assert Inverse(Primitives(ToyMac, Added, Added)) by {
      forall key: Bytes, b: Block ensures Added(key, Added(key, b)) == b {
        AddedTwice(key, b);
      }
    }
    Primitives(ToyMac, Added, Added)
  }

  // Short texts collide under it only with themselves, and only under one key.
  lemma ToyHash(a: Bytes, b: Bytes, k: Block, l: Block)
    requires |a| <= 15 && |b| <= 15 && HmacHex(Toy(), a, k) == HmacHex(Toy(), b, l)
    ensures a == b && k == l
  {
    ToHexInjective(ToyMac(a, k), ToyMac(b, l));
    assert ToyMac(a, k)[..16] == k && ToyMac(b, l)[..16] == l;
    assert ToyMac(a, k)[16..] == Folded(a) && ToyMac(b, l)[16..] == Folded(b);
    FoldedInjective(a, b);
  }

  lemma FoldedInjective(a: Bytes, b: Bytes)
    requires |a| <= 15 && |b| <= 15 && Folded(a) == Folded(b)
    ensures a == b
  {
    assert Folded(a)[15] == |a| as bv8 && Folded(b)[15] == |b| as bv8;
    assert (|a| as bv8) as int == |a| && (|b| as bv8) as int == |b|;
    assert Folded(a)[..|a|] == a && Folded(b)[..|b|] == b;
  }

  const FIRST_KEY: Block := InitialKey(Enc)

  // The first key with one bit changed.
  function SecondKey(): Block {
    [0xA1] + FIRST_KEY[1..]
  }

  const AB: Bytes := [0x61, 0x62]

  const OTHER: Bytes := [0x60, 0x62]

  lemma ToyOpensToAnother(iv: Block)
    ensures OpensToAnother(Toy(), AB, FIRST_KEY, SecondKey(), iv)
    ensures Opened(Toy(), Sealed(Toy(), AB, FIRST_KEY, iv), SecondKey()) == Ok(OTHER)
  {
    var b := Added(FIRST_KEY, Xor(iv, Pad(AB)));
    var q := Xor(iv, Added(SecondKey(), b));
    OneBlock(iv, Pad(AB), FIRST_KEY);
    OneBlockBack(iv, b, SecondKey());
    OpenBlocks(Toy(), iv, b, SecondKey());
    OneBit(iv, Pad(AB), b, q);
    UnpadsToOther(q);
  }

  lemma OneBlock(iv: Block, p: Block, key: Block)
    ensures CbcEncrypt(Toy(), key, iv, p) == Added(key, Xor(iv, p))
  {
    assert p[..16] == p && p[16..] == [];
  }

  lemma OneBlockBack(iv: Block, b: Block, key: Block)
    ensures CbcDecrypt(Toy(), key, iv, b) == Xor(iv, Added(key, b))
  {
    assert b[..16] == b && b[16..] == [];
  }

  lemma UnpadsToOther(q: Block)
    requires q[0] == Pad(AB)[0] ^ 1 && forall i :: 1 <= i < 16 ==> q[i] == Pad(AB)[i]
    ensures Unpad(q) == Some(OTHER)
  {
    assert q[..2] == OTHER;
  }

  lemma OneBit(iv: Block, p: Block, b: Block, q: Block)
    requires b == Added(FIRST_KEY, Xor(iv, p)) && q == Xor(iv, Added(SecondKey(), b))
    ensures q[0] == p[0] ^ 1 && forall i :: 1 <= i < 16 ==> q[i] == p[i]
  {
    forall i | 0 <= i < 16 ensures q[i] == iv[i] ^ (SecondKey()[i] ^ (FIRST_KEY[i] ^ (iv[i] ^ p[i]))) {
    }
    forall i | 1 <= i < 16 ensures q[i] == p[i] {
      FourTerms(iv[i], FIRST_KEY[i], p[i]);
    }
    FiveTerms(iv[0], p[0]);
  }

  lemma FourTerms(a: bv8, k: bv8, p: bv8)
    ensures a ^ (k ^ (k ^ (a ^ p))) == p
  {
  }

  lemma FiveTerms(a: bv8, p: bv8)
    ensures a ^ (0xA1 ^ (0xA0 ^ (a ^ p))) == p ^ 1
  {
  }

  // The program can take these runs.
  lemma ProgramTakesThem(w: World, data: Plain, ivs: Vectors, enc: Block, idx: Block, key: Block, iv: Block)
    ensures ProgramRun(StaleRebuild(w, data, ivs, key, iv)) && ProgramRun(MislabelledInsert(data, ivs, key))
    ensures ProgramRun(LostIndexKey(w, data, ivs, enc, idx, key, iv))
  {
    assert TimerLooks(MislabelledInsert(data, ivs, key), 0);
    assert TimerLooks(LostIndexKey(w, data, ivs, enc, idx, key, iv), 0);
  }

  // The first start leaves one version of each key.
  lemma FirstKeys(kek: Bytes, before: World, ivs: Vectors, t: KeyType, v: int)
    requires Fresh(Toy(), kek, before) && before.marks == NO_MARKS
    requires v in Started(Toy(), kek, ivs, before).keys.Get(t).infos
    ensures
      var w := Started(Toy(), kek, ivs, before);
      w.keys.Get(t).infos[v].key == InitialKey(t)
  {
    var w := Started(Toy(), kek, ivs, before);
    StartSatisfiesInv(Toy(), kek, ivs, before);
    KeysOfInv(Toy(), kek, w, t);
    CutStartIsFresh(Toy(), kek, before, ivs, 3);
    AllSavedInitially(Toy(), kek, before.config, ivs, t);
    FirstOnlyHasOne(OpenWith(Toy(), kek), w.config.Get(t), InitialKey(t));
    assert w.config.Get(t).Keys == w.keys.Get(t).infos.Keys;
    assert w.keys.Get(t).current in w.keys.Get(t).infos.Keys && v in w.keys.Get(t).infos.Keys;
  }

  lemma ToyOpensApart(w: World, iv: Block)
    requires |KeyOr(w.keys.idx)| == 16 && forall v :: v in w.keys.idx.infos ==> |w.keys.idx.infos[v].key| == 16
    ensures OpensApart(Toy(), w, AB, FIRST_KEY, SecondKey(), iv)
  {
    ToyOpensToAnother(iv);
    forall v | v in w.keys.idx.infos
      ensures HmacHex(Toy(), OTHER, KeyOr(w.keys.idx)) != HmacHex(Toy(), AB, w.keys.idx.infos[v].key)
    {
      if HmacHex(Toy(), OTHER, KeyOr(w.keys.idx)) == HmacHex(Toy(), AB, w.keys.idx.infos[v].key) {
        ToyHash(OTHER, AB, KeyOr(w.keys.idx), w.keys.idx.infos[v].key);
      }
    }
  }

  // From the first start on: insert a person called "ab", rotate the encryption key, rebuild.
  lemma StaleRebuildExample(kek: Bytes, before: World, data: Plain, ivs: Vectors, iv: Block)
    requires Fresh(Toy(), kek, before) && before.marks == NO_MARKS && data.name == AB
    ensures
      var w := Started(Toy(), kek, ivs, before);
      var es := StaleRebuild(w, data, ivs, SecondKey(), iv);
      var w' := Run(Toy(), kek, w, es);
      ProgramRun(es) && w'.tables.main.Keys == w'.plain.Keys && !ExactRight(Toy(), w')
  {
    var w := Started(Toy(), kek, ivs, before);
    StartSatisfiesInv(Toy(), kek, ivs, before);
    ToyOpensToAnother(ivs.name);
    KeysOfInv(Toy(), kek, w, Idx);
    GetEach(w);
    assert w.globals.Get(Enc) == FIRST_KEY;
    ToyOpensApart(w, ivs.name);
    ProgramTakesThem(w, data, ivs, SecondKey(), SecondKey(), SecondKey(), iv);
    StaleRebuildHarms(Toy(), kek, w, data, ivs, SecondKey(), iv);
  }

  // From the first start on: the timer fails, then that insert.
  lemma MislabelledInsertExample(kek: Bytes, before: World, data: Plain, ivs: Vectors)
    requires Fresh(Toy(), kek, before) && before.marks == NO_MARKS && data.name == AB
    ensures
      var es := MislabelledInsert(data, ivs, SecondKey());
      var w' := Run(Toy(), kek, Started(Toy(), kek, ivs, before), es);
      ProgramRun(es) && w'.tables.main.Keys == w'.plain.Keys && !ExactRight(Toy(), w')
  {
    var w := Started(Toy(), kek, ivs, before);
    StartSatisfiesInv(Toy(), kek, ivs, before);
    ToyOpensToAnother(ivs.name);
    GetEach(w);
    assert w.globals.Get(Enc) == FIRST_KEY;
    ProgramTakesThem(w, data, ivs, SecondKey(), SecondKey(), SecondKey(), ivs.name);
    MislabelledInsertHarms(Toy(), kek, w, data, ivs, SecondKey());
  }

  // From the first start on: the timer fails on the tag key, the encryption key is rotated, a
  // person called "ab" is inserted and the names rebuilt. The next start does not find "ab".
  lemma LostIndexKeyExample(kek: Bytes, before: World, data: Plain, ivs: Vectors, enc: Block, key: Block, iv: Block)
    requires Fresh(Toy(), kek, before) && before.marks == NO_MARKS && data.name == AB
    ensures
      var w := Started(Toy(), kek, ivs, before);
      var es := LostIndexKey(w, data, ivs, enc, SecondKey(), key, iv);
      var w' := Run(Toy(), kek, w, es);
      ProgramRun(es) && w'.tables.main.Keys == w'.plain.Keys && !ExactRight(Toy(), w')
  {
    var w := Started(Toy(), kek, ivs, before);
    StartSatisfiesInv(Toy(), kek, ivs, before);
    NotSavedAtFirst(kek, before, ivs);
    ProgramTakesThem(w, data, ivs, enc, SecondKey(), key, iv);
    LostIndexKeyHarms(Toy(), kek, w, data, ivs, enc, SecondKey(), key, iv);
  }

  lemma NotSavedAtFirst(kek: Bytes, before: World, ivs: Vectors)
    requires Fresh(Toy(), kek, before) && before.marks == NO_MARKS
    ensures !HashSaved(Toy(), Started(Toy(), kek, ivs, before), AB, SecondKey())
  {
    var w := Started(Toy(), kek, ivs, before);
    if HashSaved(Toy(), w, AB, SecondKey()) {
      var v :| v in w.config.idx && v in w.keys.idx.infos
               && HmacHex(Toy(), AB, SecondKey()) == HmacHex(Toy(), AB, w.keys.idx.infos[v].key);
      FirstIndexKey(kek, before, ivs, v);
      OtherHash();
    }
  }

  lemma OtherHash()
    ensures HmacHex(Toy(), AB, SecondKey()) != HmacHex(Toy(), AB, InitialKey(Idx))
  {
    assert SecondKey()[1] == 0xA0 && InitialKey(Idx)[1] == 0xB0;
    if HmacHex(Toy(), AB, SecondKey()) == HmacHex(Toy(), AB, InitialKey(Idx)) {
      ToyHash(AB, AB, SecondKey(), InitialKey(Idx));
    }
  }

  lemma FirstIndexKey(kek: Bytes, before: World, ivs: Vectors, v: int)
    requires Fresh(Toy(), kek, before) && before.marks == NO_MARKS
    requires v in Started(Toy(), kek, ivs, before).keys.idx.infos
    ensures Started(Toy(), kek, ivs, before).keys.idx.infos[v].key == InitialKey(Idx)
  {
    GetEach(Started(Toy(), kek, ivs, before));
    FirstKeys(kek, before, ivs, Idx, v);
  }
}
