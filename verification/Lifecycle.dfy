/**
  The life of a store: the states of the program and its database, and the events that
  src/main.cpp drives, with every failure on the way.
 */
module Lifecycle {
  import opened Common
  import opened Sm4
  import opened Tables
  import opened Database
  import opened Keys
  import opened Dao
  import BatchDecryptor
  import opened Search
  import opened Exactness
  import opened Reindex

  // g_encKey, g_idxKey and g_tagKey.
  datatype Globals = Globals(enc: Bytes, idx: Bytes, tag: Bytes) {
    function Get(t: KeyType): Bytes {
      match t case Enc => enc case Idx => idx case Tag => tag
    }

    function Put(t: KeyType, key: Bytes): (r: Globals)
      ensures forall u: KeyType :: r.Get(u) == if u == t then key else Get(u)
    {
      match t case Enc => this.(enc := key) case Idx => this.(idx := key) case Tag => this.(tag := key)
    }
  }

  function FieldsOf(id: int): set<(int, Field)> {
    set f: Field | true :: (id, f)
  }

  // What failures have done to single rows and fields.
  datatype Marks = Marks(
    mislabelled: set<int>,               // rows that the key of their label did not open
    broken: map<(int, Field), Source>,   // blind indexes computed from another text, and from what
    orphaned: map<(int, Field), Bytes>,  // blind indexes under an index key that was lost, and that key
    pending: set<(int, Field)>           // fields whose tokens may not all be there
  ) {
    function Clear(id: int): Marks {
      Marks(mislabelled - {id}, broken - FieldsOf(id), orphaned - FieldsOf(id), pending - FieldsOf(id))
    }
  }

  const NO_MARKS := Marks({}, map[], map[], {})

  // The state of the program and its database, with two histories the program does not
  // keep: the last written values, and the marks of failures.
  datatype World = World(
    tables: Tables, nextId: int, config: KeyConfig, keys: KeyState, globals: Globals,
    plain: map<int, Plain>, marks: Marks
  )

  // How far an insert got: no row, the row without its tokens, everything.
  datatype Extent = NoRow | RowOnly | Complete

  datatype Event =
    | Insert(data: Plain, ivs: Vectors, extent: Extent)
    | Update(id: int, data: Plain, ivs: Vectors, committed: bool)
    | Delete(id: int, committed: bool)
    | Rotate(t: KeyType, drawn: Block, iv: Block)
    | RotateAll(enc: Block, idx: Block, tag: Block, ivs: Vectors)
    | RotateFailed(t: KeyType, draw: Option<Block>)  // no key drawn, or its save refused
    | RotateAllFailed(encDraw: Option<Block>, idxDraw: Option<Block>, tagDraw: Option<Block>, ivs: Vectors, saves: nat)
    | Restart
    | RebuildDone(code: int, lo: int, hi: int)
    | RebuildCut(code: int, lo: int, hi: int, left: Tables)  // left is what a crash left behind

  function KeyOr(ring: KeyRing): Bytes {
    match CurrentKey(ring) case Ok(key) => key case Err(_) => []
  }

  function JobOf(w: World, code: int, lo: int, hi: int): Job {
    Job(code, KeyOr(w.keys.enc), KeyOr(w.keys.idx), lo, hi)
  }

  // ---- The events ----

  // What main.cpp writes: sealed by the global key, labelled with the manager's version.
  function Written(c: Crypto, w: World, data: Plain, ivs: Vectors): Row {
    SealedRow(c, data, w.globals.enc, w.globals.idx, w.globals.tag, w.keys.enc.current, ivs)
  }

  ghost function WriteMarks(c: Crypto, w: World, id: int, data: Plain, ivs: Vectors, tokensIn: bool): Marks {
    var m := w.marks.Clear(id);
    m.(mislabelled := m.mislabelled + if RowOpens(c, w.keys.enc, Written(c, w, data, ivs), data) then {} else {id},
       pending := m.pending + if tokensIn then {} else FieldsOf(id))
  }

  ghost function AfterInsertEvent(c: Crypto, w: World, data: Plain, ivs: Vectors, extent: Extent): World {
    if extent.NoRow? then w else
      var id, row := w.nextId, Written(c, w, data, ivs);
      w.(tables := if extent.Complete? then AfterInsert(c, w.tables, id, row, data, w.globals.idx)
                   else w.tables.(main := w.tables.main[id := row]),
         nextId := id + 1, plain := w.plain[id := data], marks := WriteMarks(c, w, id, data, ivs, extent.Complete?))
  }

  ghost function AfterUpdateEvent(c: Crypto, w: World, id: int, data: Plain, ivs: Vectors, committed: bool): World {
    if !committed then w else
      var tables := AfterUpdate(c, w.tables, id, Written(c, w, data, ivs), data, w.globals.idx);
      if id !in w.tables.main then w.(tables := tables) else
        w.(tables := tables, plain := w.plain[id := data], marks := WriteMarks(c, w, id, data, ivs, true))
  }

  function AfterDeleteEvent(w: World, id: int, committed: bool): World {
    if !committed then w else
      w.(tables := AfterDelete(w.tables, id), plain := w.plain - {id}, marks := w.marks.Clear(id))
  }

  // rotate, save, refresh the global.
  function AfterRotate(c: Crypto, kek: Bytes, w: World, t: KeyType, drawn: Block, iv: Block): World {
    var ring := Rotated(w.keys.Get(t), Some(drawn));
    w.(keys := w.keys.Put(t, ring),
       config := w.config.Put(t, ring.current, StoredUnder(c, kek, drawn, iv)),
       globals := w.globals.Put(t, drawn))
  }

  function AfterRotateAll(c: Crypto, kek: Bytes, w: World, enc: Block, idx: Block, tag: Block, ivs: Vectors): World {
    var w1 := AfterRotate(c, kek, w, Enc, enc, ivs.name);
    var w2 := AfterRotate(c, kek, w1, Idx, idx, ivs.phone);
    AfterRotate(c, kek, w2, Tag, tag, ivs.address)
  }

  // The keys after three rotations, the first failure ending them.
  function RotatedKeys(keys: KeyState, enc: Option<Block>, idx: Option<Block>, tag: Option<Block>): KeyState {
    var k1 := keys.Put(Enc, Rotated(keys.enc, enc));
    if enc.None? then k1 else
      var k2 := k1.Put(Idx, Rotated(k1.idx, idx));
      if idx.None? then k2 else k2.Put(Tag, Rotated(k2.tag, tag))
  }

  // The config table after the first n saves of the current keys.
  function SavedFirst(c: Crypto, kek: Bytes, config: KeyConfig, keys: KeyState, ivs: Vectors, n: nat): KeyConfig {
    var c1 := config.Put(Enc, keys.enc.current, StoredUnder(c, kek, KeyOr(keys.enc), ivs.name));
    var c2 := c1.Put(Idx, keys.idx.current, StoredUnder(c, kek, KeyOr(keys.idx), ivs.phone));
    if n == 0 then config else if n == 1 then c1 else if n == 2 then c2
    else c2.Put(Tag, keys.tag.current, StoredUnder(c, kek, KeyOr(keys.tag), ivs.address))
  }

  // The saves happen once all three keys are drawn; the globals stay as they are.
  function AfterRotateAllFailed(c: Crypto, kek: Bytes, w: World, enc: Option<Block>, idx: Option<Block>,
      tag: Option<Block>, ivs: Vectors, saves: nat): World {
    var keys := RotatedKeys(w.keys, enc, idx, tag);
    w.(keys := keys,
       config := if enc.Some? && idx.Some? && tag.Some?
                 then SavedFirst(c, kek, w.config, keys, ivs, saves) else w.config)
  }

  // The rows and fields that depend on keys the history does not hold.
  ghost function Unopened(c: Crypto, w: World, keys: KeyState): set<int> {
    set id | id in w.tables.main && id in w.plain && !RowOpens(c, keys.enc, w.tables.main[id], w.plain[id])
  }

  // A key that gives the blind index, if a known one does.
  ghost function BlindKey(c: Crypto, idx: KeyRing, row: Row, data: Plain, f: Field): Bytes {
    if BlindKnown(c, idx, row, data, f) then
      var v :| v in idx.infos && row.Get(f).blind == HmacHex(c, data.Get(f), idx.infos[v].key);
      idx.infos[v].key
    else []
  }

  lemma BlindKeyGives(c: Crypto, idx: KeyRing, row: Row, data: Plain, f: Field)
    requires BlindKnown(c, idx, row, data, f)
    ensures row.Get(f).blind == HmacHex(c, data.Get(f), BlindKey(c, idx, row, data, f))
  {
  }

  // The fields whose blind index depends on a key the history does not hold, and that key.
  ghost function LostFields(c: Crypto, w: World, keys: KeyState): set<(int, Field)> {
    set e | e in AllFields(w) && e !in w.marks.broken && e !in w.marks.orphaned
            && !BlindKnown(c, keys.idx, w.tables.main[e.0], w.plain[e.0], e.1)
  }

  ghost function LostKeys(c: Crypto, w: World, keys: KeyState): map<(int, Field), Bytes> {
    map e | e in LostFields(c, w, keys) :: OldKey(c, w, e)
  }

  ghost function OldKey(c: Crypto, w: World, e: (int, Field)): Bytes
    requires e in AllFields(w)
  {
    BlindKey(c, w.keys.idx, w.tables.main[e.0], w.plain[e.0], e.1)
  }

  function AllFields(w: World): set<(int, Field)> {
    set id, f: Field | id in w.tables.main && id in w.plain :: (id, f)
  }

  ghost function Uncovered(c: Crypto, w: World, keys: KeyState): set<(int, Field)> {
    set id, f: Field | id in w.tables.main && id in w.plain
                       && !Covered(c, keys.idx, w.tables.inverted, id, w.plain[id], f) :: (id, f)
  }

  ghost function RestartMarks(c: Crypto, w: World, keys: KeyState): Marks {
    var m := w.marks;
    Marks(m.mislabelled + Unopened(c, w, keys), m.broken,
          m.orphaned + LostKeys(c, w, keys), m.pending + Uncovered(c, w, keys))
  }

  ghost function AfterRestart(c: Crypto, kek: Bytes, w: World): World {
    var keys := LoadedState(OpenWith(c, kek), w.config);
    w.(keys := keys, globals := Globals(KeyOr(keys.enc), KeyOr(keys.idx), KeyOr(keys.tag)),
       marks := RestartMarks(c, w, keys))
  }

  // The fields whose blind index in main is the one the job computes.
  function RewrittenFields(c: Crypto, job: Job, main0: map<int, Row>, main: map<int, Row>): set<(int, Field)> {
    set id | id in main0 && id in main && Target(c, job, id, main0[id])
             && main[id] == main0[id].WithBlind(JobField(job), NewBlind(c, job, main0[id])) :: (id, JobField(job))
  }

  function AfterRebuild(c: Crypto, w: World, job: Job, tables: Tables, finished: bool): World {
    var right, wrong := RightFields(c, job, w.tables.main, w.plain), WrongFields(c, job, w.tables.main, w.plain);
    var rewritten, m := RewrittenFields(c, job, w.tables.main, tables.main), w.marks;
    w.(tables := tables, marks := m.(
         broken := (m.broken - right * rewritten) + WrongSources(c, job, w.tables.main, wrong * rewritten),
         orphaned := m.orphaned - rewritten,
         pending := if finished then m.pending - right + wrong else m.pending + right + wrong))
  }

  ghost function Next(c: Crypto, kek: Bytes, w: World, e: Event): World {
    match e
    case Insert(data, ivs, extent) => AfterInsertEvent(c, w, data, ivs, extent)
    case Update(id, data, ivs, committed) => AfterUpdateEvent(c, w, id, data, ivs, committed)
    case Delete(id, committed) => AfterDeleteEvent(w, id, committed)
    case Rotate(t, drawn, iv) => AfterRotate(c, kek, w, t, drawn, iv)
    case RotateAll(enc, idx, tag, ivs) => AfterRotateAll(c, kek, w, enc, idx, tag, ivs)
    case RotateFailed(t, draw) => w.(keys := w.keys.Put(t, Rotated(w.keys.Get(t), draw)))
    case RotateAllFailed(enc, idx, tag, ivs, saves) => AfterRotateAllFailed(c, kek, w, enc, idx, tag, ivs, saves)
    case Restart => AfterRestart(c, kek, w)
    case RebuildDone(code, lo, hi) =>
      var job := JobOf(w, code, lo, hi);
      AfterRebuild(c, w, job, FullPass(c, job, w.tables), true)
    case RebuildCut(code, lo, hi, left) => AfterRebuild(c, w, JobOf(w, code, lo, hi), left, false)
  }

  // The only bound on events: what an interrupted rebuild leaves is some prefix of its statements.
  ghost predicate Possible(c: Crypto, w: World, e: Event) {
    e.RebuildCut? ==> Between(c, JobOf(w, e.code, e.lo, e.hi), w.tables, e.left)
  }

  // ---- The invariant ----

  ghost predicate KnownGlobal(ring: KeyRing, key: Bytes) {
    exists v :: v in ring.infos && ring.infos[v].key == key
  }

  ghost predicate KeysInv(c: Crypto, kek: Bytes, w: World, t: KeyType) {
    && Usable(w.keys.Get(t)) && KnownGlobal(w.keys.Get(t), w.globals.Get(t))
    && Truthful(OpenWith(c, kek), w.config.Get(t), w.keys.Get(t)) && w.config.Get(t) != map[]
  }

  ghost predicate AllKeysInv(c: Crypto, kek: Bytes, w: World) {
    |kek| == KEY_LEN && forall t: KeyType :: KeysInv(c, kek, w, t)
  }

  // What holds of a field that no mark excuses, and of one that is marked.
  ghost predicate FieldInv(c: Crypto, idx: KeyRing, inverted: set<Token>, id: int, row: Row, data: Plain, f: Field,
      m: Marks) {
    && ((id, f) !in m.broken && (id, f) !in m.orphaned ==> BlindKnown(c, idx, row, data, f))
    && ((id, f) in m.broken ==> WrongBlind(c, row, data, f, m.broken[(id, f)]))
    && ((id, f) in m.orphaned && (id, f) !in m.broken ==>
        row.Get(f).blind == HmacHex(c, data.Get(f), m.orphaned[(id, f)]))
    && ((id, f) !in m.pending ==> Covered(c, idx, inverted, id, data, f))
  }

  ghost predicate RowInv(c: Crypto, keys: KeyState, inverted: set<Token>, id: int, row: Row, data: Plain, m: Marks) {
    && Sized(row, data) && (id !in m.mislabelled ==> RowOpens(c, keys.enc, row, data))
    && forall f: Field :: FieldInv(c, keys.idx, inverted, id, row, data, f, m)
  }

  ghost predicate RowsInv(c: Crypto, w: World) {
    && w.tables.main.Keys == w.plain.Keys
    && forall id :: id in w.tables.main ==>
      1 <= id < w.nextId && RowInv(c, w.keys, w.tables.inverted, id, w.tables.main[id], w.plain[id], w.marks)
  }

  ghost predicate Inv(c: Crypto, kek: Bytes, w: World) {
    AllKeysInv(c, kek, w) && RowsInv(c, w) && w.nextId >= 1
  }

  lemma KeysOfInv(c: Crypto, kek: Bytes, w: World, t: KeyType)
    requires AllKeysInv(c, kek, w)
    ensures KeysInv(c, kek, w, t)
  {
  }

  lemma GetEach(w: World)
    ensures w.keys.Get(Enc) == w.keys.enc && w.keys.Get(Idx) == w.keys.idx && w.keys.Get(Tag) == w.keys.tag
    ensures w.globals.Get(Enc) == w.globals.enc && w.globals.Get(Idx) == w.globals.idx
    ensures w.globals.Get(Tag) == w.globals.tag
    ensures w.config.Get(Enc) == w.config.enc && w.config.Get(Idx) == w.config.idx && w.config.Get(Tag) == w.config.tag
  {
  }

  // ---- Keys ----

  lemma SameKeysInv(c: Crypto, kek: Bytes, w: World, w': World)
    requires AllKeysInv(c, kek, w) && w'.keys == w.keys && w'.config == w.config && w'.globals == w.globals
    ensures AllKeysInv(c, kek, w')
  {
    assert forall t: KeyType :: KeysInv(c, kek, w, t) ==> KeysInv(c, kek, w', t);
  }

  ghost predicate SavedAs(c: Crypto, kek: Bytes, before: map<int, StoredKey>, after: map<int, StoredKey>, ring: KeyRing,
      v: int, iv: Block) {
    v in ring.infos && after == before[v := StoredUnder(c, kek, ring.infos[v].key, iv)]
  }

  // The table gained one key of the history.
  ghost predicate OneSaved(c: Crypto, kek: Bytes, before: map<int, StoredKey>, after: map<int, StoredKey>,
      ring: KeyRing) {
    exists v, iv: Block :: SavedAs(c, kek, before, after, ring, v, iv)
  }

  // One type of key: a longer history, perhaps one more record, and an old or the new global.
  lemma LongerKeys(c: Crypto, kek: Bytes, w: World, w': World, t: KeyType)
    requires KeysInv(c, kek, w, t) && |kek| == KEY_LEN
    requires Usable(w'.keys.Get(t)) && Extends(w'.keys.Get(t), w.keys.Get(t))
    requires w'.config.Get(t) == w.config.Get(t) || OneSaved(c, kek, w.config.Get(t), w'.config.Get(t), w'.keys.Get(t))
    requires w'.globals.Get(t) == w.globals.Get(t) || KnownGlobal(w'.keys.Get(t), w'.globals.Get(t))
    ensures KeysInv(c, kek, w', t)
  {
    TruthStays(OpenWith(c, kek), w.config.Get(t), w.keys.Get(t), w'.keys.Get(t));
    if w'.config.Get(t) != w.config.Get(t) {
      var v, iv: Block :| SavedAs(c, kek, w.config.Get(t), w'.config.Get(t), w'.keys.Get(t), v, iv);
      SavingIsTruthful(c, kek, w.config.Get(t), w'.keys.Get(t), v, iv);
    }
    if w'.globals.Get(t) == w.globals.Get(t) {
      var v :| v in w.keys.Get(t).infos && w.keys.Get(t).infos[v].key == w.globals.Get(t);
      assert v in w'.keys.Get(t).infos;
    }
  }

  lemma RotateKeepsKeys(c: Crypto, kek: Bytes, w: World, t: KeyType, drawn: Block, iv: Block)
    requires AllKeysInv(c, kek, w)
    ensures AllKeysInv(c, kek, AfterRotate(c, kek, w, t, drawn, iv))
    ensures forall u: KeyType :: Extends(AfterRotate(c, kek, w, t, drawn, iv).keys.Get(u), w.keys.Get(u))
  {
    var w' := AfterRotate(c, kek, w, t, drawn, iv);
    forall u: KeyType ensures KeysInv(c, kek, w', u) && Extends(w'.keys.Get(u), w.keys.Get(u)) {
      KeysOfInv(c, kek, w, u);
      if u == t {
        var ring := Rotated(w.keys.Get(t), Some(drawn));
        RotationExtends(w.keys.Get(t), Some(drawn));
        assert ring.current in ring.infos && ring.infos[ring.current].key == drawn;
        assert SavedAs(c, kek, w.config.Get(u), w'.config.Get(u), ring, ring.current, iv);
        LongerKeys(c, kek, w, w', u);
      }
    }
  }

  lemma RotateFailedKeepsKeys(c: Crypto, kek: Bytes, w: World, t: KeyType, draw: Option<Block>)
    requires AllKeysInv(c, kek, w)
    ensures AllKeysInv(c, kek, w.(keys := w.keys.Put(t, Rotated(w.keys.Get(t), draw))))
    ensures forall u: KeyType :: Extends(w.keys.Put(t, Rotated(w.keys.Get(t), draw)).Get(u), w.keys.Get(u))
  {
    var w' := w.(keys := w.keys.Put(t, Rotated(w.keys.Get(t), draw)));
    forall u: KeyType ensures KeysInv(c, kek, w', u) && Extends(w'.keys.Get(u), w.keys.Get(u)) {
      KeysOfInv(c, kek, w, u);
      if u == t {
        RotationExtends(w.keys.Get(t), draw);
        LongerKeys(c, kek, w, w', u);
      }
    }
  }

  // Each ring is rotated or not.
  lemma RotatedEach(keys: KeyState, enc: Option<Block>, idx: Option<Block>, tag: Option<Block>, t: KeyType)
    ensures
      var ring := RotatedKeys(keys, enc, idx, tag).Get(t);
      ring == keys.Get(t) || exists draw :: ring == Rotated(keys.Get(t), draw)
  {
    var draw := match t case Enc => enc case Idx => idx case Tag => tag;
    assert RotatedKeys(keys, enc, idx, tag).Get(t) == keys.Get(t)
        || RotatedKeys(keys, enc, idx, tag).Get(t) == Rotated(keys.Get(t), draw);
  }

  // Each type has at most its current key saved.
  lemma SavedEach(c: Crypto, kek: Bytes, config: KeyConfig, keys: KeyState, ivs: Vectors, n: nat, t: KeyType)
    ensures
      var saved := SavedFirst(c, kek, config, keys, ivs, n).Get(t);
      saved == config.Get(t) || exists iv: Block ::
        saved == config.Get(t)[keys.Get(t).current := StoredUnder(c, kek, KeyOr(keys.Get(t)), iv)]
  {
    var iv := match t case Enc => ivs.name case Idx => ivs.phone case Tag => ivs.address;
    assert SavedFirst(c, kek, config, keys, ivs, n).Get(t) == config.Get(t)
        || SavedFirst(c, kek, config, keys, ivs, n).Get(t)
           == config.Get(t)[keys.Get(t).current := StoredUnder(c, kek, KeyOr(keys.Get(t)), iv)];
  }

  lemma RotateAllFailedKeepsKeys(c: Crypto, kek: Bytes, w: World, enc: Option<Block>, idx: Option<Block>,
      tag: Option<Block>, ivs: Vectors, saves: nat)
    requires AllKeysInv(c, kek, w)
    ensures AllKeysInv(c, kek, AfterRotateAllFailed(c, kek, w, enc, idx, tag, ivs, saves))
    ensures forall u: KeyType :: Extends(RotatedKeys(w.keys, enc, idx, tag).Get(u), w.keys.Get(u))
  {
    var w' := AfterRotateAllFailed(c, kek, w, enc, idx, tag, ivs, saves);
    forall u: KeyType ensures KeysInv(c, kek, w', u) && Extends(w'.keys.Get(u), w.keys.Get(u)) {
      KeysOfInv(c, kek, w, u);
      RotatedEach(w.keys, enc, idx, tag, u);
      if draw :| w'.keys.Get(u) == Rotated(w.keys.Get(u), draw) {
        RotationExtends(w.keys.Get(u), draw);
      }
      SavedEach(c, kek, w.config, w'.keys, ivs, saves, u);
      var ring := w'.keys.Get(u);
      assert ring.infos[ring.current].key == KeyOr(ring);
      if w'.config.Get(u) != w.config.Get(u) {
        var iv: Block :| w'.config.Get(u) == w.config.Get(u)[ring.current := StoredUnder(c, kek, KeyOr(ring), iv)];
        assert SavedAs(c, kek, w.config.Get(u), w'.config.Get(u), ring, ring.current, iv);
      }
      LongerKeys(c, kek, w, w', u);
    }
  }

  // A restart keeps what was saved, and the globals are the current keys.
  lemma RestartKeepsKeys(c: Crypto, kek: Bytes, w: World)
    requires AllKeysInv(c, kek, w)
    ensures AllKeysInv(c, kek, AfterRestart(c, kek, w)) && InStep(AfterRestart(c, kek, w))
    ensures forall u: KeyType :: Extends(w.keys.Get(u), AfterRestart(c, kek, w).keys.Get(u))
    ensures forall u: KeyType :: AfterRestart(c, kek, w).keys.Get(u).infos.Keys == w.config.Get(u).Keys
  {
    var w', open := AfterRestart(c, kek, w), OpenWith(c, kek);
    forall u: KeyType
      ensures KeysInv(c, kek, w', u) && Extends(w.keys.Get(u), w'.keys.Get(u))
      ensures w'.globals.Get(u) == KeyOr(w'.keys.Get(u)) && w'.keys.Get(u).infos.Keys == w.config.Get(u).Keys
    {
      KeysOfInv(c, kek, w, u);
      assert w'.keys.Get(u) == Loaded(open, w.config.Get(u));
      LoadedTruthful(open, w.config.Get(u), w.keys.Get(u));
      assert w'.globals.Get(u) == KeyOr(w'.keys.Get(u));
      LoadedIsTruthful(open, w.config.Get(u), w.keys.Get(u));
    }
  }

  lemma LoadedIsTruthful(open: Opener, config: map<int, StoredKey>, ring: KeyRing)
    requires Usable(ring) && Truthful(open, config, ring)
    ensures Truthful(open, config, Loaded(open, config))
  {
    LoadedTruthful(open, config, ring);
    forall v | v in config
      ensures v in Loaded(open, config).infos && open(config[v]) == Some(Loaded(open, config).infos[v].key)
    {
      assert v in config.Keys;
    }
  }

  // The globals are the manager's current keys.
  ghost predicate InStep(w: World) {
    forall t: KeyType :: w.globals.Get(t) == KeyOr(w.keys.Get(t))
  }

  // ---- What a rotation does to each type of key ----

  // Whether it got to the type, what it drew for it, whether the new version was saved and
  // whether the global was refreshed.
  ghost predicate TypeRotated(c: Crypto, kek: Bytes, w: World, w': World, t: KeyType, tried: bool, drawn: Option<Block>,
      saved: bool, refreshed: bool) {
    var ring, config, config' := w'.keys.Get(t), w.config.Get(t), w'.config.Get(t);
    && (if tried then exists r :: RotatedAs(w.keys.Get(t), ring, drawn, r) else ring == w.keys.Get(t))
    && (!saved ==> config' == config)
    && (saved ==>
        && ring.current in config' && config' == config[ring.current := config'[ring.current]]
        && config'[ring.current].status == Enabled && ring.current in ring.infos
        && OpenedKey(c, kek, config'[ring.current]) == Some(ring.infos[ring.current].key))
    && w'.globals.Get(t) == if refreshed then KeyOr(ring) else w.globals.Get(t)
  }

  lemma RotatedIs(ring: KeyRing, drawn: Option<Block>)
    ensures RotatedAs(ring, Rotated(ring, drawn), drawn, RotateOutcome(ring, drawn))
  {
  }

  lemma RotateIs(c: Crypto, kek: Bytes, w: World, t: KeyType, drawn: Block, iv: Block, u: KeyType)
    requires AllKeysInv(c, kek, w)
    ensures TypeRotated(c, kek, w, AfterRotate(c, kek, w, t, drawn, iv), u, u == t, Some(drawn), u == t, u == t)
  {
    KeysOfInv(c, kek, w, t);
    RotatedIs(w.keys.Get(t), Some(drawn));
    OpenUndoesSeal(c, drawn, kek, iv);
  }

  lemma RotateFailedIs(c: Crypto, kek: Bytes, w: World, t: KeyType, drawn: Option<Block>, u: KeyType)
    ensures TypeRotated(c, kek, w, Next(c, kek, w, RotateFailed(t, drawn)), u, u == t, drawn, false, false)
  {
    RotatedIs(w.keys.Get(t), drawn);
  }

  lemma OneTypeRotated(c: Crypto, kek: Bytes, w: World, w': World, t: KeyType, tried: bool, drawn: Option<Block>,
      saved: bool, iv: Block)
    requires KeysInv(c, kek, w, t) && |kek| == KEY_LEN && w'.globals.Get(t) == w.globals.Get(t)
    requires w'.keys.Get(t) == (if tried then Rotated(w.keys.Get(t), drawn) else w.keys.Get(t))
    requires w'.config.Get(t) == if saved
      then w.config.Get(t)[w'.keys.Get(t).current := StoredUnder(c, kek, KeyOr(w'.keys.Get(t)), iv)]
      else w.config.Get(t)
    ensures TypeRotated(c, kek, w, w', t, tried, drawn, saved, false)
  {
    RotatedIs(w.keys.Get(t), drawn);
    RotationExtends(w.keys.Get(t), drawn);
    OpenUndoesSeal(c, KeyOr(w'.keys.Get(t)), kek, iv);
  }

  // The types are rotated in the order encryption, index, tag, and once all three are drawn
  // they are saved in that order.
  lemma RotateAllFailedIs(c: Crypto, kek: Bytes, w: World, enc: Option<Block>, idx: Option<Block>, tag: Option<Block>,
      ivs: Vectors, saves: nat)
    requires AllKeysInv(c, kek, w)
    ensures
      var w', drawn := AfterRotateAllFailed(c, kek, w, enc, idx, tag, ivs, saves), enc.Some? && idx.Some? && tag.Some?;
      && TypeRotated(c, kek, w, w', Enc, true, enc, drawn && saves > 0, false)
      && TypeRotated(c, kek, w, w', Idx, enc.Some?, idx, drawn && saves > 1, false)
      && TypeRotated(c, kek, w, w', Tag, enc.Some? && idx.Some?, tag, drawn && saves > 2, false)
  {
    var w', drawn := AfterRotateAllFailed(c, kek, w, enc, idx, tag, ivs, saves), enc.Some? && idx.Some? && tag.Some?;
    GetEach(w);
    GetEach(w');
    KeysOfInv(c, kek, w, Enc);
    KeysOfInv(c, kek, w, Idx);
    KeysOfInv(c, kek, w, Tag);
    OneTypeRotated(c, kek, w, w', Enc, true, enc, drawn && saves > 0, ivs.name);
    OneTypeRotated(c, kek, w, w', Idx, enc.Some?, idx, drawn && saves > 1, ivs.phone);
    OneTypeRotated(c, kek, w, w', Tag, enc.Some? && idx.Some?, tag, drawn && saves > 2, ivs.address);
  }

  // ---- Rows under other keys, tokens and marks ----

  // A longer history takes nothing away.
  lemma LongerHistory(c: Crypto, keys: KeyState, keys': KeyState, inverted: set<Token>, id: int, row: Row, data: Plain,
      m: Marks)
    requires RowInv(c, keys, inverted, id, row, data, m)
    requires Extends(keys'.enc, keys.enc) && Extends(keys'.idx, keys.idx)
    ensures RowInv(c, keys', inverted, id, row, data, m)
  {
    forall f: Field ensures FieldInv(c, keys'.idx, inverted, id, row, data, f, m) {
      assert FieldInv(c, keys.idx, inverted, id, row, data, f, m);
    }
  }

  lemma RowsUnderLongerHistory(c: Crypto, w: World, keys: KeyState, config: KeyConfig, globals: Globals)
    requires RowsInv(c, w) && Extends(keys.enc, w.keys.enc) && Extends(keys.idx, w.keys.idx)
    ensures RowsInv(c, w.(keys := keys, config := config, globals := globals))
  {
    forall id | id in w.tables.main
      ensures RowInv(c, keys, w.tables.inverted, id, w.tables.main[id], w.plain[id], w.marks)
    {
      LongerHistory(c, w.keys, keys, w.tables.inverted, id, w.tables.main[id], w.plain[id], w.marks);
    }
  }

  ghost predicate SameMarks(m: Marks, m': Marks, id: int) {
    && (id in m.mislabelled <==> id in m'.mislabelled)
    && forall f: Field ::
      && ((id, f) in m.broken <==> (id, f) in m'.broken)
      && ((id, f) in m.broken ==> m'.broken[(id, f)] == m.broken[(id, f)])
      && ((id, f) in m.orphaned <==> (id, f) in m'.orphaned)
      && ((id, f) in m.orphaned ==> m'.orphaned[(id, f)] == m.orphaned[(id, f)])
      && ((id, f) in m.pending <==> (id, f) in m'.pending)
  }

  // Tokens of other rows do not matter to a row.
  lemma OthersStayCovered(c: Crypto, idx: KeyRing, inverted: set<Token>, inverted': set<Token>, id: int, k: int,
      data: Plain, f: Field)
    requires k != id && forall x :: x in inverted && x.id != id ==> x in inverted'
    requires Covered(c, idx, inverted, k, data, f)
    ensures Covered(c, idx, inverted', k, data, f)
  {
    var v :| v in idx.infos && TokensFor(c, k, f, data.Get(f), idx.infos[v].key) <= inverted;
    assert TokensFor(c, k, f, data.Get(f), idx.infos[v].key) <= inverted';
  }

  // A write to row id leaves row k as it is.
  lemma OtherRow(c: Crypto, keys: KeyState, inverted: set<Token>, inverted': set<Token>, id: int, k: int, row: Row,
      data: Plain, m: Marks, m': Marks)
    requires RowInv(c, keys, inverted, k, row, data, m) && k != id && SameMarks(m, m', k)
    requires forall x :: x in inverted && x.id != id ==> x in inverted'
    ensures RowInv(c, keys, inverted', k, row, data, m')
  {
    forall f: Field ensures FieldInv(c, keys.idx, inverted', k, row, data, f, m') {
      assert FieldInv(c, keys.idx, inverted, k, row, data, f, m);
      if (k, f) !in m.pending {
        OthersStayCovered(c, keys.idx, inverted, inverted', id, k, data, f);
      }
    }
  }

  lemma ClearedElsewhere(m: Marks, id: int, k: int)
    requires k != id
    ensures SameMarks(m, m.Clear(id), k)
    ensures SameMarks(m, m.Clear(id).(mislabelled := m.Clear(id).mislabelled + {id}), k)
  {
  }

  // ---- Writes ----

  lemma FieldTokens(c: Crypto, id: int, data: Plain, f: Field, key: Bytes)
    ensures TokensFor(c, id, f, data.Get(f), key) <= TokensOfRow(c, id, data, key)
  {
  }

  lemma SealedColumns(c: Crypto, w: World, data: Plain, ivs: Vectors, f: Field)
    ensures
      var cell := Written(c, w, data, ivs).Get(f);
      && cell.cipher == Sealed(c, data.Get(f), w.globals.enc, ivs.Get(f))
      && cell.blind == HmacHex(c, data.Get(f), w.globals.idx) && cell.tag == HmacHex(c, cell.cipher, w.globals.tag)
  {
  }

  // A written row opens under its label exactly when the label's key opens what the global
  // key sealed; it does when the two are in step.
  lemma WrittenOpensIff(c: Crypto, kek: Bytes, w: World, data: Plain, ivs: Vectors)
    requires AllKeysInv(c, kek, w)
    ensures RowOpens(c, w.keys.enc, Written(c, w, data, ivs), data) <==>
            forall f: Field ::
              Opened(c, Sealed(c, data.Get(f), w.globals.enc, ivs.Get(f)), KeyOr(w.keys.enc)) == Ok(data.Get(f))
    ensures w.globals.enc == KeyOr(w.keys.enc) ==> RowOpens(c, w.keys.enc, Written(c, w, data, ivs), data)
  {
    KeysOfInv(c, kek, w, Enc);
    GetEach(w);
    assert w.keys.enc.infos[w.keys.enc.current].key == KeyOr(w.keys.enc);
    assert Written(c, w, data, ivs).encVersion == w.keys.enc.current;
    forall f: Field
      ensures Written(c, w, data, ivs).Get(f).cipher == Sealed(c, data.Get(f), w.globals.enc, ivs.Get(f))
      ensures w.globals.enc == KeyOr(w.keys.enc) ==>
        Opened(c, Sealed(c, data.Get(f), w.globals.enc, ivs.Get(f)), KeyOr(w.keys.enc)) == Ok(data.Get(f))
    {
      SealedColumns(c, w, data, ivs, f);
      if w.globals.enc == KeyOr(w.keys.enc) {
        OpenUndoesSeal(c, data.Get(f), w.globals.enc, ivs.Get(f));
      }
    }
  }

  // A written row satisfies its part of the invariant.
  lemma WrittenRowInv(c: Crypto, kek: Bytes, w: World, id: int, data: Plain, ivs: Vectors, inverted: set<Token>,
      tokensIn: bool)
    requires AllKeysInv(c, kek, w) && (tokensIn ==> TokensOfRow(c, id, data, w.globals.idx) <= inverted)
    ensures RowInv(c, w.keys, inverted, id, Written(c, w, data, ivs), data, WriteMarks(c, w, id, data, ivs, tokensIn))
  {
    var row, m := Written(c, w, data, ivs), WriteMarks(c, w, id, data, ivs, tokensIn);
    KeysOfInv(c, kek, w, Idx);
    GetEach(w);
    var v :| v in w.keys.idx.infos && w.keys.idx.infos[v].key == w.globals.idx;
    forall f: Field
      ensures |row.Get(f).cipher| == SealedSize(|data.Get(f)|) && FieldInv(c, w.keys.idx, inverted, id, row, data, f, m)
    {
      SealedColumns(c, w, data, ivs, f);
      SealedLength(c, data.Get(f), w.globals.enc, ivs.Get(f));
      FieldTokens(c, id, data, f, w.globals.idx);
      assert (id, f) in FieldsOf(id);
      assert row.Get(f).blind == HmacHex(c, data.Get(f), w.keys.idx.infos[v].key);
      assert tokensIn ==> TokensFor(c, id, f, data.Get(f), w.keys.idx.infos[v].key) <= inverted;
    }
  }

  // Later on the pipeline accepts a written field exactly when its tag verifies under the
  // tag key numbered like the row's encryption version and its label opens it; while globals
  // and labels are in step it does so if the two versions were equal at the write.
  lemma PipelineAcceptsIff(c: Crypto, kek: Bytes, w: World, data: Plain, ivs: Vectors, keys: KeyState, id: int,
      f: Field)
    requires AllKeysInv(c, kek, w) && InStep(w) && Extends(keys.enc, w.keys.enc)
    ensures
      var row := Written(c, w, data, ivs);
      var cipher, v, d := row.Get(f).cipher, row.encVersion, BatchDecryptor.DecryptOne(c, keys, RecordOf(id, row, f));
      && (d.success <==>
          v in keys.tag.infos && HmacHex(c, cipher, keys.tag.infos[v].key) == HmacHex(c, cipher, w.globals.tag))
      && (d.success ==> d.plaintext == data.Get(f))
      && (w.keys.tag.current == w.keys.enc.current && Extends(keys.tag, w.keys.tag) ==> d.success)
  {
    var row := Written(c, w, data, ivs);
    KeysOfInv(c, kek, w, Enc);
    KeysOfInv(c, kek, w, Tag);
    GetEach(w);
    WrittenOpensIff(c, kek, w, data, ivs);
    SealedColumns(c, w, data, ivs, f);
    assert RecordOf(id, row, f).cipher == row.Get(f).cipher && RecordOf(id, row, f).tag == row.Get(f).tag;
    assert Opened(c, row.Get(f).cipher, w.keys.enc.infos[row.encVersion].key) == Ok(data.Get(f));
  }

  lemma InsertKeepsInv(c: Crypto, kek: Bytes, w: World, data: Plain, ivs: Vectors, extent: Extent)
    requires Inv(c, kek, w)
    ensures Inv(c, kek, AfterInsertEvent(c, w, data, ivs, extent))
  {
    if !extent.NoRow? {
      var w', id := AfterInsertEvent(c, w, data, ivs, extent), w.nextId;
      WrittenRowInv(c, kek, w, id, data, ivs, w'.tables.inverted, extent.Complete?);
      forall k | k in w'.tables.main
        ensures RowInv(c, w.keys, w'.tables.inverted, k, w'.tables.main[k], w'.plain[k], w'.marks)
      {
        if k != id {
          WrittenElsewhere(c, w, id, data, ivs, extent.Complete?, k);
          OtherRow(c, w.keys, w.tables.inverted, w'.tables.inverted, id, k, w.tables.main[k], w.plain[k],
                   w.marks, w'.marks);
        }
      }
      SameKeysInv(c, kek, w, w');
    }
  }

  lemma WrittenElsewhere(c: Crypto, w: World, id: int, data: Plain, ivs: Vectors, tokensIn: bool, k: int)
    requires k != id
    ensures SameMarks(w.marks, WriteMarks(c, w, id, data, ivs, tokensIn), k)
  {
    assert forall f: Field :: (k, f) !in FieldsOf(id);
  }

  lemma UpdateKeepsInv(c: Crypto, kek: Bytes, w: World, id: int, data: Plain, ivs: Vectors, committed: bool)
    requires Inv(c, kek, w)
    ensures Inv(c, kek, AfterUpdateEvent(c, w, id, data, ivs, committed))
  {
    if committed {
      var w' := AfterUpdateEvent(c, w, id, data, ivs, committed);
      WrittenRowInv(c, kek, w, id, data, ivs, w'.tables.inverted, true);
      forall k | k in w'.tables.main
        ensures RowInv(c, w.keys, w'.tables.inverted, k, w'.tables.main[k], w'.plain[k], w'.marks)
      {
        if k != id {
          WrittenElsewhere(c, w, id, data, ivs, true, k);
          OtherRow(c, w.keys, w.tables.inverted, w'.tables.inverted, id, k, w.tables.main[k], w.plain[k],
                   w.marks, w'.marks);
        }
      }
      SameKeysInv(c, kek, w, w');
    }
  }

  lemma DeleteKeepsInv(c: Crypto, kek: Bytes, w: World, id: int, committed: bool)
    requires Inv(c, kek, w)
    ensures Inv(c, kek, AfterDeleteEvent(w, id, committed))
  {
    if committed {
      var w' := AfterDeleteEvent(w, id, committed);
      forall k | k in w'.tables.main
        ensures RowInv(c, w.keys, w'.tables.inverted, k, w'.tables.main[k], w'.plain[k], w'.marks)
      {
        ClearedElsewhere(w.marks, id, k);
        OtherRow(c, w.keys, w.tables.inverted, w'.tables.inverted, id, k, w.tables.main[k], w.plain[k],
                 w.marks, w'.marks);
      }
      SameKeysInv(c, kek, w, w');
    }
  }

  // ---- Rotations and restarts ----

  lemma RotateKeepsInv(c: Crypto, kek: Bytes, w: World, t: KeyType, drawn: Block, iv: Block)
    requires Inv(c, kek, w)
    ensures Inv(c, kek, AfterRotate(c, kek, w, t, drawn, iv))
    ensures forall u: KeyType :: Extends(AfterRotate(c, kek, w, t, drawn, iv).keys.Get(u), w.keys.Get(u))
  {
    var w' := AfterRotate(c, kek, w, t, drawn, iv);
    RotateKeepsKeys(c, kek, w, t, drawn, iv);
    assert Extends(w'.keys.Get(Enc), w.keys.Get(Enc)) && Extends(w'.keys.Get(Idx), w.keys.Get(Idx));
    RowsUnderLongerHistory(c, w, w'.keys, w'.config, w'.globals);
  }

  lemma ExtendsTransitive(a: KeyRing, b: KeyRing, c: KeyRing)
    requires Extends(c, b) && Extends(b, a)
    ensures Extends(c, a)
  {
  }

  lemma RotateAllKeepsInv(c: Crypto, kek: Bytes, w: World, enc: Block, idx: Block, tag: Block, ivs: Vectors)
    requires Inv(c, kek, w)
    ensures Inv(c, kek, AfterRotateAll(c, kek, w, enc, idx, tag, ivs))
    ensures forall u: KeyType :: Extends(AfterRotateAll(c, kek, w, enc, idx, tag, ivs).keys.Get(u), w.keys.Get(u))
  {
    var w1 := AfterRotate(c, kek, w, Enc, enc, ivs.name);
    var w2 := AfterRotate(c, kek, w1, Idx, idx, ivs.phone);
    var w3 := AfterRotate(c, kek, w2, Tag, tag, ivs.address);
    RotateKeepsInv(c, kek, w, Enc, enc, ivs.name);
    RotateKeepsInv(c, kek, w1, Idx, idx, ivs.phone);
    RotateKeepsInv(c, kek, w2, Tag, tag, ivs.address);
    forall u: KeyType ensures Extends(w3.keys.Get(u), w.keys.Get(u)) {
      assert Extends(w1.keys.Get(u), w.keys.Get(u)) && Extends(w2.keys.Get(u), w1.keys.Get(u));
      assert Extends(w3.keys.Get(u), w2.keys.Get(u));
    }
  }

  lemma RotateFailedKeepsInv(c: Crypto, kek: Bytes, w: World, t: KeyType, draw: Option<Block>)
    requires Inv(c, kek, w)
    ensures Inv(c, kek, Next(c, kek, w, RotateFailed(t, draw)))
    ensures forall u: KeyType :: Extends(Next(c, kek, w, RotateFailed(t, draw)).keys.Get(u), w.keys.Get(u))
  {
    var w' := Next(c, kek, w, RotateFailed(t, draw));
    RotateFailedKeepsKeys(c, kek, w, t, draw);
    assert Extends(w'.keys.Get(Enc), w.keys.Get(Enc)) && Extends(w'.keys.Get(Idx), w.keys.Get(Idx));
    RowsUnderLongerHistory(c, w, w'.keys, w'.config, w'.globals);
  }

  lemma RotateAllFailedKeepsInv(c: Crypto, kek: Bytes, w: World, enc: Option<Block>, idx: Option<Block>,
      tag: Option<Block>, ivs: Vectors, saves: nat)
    requires Inv(c, kek, w)
    ensures Inv(c, kek, AfterRotateAllFailed(c, kek, w, enc, idx, tag, ivs, saves))
    ensures forall u: KeyType ::
      Extends(AfterRotateAllFailed(c, kek, w, enc, idx, tag, ivs, saves).keys.Get(u), w.keys.Get(u))
  {
    var w' := AfterRotateAllFailed(c, kek, w, enc, idx, tag, ivs, saves);
    RotateAllFailedKeepsKeys(c, kek, w, enc, idx, tag, ivs, saves);
    assert Extends(w'.keys.Get(Enc), w.keys.Get(Enc)) && Extends(w'.keys.Get(Idx), w.keys.Get(Idx));
    RowsUnderLongerHistory(c, w, w'.keys, w'.config, w'.globals);
  }

  lemma RestartKeepsInv(c: Crypto, kek: Bytes, w: World)
    requires Inv(c, kek, w)
    ensures Inv(c, kek, AfterRestart(c, kek, w))
  {
    var w' := AfterRestart(c, kek, w);
    RestartKeepsKeys(c, kek, w);
    forall id | id in w'.tables.main
      ensures RowInv(c, w'.keys, w'.tables.inverted, id, w'.tables.main[id], w'.plain[id], w'.marks)
    {
      RestartedRow(c, w, w'.keys, id);
    }
  }

  lemma RestartedRow(c: Crypto, w: World, keys: KeyState, id: int)
    requires RowsInv(c, w) && id in w.tables.main
    ensures RowInv(c, keys, w.tables.inverted, id, w.tables.main[id], w.plain[id], RestartMarks(c, w, keys))
  {
    var m := RestartMarks(c, w, keys);
    assert RowInv(c, w.keys, w.tables.inverted, id, w.tables.main[id], w.plain[id], w.marks);
    forall f: Field ensures FieldInv(c, keys.idx, w.tables.inverted, id, w.tables.main[id], w.plain[id], f, m) {
      assert FieldInv(c, w.keys.idx, w.tables.inverted, id, w.tables.main[id], w.plain[id], f, w.marks);
      if BlindKnown(c, w.keys.idx, w.tables.main[id], w.plain[id], f) {
        BlindKeyGives(c, w.keys.idx, w.tables.main[id], w.plain[id], f);
      }
    }
  }

  // ---- Rebuilds ----

  lemma JobKeyIsKnown(c: Crypto, kek: Bytes, w: World, code: int, lo: int, hi: int)
    requires AllKeysInv(c, kek, w)
    ensures KnownIndexKey(JobOf(w, code, lo, hi), w.keys.idx)
  {
    KeysOfInv(c, kek, w, Idx);
    GetEach(w);
    assert w.keys.idx.infos[w.keys.idx.current].key == KeyOr(w.keys.idx);
  }

  // One field of one row, whatever the rebuild made of it.
  lemma RebuiltField(c: Crypto, w: World, job: Job, t: Tables, finished: bool, id: int, f: Field)
    requires RowsInv(c, w) && KnownIndexKey(job, w.keys.idx) && Between(c, job, w.tables, t) && id in w.tables.main
    requires finished ==> Done(c, job, w.tables, t, id)
    ensures FieldInv(c, w.keys.idx, t.inverted, id, t.main[id], w.plain[id], f,
                     AfterRebuild(c, w, job, t, finished).marks)
  {
    var row0, row, data := w.tables.main[id], t.main[id], w.plain[id];
    assert RowInv(c, w.keys, w.tables.inverted, id, row0, data, w.marks);
    assert FieldInv(c, w.keys.idx, w.tables.inverted, id, row0, data, f, w.marks);
    assert RowBetween(c, job, w.tables.main, t.main, id);
    RowBetweenSame(c, job, w.tables.main, t.main, id);
    if f == JobField(job) && Target(c, job, id, row0) {
      TargetField(c, w, job, t, finished, id);
    } else {
      assert row.Get(f) == row0.Get(f);
      if (id, f) !in w.marks.pending {
        UntouchedStaysCovered(c, job, w.keys.idx, w.tables, t, data, id, f);
      }
    }
  }

  lemma TargetField(c: Crypto, w: World, job: Job, t: Tables, finished: bool, id: int)
    requires RowsInv(c, w) && KnownIndexKey(job, w.keys.idx) && Between(c, job, w.tables, t)
    requires id in w.tables.main && Target(c, job, id, w.tables.main[id])
    requires finished ==> Done(c, job, w.tables, t, id)
    ensures FieldInv(c, w.keys.idx, t.inverted, id, t.main[id], w.plain[id], JobField(job),
                     AfterRebuild(c, w, job, t, finished).marks)
  {
    var row0, row, data, f := w.tables.main[id], t.main[id], w.plain[id], JobField(job);
    assert RowInv(c, w.keys, w.tables.inverted, id, row0, data, w.marks);
    assert FieldInv(c, w.keys.idx, w.tables.inverted, id, row0, data, f, w.marks);
    assert RowBetween(c, job, w.tables.main, t.main, id);
    if row == row0.WithBlind(f, NewBlind(c, job, row0)) {
      RewrittenBlind(c, job, w.keys.idx, w.tables.main, t.main, id, data);
    }
    if finished && Text(c, job, row0).value.value == data.Get(f) {
      RightIsCovered(c, job, w.keys.idx, w.tables, t, data, id);
    }
  }

  lemma RebuildKeepsInv(c: Crypto, kek: Bytes, w: World, code: int, lo: int, hi: int, t: Tables, finished: bool)
    requires Inv(c, kek, w) && Between(c, JobOf(w, code, lo, hi), w.tables, t)
    requires finished ==> DoneUpTo(c, JobOf(w, code, lo, hi), w.tables, t, hi)
    ensures Inv(c, kek, AfterRebuild(c, w, JobOf(w, code, lo, hi), t, finished))
  {
    var job := JobOf(w, code, lo, hi);
    var w' := AfterRebuild(c, w, job, t, finished);
    JobKeyIsKnown(c, kek, w, code, lo, hi);
    forall id | id in t.main ensures RowInv(c, w.keys, t.inverted, id, t.main[id], w.plain[id], w'.marks) {
      assert RowInv(c, w.keys, w.tables.inverted, id, w.tables.main[id], w.plain[id], w.marks);
      assert RowBetween(c, job, w.tables.main, t.main, id);
      BetweenKeepsRow(c, job, w.keys.enc, w.tables.main, t.main, id, w.plain[id]);
      assert finished ==> Done(c, job, w.tables, t, id);
      forall f: Field ensures FieldInv(c, w.keys.idx, t.inverted, id, t.main[id], w.plain[id], f, w'.marks) {
        RebuiltField(c, w, job, t, finished, id, f);
      }
    }
    SameKeysInv(c, kek, w, w');
  }

  lemma AfterRebuildDone(c: Crypto, kek: Bytes, w: World, code: int, lo: int, hi: int)
    ensures
      var w' := Next(c, kek, w, RebuildDone(code, lo, hi));
      && w'.tables == FullPass(c, JobOf(w, code, lo, hi), w.tables) && w'.plain == w.plain
      && w'.keys == w.keys && w'.globals == w.globals
  {
  }

  lemma RebuildDoneKeepsInv(c: Crypto, kek: Bytes, w: World, code: int, lo: int, hi: int)
    requires Inv(c, kek, w)
    ensures Inv(c, kek, Next(c, kek, w, RebuildDone(code, lo, hi)))
  {
    var job := JobOf(w, code, lo, hi);
    FullPassIsDone(c, job, w.tables);
    RebuildKeepsInv(c, kek, w, code, lo, hi, FullPass(c, job, w.tables), true);
  }

  // ---- Every step ----

  lemma NextKeepsInv(c: Crypto, kek: Bytes, w: World, e: Event)
    requires Inv(c, kek, w) && Possible(c, w, e)
    ensures Inv(c, kek, Next(c, kek, w, e))
  {
    match e
    case Insert(data, ivs, extent) => InsertKeepsInv(c, kek, w, data, ivs, extent);
    case Update(id, data, ivs, committed) => UpdateKeepsInv(c, kek, w, id, data, ivs, committed);
    case Delete(id, committed) => DeleteKeepsInv(c, kek, w, id, committed);
    case Rotate(t, drawn, iv) => RotateKeepsInv(c, kek, w, t, drawn, iv);
    case RotateAll(enc, idx, tag, ivs) => RotateAllKeepsInv(c, kek, w, enc, idx, tag, ivs);
    case RotateFailed(t, draw) => RotateFailedKeepsInv(c, kek, w, t, draw);
    case RotateAllFailed(enc, idx, tag, ivs, saves) => RotateAllFailedKeepsInv(c, kek, w, enc, idx, tag, ivs, saves);
    case Restart => RestartKeepsInv(c, kek, w);
    case RebuildDone(code, lo, hi) => RebuildDoneKeepsInv(c, kek, w, code, lo, hi);
    case RebuildCut(code, lo, hi, left) => RebuildKeepsInv(c, kek, w, code, lo, hi, left, false);
  }

  // No event but a restart takes a key away, and no event changes one.
  lemma NextKeepsKeys(c: Crypto, kek: Bytes, w: World, e: Event, t: KeyType)
    requires Inv(c, kek, w) && Possible(c, w, e)
    ensures if e.Restart? then Extends(w.keys.Get(t), Next(c, kek, w, e).keys.Get(t))
            else Extends(Next(c, kek, w, e).keys.Get(t), w.keys.Get(t))
  {
    match e
    case Rotate(u, drawn, iv) => RotateKeepsInv(c, kek, w, u, drawn, iv);
    case RotateAll(enc, idx, tag, ivs) => RotateAllKeepsInv(c, kek, w, enc, idx, tag, ivs);
    case RotateFailed(u, draw) => RotateFailedKeepsInv(c, kek, w, u, draw);
    case RotateAllFailed(enc, idx, tag, ivs, saves) => RotateAllFailedKeepsInv(c, kek, w, enc, idx, tag, ivs, saves);
    case Restart => RestartKeepsKeys(c, kek, w);
    case Insert(_, _, _) => assert Next(c, kek, w, e).keys == w.keys;
    case Update(_, _, _, _) => assert Next(c, kek, w, e).keys == w.keys;
    case Delete(_, _) => assert Next(c, kek, w, e).keys == w.keys;
    case RebuildDone(_, _, _) => assert Next(c, kek, w, e).keys == w.keys;
    case RebuildCut(_, _, _, _) => assert Next(c, kek, w, e).keys == w.keys;
  }
}
