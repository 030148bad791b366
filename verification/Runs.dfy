/** What holds in every run of the store, from the first start on. */
module Runs {
  import opened Common
  import opened Ordering
  import opened Sm4
  import opened Tables
  import opened Database
  import opened Keys
  import opened Search
  import opened Exactness
  import opened AnyStore
  import opened Reindex
  import opened Lifecycle

  ghost function Run(c: Crypto, kek: Bytes, w: World, es: seq<Event>): World {
    if es == [] then w else Next(c, kek, Run(c, kek, w, es[..|es| - 1]), es[|es| - 1])
  }

  ghost predicate AllPossible(c: Crypto, kek: Bytes, w: World, es: seq<Event>) {
    es == [] || (AllPossible(c, kek, w, es[..|es| - 1]) && Possible(c, Run(c, kek, w, es[..|es| - 1]), es[|es| - 1]))
  }

  lemma {:induction false} RunKeepsInv(c: Crypto, kek: Bytes, w: World, es: seq<Event>)
    requires Inv(c, kek, w) && AllPossible(c, kek, w, es)
    ensures Inv(c, kek, Run(c, kek, w, es))
  {
    if es != [] {
      RunKeepsInv(c, kek, w, es[..|es| - 1]);
      NextKeepsInv(c, kek, Run(c, kek, w, es[..|es| - 1]), es[|es| - 1]);
    }
  }

  // ---- The first start ----

  function Repeated(b: bv8): Block {
    seq(16, _ => b)
  }

  // Keys of sixteen equal bytes, until the first rotation.
  function InitialKey(t: KeyType): Block {
    match t case Enc => Repeated(0xA0) case Idx => Repeated(0xB0) case Tag => Repeated(0xC0)
  }

  lemma InitialKeysAre(i: nat)
    requires i < 16
    ensures InitialKey(Enc)[i] == 0xA0 && InitialKey(Idx)[i] == 0xB0 && InitialKey(Tag)[i] == 0xC0
  {
  }

  function InitialStored(c: Crypto, kek: Bytes, t: KeyType, ivs: Vectors): StoredKey {
    StoredUnder(c, kek, InitialKey(t), match t case Enc => ivs.name case Idx => ivs.phone case Tag => ivs.address)
  }

  // The first n of the three initial saves: version 1 of each type is overwritten.
  function SavedInitially(c: Crypto, kek: Bytes, config: KeyConfig, ivs: Vectors, n: nat): KeyConfig {
    var c1 := config.Put(Enc, 1, InitialStored(c, kek, Enc, ivs));
    var c2 := c1.Put(Idx, 1, InitialStored(c, kek, Idx, ivs));
    if n == 0 then config else if n == 1 then c1 else if n == 2 then c2
    else c2.Put(Tag, 1, InitialStored(c, kek, Tag, ivs))
  }

  // What a start makes of the config table: nothing, unless some type of key does not load.
  ghost function StartConfig(c: Crypto, kek: Bytes, ivs: Vectors, config: KeyConfig): KeyConfig {
    if HasAllTypes(LoadedState(OpenWith(c, kek), config)) then config else SavedInitially(c, kek, config, ivs, 3)
  }

  // A start of the program on any config table: load the keys, or, when some type has none,
  // save the initial ones and load again.
  ghost function Started(c: Crypto, kek: Bytes, ivs: Vectors, before: World): World {
    AfterRestart(c, kek, before.(config := StartConfig(c, kek, ivs, before.config)))
  }

  // A table that holds version 1 only.
  ghost predicate FirstOnly(open: Opener, config: map<int, StoredKey>, key: Bytes) {
    forall v :: v in config ==> v == 1 && open(config[v]) == Some(key) && config[v].status == Enabled
  }

  // A database without rows, in which a first start may have been cut short between its saves.
  ghost predicate Fresh(c: Crypto, kek: Bytes, w: World) {
    && |kek| == KEY_LEN && w.tables.main == map[] && w.plain == map[] && w.nextId >= 1
    && forall t: KeyType :: FirstOnly(OpenWith(c, kek), w.config.Get(t), InitialKey(t))
  }

  lemma InitialKeyOpens(c: Crypto, kek: Bytes, t: KeyType, ivs: Vectors)
    requires |kek| == KEY_LEN
    ensures OpenWith(c, kek)(InitialStored(c, kek, t, ivs)) == Some(InitialKey(t))
  {
    OpenUndoesSeal(c, InitialKey(t), kek, match t case Enc => ivs.name case Idx => ivs.phone case Tag => ivs.address);
  }

  // A crash between the initial saves is harmless: the next start finds a fresh database again.
  lemma CutStartIsFresh(c: Crypto, kek: Bytes, w: World, ivs: Vectors, n: nat)
    requires Fresh(c, kek, w)
    ensures Fresh(c, kek, w.(config := SavedInitially(c, kek, w.config, ivs, n)))
  {
    var config := SavedInitially(c, kek, w.config, ivs, n);
    forall t: KeyType ensures FirstOnly(OpenWith(c, kek), config.Get(t), InitialKey(t)) {
      assert FirstOnly(OpenWith(c, kek), w.config.Get(t), InitialKey(t));
      InitialKeyOpens(c, kek, t, ivs);
      assert config.Get(t) == w.config.Get(t) || config.Get(t) == w.config.Get(t)[1 := InitialStored(c, kek, t, ivs)];
    }
  }

  lemma AllSavedInitially(c: Crypto, kek: Bytes, config: KeyConfig, ivs: Vectors, t: KeyType)
    ensures SavedInitially(c, kek, config, ivs, 3).Get(t) == config.Get(t)[1 := InitialStored(c, kek, t, ivs)]
  {
  }

  // What a regenerating start does to stored keys: version 1 of every type is the initial key
  // from then on, whatever it was, and no other version changes.
  lemma RegeneratedKeys(c: Crypto, kek: Bytes, before: World, ivs: Vectors, t: KeyType, v: int)
    requires |kek| == KEY_LEN && !HasAllTypes(LoadedState(OpenWith(c, kek), before.config))
    ensures
      var config := Started(c, kek, ivs, before).config.Get(t);
      && 1 in config && OpenWith(c, kek)(config[1]) == Some(InitialKey(t))
      && (v != 1 ==> (v in config <==> v in before.config.Get(t)))
      && (v != 1 && v in config ==> config[v] == before.config.Get(t)[v])
  {
    AllSavedInitially(c, kek, before.config, ivs, t);
    InitialKeyOpens(c, kek, t, ivs);
  }

  lemma FirstRingFits(open: Opener, config: map<int, StoredKey>, key: Bytes)
    requires config != map[] && FirstOnly(open, config, key) && |key| == KEY_LEN
    ensures
      var ring := KeyRing(map[1 := KeyInfo(key, 1, Enabled)], 1);
      Sequential(ring) && Usable(ring) && Saved(open, config, ring) && KeyOr(ring) == key
  {
    FirstOnlyHasOne(open, config, key);
  }

  lemma FirstOnlyHasOne(open: Opener, config: map<int, StoredKey>, key: Bytes)
    requires config != map[] && FirstOnly(open, config, key)
    ensures config.Keys == {1}
  {
    HasElement(config.Keys);
    assert config.Keys != {};
    assert forall v :: v in config.Keys ==> v == 1;
  }

  lemma SavedRingLoads(open: Opener, config: map<int, StoredKey>, ring: KeyRing)
    requires Sequential(ring) && Usable(ring) && Saved(open, config, ring)
    ensures
      var loaded := Loaded(open, config);
      && Sequential(loaded) && Usable(loaded) && Saved(open, config, loaded) && KeyOr(loaded) == KeyOr(ring)
  {
    LoadedTruthful(open, config, ring);
    LoadedIsTruthful(open, config, ring);
    SavedComesBack(open, config, ring);
    assert ring.current in config.Keys;
  }

  lemma FirstKeyLoads(open: Opener, config: map<int, StoredKey>, key: Bytes)
    requires config != map[] && FirstOnly(open, config, key) && |key| == KEY_LEN
    ensures
      var ring := Loaded(open, config);
      Sequential(ring) && Usable(ring) && Saved(open, config, ring) && KeyOr(ring) == key && ring.infos != map[]
  {
    FirstRingFits(open, config, key);
    SavedRingLoads(open, config, KeyRing(map[1 := KeyInfo(key, 1, Enabled)], 1));
    assert Loaded(open, config).current in Loaded(open, config).infos;
  }

  lemma EmptyLoads(open: Opener)
    ensures Loaded(open, map[]).infos == map[]
  {
  }

  lemma FreshTypes(c: Crypto, kek: Bytes, w: World)
    requires Fresh(c, kek, w)
    ensures HasAllTypes(LoadedState(OpenWith(c, kek), w.config)) <==> forall t: KeyType :: w.config.Get(t) != map[]
  {
    forall t: KeyType
      ensures LoadedState(OpenWith(c, kek), w.config).Get(t).infos != map[] <==> w.config.Get(t) != map[]
    {
      assert LoadedState(OpenWith(c, kek), w.config).Get(t) == Loaded(OpenWith(c, kek), w.config.Get(t));
      if w.config.Get(t) != map[] {
        FirstKeyLoads(OpenWith(c, kek), w.config.Get(t), InitialKey(t));
      } else {
        EmptyLoads(OpenWith(c, kek));
      }
    }
    var s := LoadedState(OpenWith(c, kek), w.config);
    assert s.Get(Enc) == s.enc && s.Get(Idx) == s.idx && s.Get(Tag) == s.tag;
  }

  // Every version saved, versions 1 to current, and the globals current.
  ghost predicate Steady(c: Crypto, kek: Bytes, w: World) {
    InStep(w) && forall t: KeyType :: Sequential(w.keys.Get(t)) && w.config.Get(t).Keys == w.keys.Get(t).infos.Keys
  }

  // A start on a fresh database, cut short before or not, satisfies everything.
  lemma StartSatisfiesInv(c: Crypto, kek: Bytes, ivs: Vectors, before: World)
    requires Fresh(c, kek, before) && before.marks == NO_MARKS
    ensures Inv(c, kek, Started(c, kek, ivs, before)) && Steady(c, kek, Started(c, kek, ivs, before))
    ensures Started(c, kek, ivs, before).marks == NO_MARKS
    ensures forall t: KeyType :: Started(c, kek, ivs, before).globals.Get(t) == InitialKey(t)
  {
    var config := Started(c, kek, ivs, before).config;
    CutStartIsFresh(c, kek, before, ivs, 3);
    FreshTypes(c, kek, before);
    forall t: KeyType ensures config.Get(t) != map[] {
      AllSavedInitially(c, kek, before.config, ivs, t);
    }
    FreshStart(c, kek, before.(config := config));
  }

  lemma FreshStart(c: Crypto, kek: Bytes, w: World)
    requires Fresh(c, kek, w) && w.marks == NO_MARKS && forall t: KeyType :: w.config.Get(t) != map[]
    ensures Inv(c, kek, AfterRestart(c, kek, w)) && Steady(c, kek, AfterRestart(c, kek, w))
    ensures AfterRestart(c, kek, w).marks == NO_MARKS
    ensures forall t: KeyType :: AfterRestart(c, kek, w).globals.Get(t) == InitialKey(t)
  {
    var w' := AfterRestart(c, kek, w);
    forall t: KeyType
      ensures KeysInv(c, kek, w', t) && Sequential(w'.keys.Get(t)) && w'.config.Get(t).Keys == w'.keys.Get(t).infos.Keys
      ensures w'.globals.Get(t) == KeyOr(w'.keys.Get(t)) == InitialKey(t)
    {
      assert w'.keys.Get(t) == Loaded(OpenWith(c, kek), w.config.Get(t));
      FirstKeyLoads(OpenWith(c, kek), w.config.Get(t), InitialKey(t));
      assert w'.globals.Get(t) == KeyOr(w'.keys.Get(t));
      assert w'.keys.Get(t).infos[w'.keys.Get(t).current].key == w'.globals.Get(t);
    }
    assert Unopened(c, w, w'.keys) == {} && LostKeys(c, w, w'.keys) == map[] && Uncovered(c, w, w'.keys) == {};
  }

  // ---- Which marks are left on live rows ----

  ghost predicate NothingMislabelled(w: World) {
    forall id :: id in w.tables.main ==> id !in w.marks.mislabelled
  }

  // No blind index of a value one can ask for comes from another text or a lost key.
  ghost predicate NothingBroken(w: World)
    requires w.tables.main.Keys == w.plain.Keys
  {
    forall id, f: Field :: id in w.tables.main && |w.plain[id].Get(f)| >= 2 ==>
      (id, f) !in w.marks.broken && (id, f) !in w.marks.orphaned
  }

  // What the blind indexes of broken and orphaned fields were computed from does not collide
  // with the values: the hash of the other text, or of the value under the lost key, is no known
  // hash of the value.
  ghost predicate SourcesApart(c: Crypto, w: World)
    requires w.tables.main.Keys == w.plain.Keys
  {
    forall id, f: Field :: id in w.tables.main && |w.plain[id].Get(f)| >= 2 ==>
      SourceApart(c, w.keys.idx, w.marks, id, f, w.plain[id].Get(f))
  }

  ghost predicate SourceApart(c: Crypto, idx: KeyRing, m: Marks, id: int, f: Field, value: Bytes) {
    if (id, f) in m.broken then HmacHex(c, m.broken[(id, f)].text, m.broken[(id, f)].key) !in ExactHashes(c, idx, value)
    else (id, f) in m.orphaned ==> HmacHex(c, value, m.orphaned[(id, f)]) !in ExactHashes(c, idx, value)
  }

  ghost predicate NothingPending(w: World) {
    forall id, f: Field :: id in w.tables.main ==> (id, f) !in w.marks.pending
  }

  ghost predicate ExactRight(c: Crypto, w: World)
    requires w.tables.main.Keys == w.plain.Keys
  {
    ExactSearchRight(c, w.keys, w.tables, w.plain, w.globals.enc)
  }

  ghost predicate FuzzyRight(c: Crypto, w: World)
    requires w.tables.main.Keys == w.plain.Keys
  {
    FuzzySearchRight(c, w.keys, w.tables, w.plain, w.globals.enc)
  }

  // Every row reads back, in the session: its label's key or else the current global opens it.
  ghost predicate RowsRead(c: Crypto, w: World) {
    Reads(c, w.keys, w.tables.main, w.plain, w.globals.enc)
  }

  // The rows one can ask for do, and no query fails because of another or returns it.
  ghost predicate ExactSound(c: Crypto, w: World)
    requires w.tables.main.Keys == w.plain.Keys
  {
    ExactRowsSound(c, w.keys, w.tables.main, w.plain, w.globals.enc)
  }

  ghost predicate FuzzySound(c: Crypto, w: World)
    requires w.tables.main.Keys == w.plain.Keys
  {
    FuzzyRowsSound(c, w.keys, w.tables, w.plain, w.globals.enc)
  }

  lemma RowsOfInv(c: Crypto, kek: Bytes, w: World)
    requires Inv(c, kek, w)
    ensures w.tables.main.Keys == w.plain.Keys && AllSized(w.tables.main, w.plain)
    ensures CoveredExcept(c, w.keys.idx, w.tables, w.plain, w.marks.pending)
    ensures NothingMislabelled(w) ==> RowsRead(c, w)
  {
    forall id, f: Field | id in w.tables.main && (id, f) !in w.marks.pending
      ensures Covered(c, w.keys.idx, w.tables.inverted, id, w.plain[id], f)
    {
      FieldOfInv(c, kek, w, id, f);
    }
    if NothingMislabelled(w) {
      OpenRowsRead(c, w.keys, w.tables.main, w.plain, w.globals.enc);
    }
  }

  // When the rows read back they are sound, and where every row can be asked for only then.
  lemma SoundIffRead(c: Crypto, kek: Bytes, w: World)
    requires Inv(c, kek, w)
    ensures w.tables.main.Keys == w.plain.Keys
    ensures RowsRead(c, w) ==> ExactSound(c, w) && FuzzySound(c, w)
    ensures AllAskable(w.plain) ==> (ExactSound(c, w) <==> RowsRead(c, w)) && (FuzzySound(c, w) <==> RowsRead(c, w))
  {
    ExactSoundIffReads(c, w.keys, w.tables.main, w.plain, w.globals.enc);
    FuzzySoundIffReads(c, w.keys, w.tables, w.plain, w.globals.enc);
  }

  lemma FieldOfInv(c: Crypto, kek: Bytes, w: World, id: int, f: Field)
    requires Inv(c, kek, w) && id in w.tables.main
    ensures id in w.plain && FieldInv(c, w.keys.idx, w.tables.inverted, id, w.tables.main[id], w.plain[id], f, w.marks)
  {
    assert RowInv(c, w.keys, w.tables.inverted, id, w.tables.main[id], w.plain[id], w.marks);
  }

  // ---- Exact search ----

  lemma ExactUnderInv(c: Crypto, kek: Bytes, w: World)
    requires Inv(c, kek, w)
    ensures w.tables.main.Keys == w.plain.Keys
    ensures ExactRight(c, w) <==>
            ShortValues(w.plain) && IndexIntact(c, w.keys.idx, w.tables.main, w.plain) && ExactSound(c, w)
  {
    RowsOfInv(c, kek, w);
    AnyExactSearchIff(c, w.keys, w.tables, w.plain, w.globals.enc);
  }

  // In every run, whatever failed in it: exact search is the scan exactly when no value exceeds
  // 2031 bytes, the blind indexes are intact and the rows are sound. Rows are sound when they
  // read back, in particular when none is mislabelled.
  lemma ExactSearchInEveryRun(c: Crypto, kek: Bytes, w0: World, es: seq<Event>)
    requires Inv(c, kek, w0) && AllPossible(c, kek, w0, es)
    ensures
      var w := Run(c, kek, w0, es);
      && w.tables.main.Keys == w.plain.Keys
      && (ExactRight(c, w) <==>
          ShortValues(w.plain) && IndexIntact(c, w.keys.idx, w.tables.main, w.plain) && ExactSound(c, w))
      && (RowsRead(c, w) ==> ExactSound(c, w)) && (NothingMislabelled(w) ==> RowsRead(c, w))
      && (AllAskable(w.plain) && ExactSound(c, w) ==> RowsRead(c, w))
  {
    RunKeepsInv(c, kek, w0, es);
    ExactUnderInv(c, kek, Run(c, kek, w0, es));
    RowsOfInv(c, kek, Run(c, kek, w0, es));
    SoundIffRead(c, kek, Run(c, kek, w0, es));
  }

  // The marks say when the indexes are intact, where marked fields do not collide with their
  // values: no rebuild wrote a live field from another text and no key of a blind index was lost,
  // without a later write making up for it.
  lemma IntactIffNothingBroken(c: Crypto, kek: Bytes, w: World)
    requires Inv(c, kek, w)
    ensures w.tables.main.Keys == w.plain.Keys
    ensures NothingBroken(w) ==> IndexIntact(c, w.keys.idx, w.tables.main, w.plain)
    ensures SourcesApart(c, w) ==> (IndexIntact(c, w.keys.idx, w.tables.main, w.plain) <==> NothingBroken(w))
  {
    forall id, f: Field | id in w.tables.main && |w.plain[id].Get(f)| >= 2
      ensures (id, f) !in w.marks.broken && (id, f) !in w.marks.orphaned ==>
              BlindKnown(c, w.keys.idx, w.tables.main[id], w.plain[id], f)
      ensures SourceApart(c, w.keys.idx, w.marks, id, f, w.plain[id].Get(f)) ==>
              (BlindKnown(c, w.keys.idx, w.tables.main[id], w.plain[id], f) <==>
               (id, f) !in w.marks.broken && (id, f) !in w.marks.orphaned)
    {
      FieldOfInv(c, kek, w, id, f);
    }
  }

  // So in every run, where nothing collides, exact search is right exactly when no value exceeds
  // 2031 bytes, nothing is broken or orphaned, and the rows are sound.
  lemma ExactSearchIffNothingBroken(c: Crypto, kek: Bytes, w0: World, es: seq<Event>)
    requires Inv(c, kek, w0) && AllPossible(c, kek, w0, es)
    ensures
      var w := Run(c, kek, w0, es);
      && w.tables.main.Keys == w.plain.Keys
      && (ShortValues(w.plain) && NothingBroken(w) && ExactSound(c, w) ==> ExactRight(c, w))
      && (SourcesApart(c, w) && ExactRight(c, w) ==> ShortValues(w.plain) && NothingBroken(w) && ExactSound(c, w))
  {
    var w := Run(c, kek, w0, es);
    RunKeepsInv(c, kek, w0, es);
    ExactUnderInv(c, kek, w);
    IntactIffNothingBroken(c, kek, w);
  }

  // What a restart leaves of a blind index: it is known afterwards exactly when it is the hash
  // of the value under some version that was saved.
  lemma KnownAfterRestartIff(c: Crypto, kek: Bytes, w: World, row: Row, data: Plain, f: Field)
    requires AllKeysInv(c, kek, w)
    ensures BlindKnown(c, AfterRestart(c, kek, w).keys.idx, row, data, f) <==>
            exists v :: v in w.config.idx && v in w.keys.idx.infos
                        && row.Get(f).blind == HmacHex(c, data.Get(f), w.keys.idx.infos[v].key)
  {
    RestartKeepsKeys(c, kek, w);
    SavedVersions(c, kek, w, AfterRestart(c, kek, w));
  }

  lemma SavedVersions(c: Crypto, kek: Bytes, w: World, w': World)
    requires forall t: KeyType :: Extends(w.keys.Get(t), w'.keys.Get(t))
    requires forall t: KeyType :: w'.keys.Get(t).infos.Keys == w.config.Get(t).Keys
    ensures forall v :: v in w'.keys.idx.infos <==> v in w.config.idx
    ensures forall v :: v in w'.keys.idx.infos ==>
      v in w.keys.idx.infos && w'.keys.idx.infos[v].key == w.keys.idx.infos[v].key
  {
    GetEach(w);
    GetEach(w');
    assert Extends(w.keys.Get(Idx), w'.keys.Get(Idx)) && w'.keys.Get(Idx).infos.Keys == w.config.Get(Idx).Keys;
    forall v ensures v in w'.keys.idx.infos <==> v in w.config.idx {
      assert v in w'.keys.Get(Idx).infos.Keys <==> v in w.config.Get(Idx).Keys;
    }
  }

  // And without any condition: when exact search is right, every row with a value that can be
  // asked for fits the buffers, has that value indexed, and reads back.
  lemma RightRunNeeds(c: Crypto, kek: Bytes, w0: World, es: seq<Event>, id: int, f: Field)
    requires Inv(c, kek, w0) && AllPossible(c, kek, w0, es) && id in Run(c, kek, w0, es).tables.main
    ensures
      var w := Run(c, kek, w0, es);
      && w.tables.main.Keys == w.plain.Keys
      && (ExactRight(c, w) && |w.plain[id].Get(f)| >= 2 ==>
          && Readable(w.tables.main[id]) && BlindKnown(c, w.keys.idx, w.tables.main[id], w.plain[id], f)
          && FullRow(c, w.keys, id, w.tables.main[id], w.globals.enc) == Ok(TrueRecord(w.tables.main, w.plain, id)))
  {
    var w := Run(c, kek, w0, es);
    RunKeepsInv(c, kek, w0, es);
    if ExactRight(c, w) && |w.plain[id].Get(f)| >= 2 {
      RightSearchNeeds(c, w.keys, w.tables, w.plain, w.globals.enc, id, f);
    }
  }

  // After a finished rebuild exact search is right exactly when no value exceeds 2031 bytes, what
  // it wrote are hashes of the values, the other blind indexes were right, and the rows are
  // sound. From an intact store, where no opened text collides with the value, that is to say
  // that it was safe for the values one can ask for. It changes nothing about which rows read back.
  lemma RebuildIsRightIff(c: Crypto, kek: Bytes, w: World, code: int, lo: int, hi: int)
    requires Inv(c, kek, w)
    ensures
      var job, w' := JobOf(w, code, lo, hi), Next(c, kek, w, RebuildDone(code, lo, hi));
      && w.tables.main.Keys == w.plain.Keys == w'.tables.main.Keys == w'.plain.Keys
      && (ExactRight(c, w') <==>
          ShortValues(w.plain) && RebuiltIntact(c, job, w.keys.idx, w.tables.main, w.plain) && ExactSound(c, w'))
      && (IndexIntact(c, w.keys.idx, w.tables.main, w.plain)
          && AllOpenedApart(c, job, w.keys.idx, w.tables.main, w.plain) ==>
            (ExactRight(c, w') <==>
             ShortValues(w.plain) && SafeForSearch(c, job, w.tables.main, w.plain) && ExactSound(c, w')))
      && (RowsRead(c, w) ==> RowsRead(c, w') && ExactSound(c, w'))
  {
    RowsOfInv(c, kek, w);
    JobKeyIsKnown(c, kek, w, code, lo, hi);
    AfterRebuildDone(c, kek, w, code, lo, hi);
    RebuiltExactIff(c, JobOf(w, code, lo, hi), w.keys, w.tables, w.plain, w.globals.enc);
    if RowsRead(c, w) {
      RebuildKeepsReading(c, kek, w, code, lo, hi);
    }
  }

  lemma RebuildKeepsReading(c: Crypto, kek: Bytes, w: World, code: int, lo: int, hi: int)
    requires Inv(c, kek, w) && RowsRead(c, w)
    ensures
      var w' := Next(c, kek, w, RebuildDone(code, lo, hi));
      RowsRead(c, w') && ExactSound(c, w') && FuzzySound(c, w')
  {
    var w' := Next(c, kek, w, RebuildDone(code, lo, hi));
    AfterRebuildDone(c, kek, w, code, lo, hi);
    FullPassIsDone(c, JobOf(w, code, lo, hi), w.tables);
    BetweenStaysRead(c, JobOf(w, code, lo, hi), w.keys, w.tables, w'.tables, w.plain, w.globals.enc);
    RebuildDoneKeepsInv(c, kek, w, code, lo, hi);
    SoundIffRead(c, kek, w');
  }

  // What to check before a rebuild: every row of the range is at the current encryption version
  // and opens under it.
  ghost predicate CurrentRange(w: World, lo: int, hi: int) {
    forall id :: id in w.tables.main && lo <= id <= hi ==>
      w.tables.main[id].encVersion == w.keys.enc.current && id !in w.marks.mislabelled
  }

  // Such a rebuild is safe, so it leaves both searches as right as they can be.
  lemma CurrentRangeIsSafe(c: Crypto, kek: Bytes, w: World, code: int, lo: int, hi: int)
    requires Inv(c, kek, w) && CurrentRange(w, lo, hi)
    ensures
      var job := JobOf(w, code, lo, hi);
      && w.tables.main.Keys == w.plain.Keys && Smooth(c, w, RebuildDone(code, lo, hi))
      && SafeJob(c, job, w.tables.main, w.plain) && SafeForSearch(c, job, w.tables.main, w.plain)
      && SafeForFuzzy(c, job, w.tables.main, w.plain)
  {
    var job := JobOf(w, code, lo, hi);
    KeysOfInv(c, kek, w, Enc);
    GetEach(w);
    forall id | id in w.tables.main && lo <= id <= hi ensures SafeRow(c, job, w.tables.main[id], w.plain[id]) {
      assert RowInv(c, w.keys, w.tables.inverted, id, w.tables.main[id], w.plain[id], w.marks);
      CurrentRowsAreSafe(c, job, w.keys.enc, w.tables.main[id], w.plain[id]);
    }
    NothingWrongIff(c, job, w.tables.main, w.plain);
  }

  // An unsafe rebuild does harm in any state, whatever else is wrong in it, unless the text it
  // opened collides with the value.
  lemma UnsafeRebuildHarms(c: Crypto, kek: Bytes, w: World, code: int, lo: int, hi: int, id: int)
    requires Inv(c, kek, w) && id in w.tables.main && lo <= id <= hi
    requires |w.plain[id].Get(JobField(JobOf(w, code, lo, hi)))| >= 2
    requires !SafeRow(c, JobOf(w, code, lo, hi), w.tables.main[id], w.plain[id])
    requires OpenedApart(c, JobOf(w, code, lo, hi), w.keys.idx, w.tables.main[id], w.plain[id])
    ensures
      var w' := Next(c, kek, w, RebuildDone(code, lo, hi));
      w'.tables.main.Keys == w'.plain.Keys && !ExactRight(c, w')
  {
    AfterRebuildDone(c, kek, w, code, lo, hi);
    UnsafeRowIsLost(c, JobOf(w, code, lo, hi), w.keys, w.tables, w.plain, id, w.globals.enc);
  }

  // ---- Fuzzy search ----

  lemma FuzzyUnderInv(c: Crypto, kek: Bytes, w: World)
    requires Inv(c, kek, w)
    ensures w.tables.main.Keys == w.plain.Keys
    ensures FuzzyRight(c, w) <==>
            ShortValues(w.plain) && AllFindable(c, w.keys.idx, w.tables, w.plain) && FuzzySound(c, w)
    ensures NothingPending(w) ==> AllFindable(c, w.keys.idx, w.tables, w.plain)
  {
    RowsOfInv(c, kek, w);
    AnyFuzzySearchIff(c, w.keys, w.tables, w.plain, w.globals.enc);
    if NothingPending(w) {
      forall id | id in w.tables.main ensures Findable(c, w.keys.idx, w.tables.inverted, id, w.plain[id]) {
        assert forall f: Field :: (id, f) !in w.marks.pending;
        CoveredIsFindable(c, w.keys, w.tables.inverted, id, w.plain[id]);
      }
    }
  }

  // In every run: fuzzy search is the scan, for all keywords whose bigrams have distinct hashes,
  // exactly when no value exceeds 2031 bytes, every keyword a row contains is indexed for it,
  // and the rows are sound. The second holds when nothing is pending, the third when all rows
  // read back.
  lemma FuzzySearchInEveryRun(c: Crypto, kek: Bytes, w0: World, es: seq<Event>)
    requires Inv(c, kek, w0) && AllPossible(c, kek, w0, es)
    ensures
      var w := Run(c, kek, w0, es);
      && w.tables.main.Keys == w.plain.Keys
      && (FuzzyRight(c, w) <==>
          ShortValues(w.plain) && AllFindable(c, w.keys.idx, w.tables, w.plain) && FuzzySound(c, w))
      && (NothingPending(w) ==> AllFindable(c, w.keys.idx, w.tables, w.plain))
      && (RowsRead(c, w) ==> FuzzySound(c, w)) && (NothingMislabelled(w) ==> RowsRead(c, w))
      && (AllAskable(w.plain) && FuzzySound(c, w) ==> RowsRead(c, w))
  {
    var w := Run(c, kek, w0, es);
    RunKeepsInv(c, kek, w0, es);
    FuzzyUnderInv(c, kek, w);
    RowsOfInv(c, kek, w);
    SoundIffRead(c, kek, w);
  }

  // What fuzzy search owes one keyword while the rows read back: it never returns a row without
  // it, and misses only rows whose tokens a failure or an unsafe rebuild has left incomplete,
  // and rows from the first long value on.
  ghost predicate FuzzySearchCorrect(c: Crypto, w: World, f: Field, keyword: Bytes)
    requires w.tables.main.Keys == w.plain.Keys
  {
    var found := FoundIds(c, w.keys, w.tables, w.plain, f, keyword);
    var wanted := Matches(w.plain, Holds(f, keyword), w.tables.main);
    var ids := FuzzyIds(c, w.keys, w.tables.inverted, f, keyword);
    && FuzzyAnswer(c, w.keys, w.tables, f, keyword, w.globals.enc) == Ok(ListOf(w.tables.main, w.plain, found))
    && found <= wanted
    && forall id :: id in wanted && (id, f) !in w.marks.pending && ReachedIn(w.tables.main, ids, id) ==> id in found
  }

  lemma FuzzyKeywordUnderInv(c: Crypto, kek: Bytes, w: World, f: Field, keyword: Bytes)
    requires Inv(c, kek, w) && RowsRead(c, w) && |keyword| >= 2 && DistinctHashes(c, w.keys.idx, keyword)
    ensures w.tables.main.Keys == w.plain.Keys && FuzzySearchCorrect(c, w, f, keyword)
  {
    RowsOfInv(c, kek, w);
    FuzzyAnswerFound(c, w.keys, w.tables, w.plain, f, keyword, w.globals.enc);
    FoundAreWanted(c, w.keys, w.tables, w.plain, w.marks.pending, f, keyword);
  }

  lemma FuzzyKeywordInEveryRun(c: Crypto, kek: Bytes, w0: World, es: seq<Event>, f: Field, keyword: Bytes)
    requires Inv(c, kek, w0) && AllPossible(c, kek, w0, es) && |keyword| >= 2
    ensures
      var w := Run(c, kek, w0, es);
      && w.tables.main.Keys == w.plain.Keys
      && (RowsRead(c, w) && DistinctHashes(c, w.keys.idx, keyword) ==> FuzzySearchCorrect(c, w, f, keyword))
  {
    var w := Run(c, kek, w0, es);
    RunKeepsInv(c, kek, w0, es);
    RowsOfInv(c, kek, w);
    if RowsRead(c, w) && DistinctHashes(c, w.keys.idx, keyword) {
      FuzzyKeywordUnderInv(c, kek, w, f, keyword);
    }
  }

  // After a finished rebuild fuzzy search is right when the texts it opened hold the bigrams of
  // the values, and where those do not collide with others of the texts only then: a wrong key
  // may do harm here only by losing some.
  lemma FuzzyRebuildIsRightIff(c: Crypto, kek: Bytes, w: World, code: int, lo: int, hi: int)
    requires Inv(c, kek, w) && NothingPending(w)
    ensures
      var job, w' := JobOf(w, code, lo, hi), Next(c, kek, w, RebuildDone(code, lo, hi));
      && w.tables.main.Keys == w.plain.Keys == w'.tables.main.Keys == w'.plain.Keys
      && (ShortValues(w.plain) && SafeForFuzzy(c, job, w.tables.main, w.plain) && FuzzySound(c, w') ==>
          FuzzyRight(c, w'))
      && (AllBigramsApart(c, job, w.keys.idx, w.tables.main, w.plain) && FuzzyRight(c, w') ==>
          ShortValues(w.plain) && SafeForFuzzy(c, job, w.tables.main, w.plain) && FuzzySound(c, w'))
      && (RowsRead(c, w) ==> RowsRead(c, w') && FuzzySound(c, w'))
  {
    RowsOfInv(c, kek, w);
    JobKeyIsKnown(c, kek, w, code, lo, hi);
    AfterRebuildDone(c, kek, w, code, lo, hi);
    forall id, f: Field | id in w.tables.main ensures Covered(c, w.keys.idx, w.tables.inverted, id, w.plain[id], f) {
      assert (id, f) !in w.marks.pending;
    }
    RebuiltFuzzySearchIff(c, JobOf(w, code, lo, hi), w.keys, w.tables, w.plain, w.globals.enc);
    if RowsRead(c, w) {
      RebuildKeepsReading(c, kek, w, code, lo, hi);
    }
  }

  // A rebuild that opens the value makes up for whatever happened to the field before: failed
  // inserts, interrupted rebuilds, unsafe rebuilds and lost index keys.
  lemma RebuildRepairs(c: Crypto, kek: Bytes, w: World, code: int, lo: int, hi: int, id: int)
    requires Inv(c, kek, w) && id in w.tables.main && Target(c, JobOf(w, code, lo, hi), id, w.tables.main[id])
    requires SafeRow(c, JobOf(w, code, lo, hi), w.tables.main[id], w.plain[id])
    ensures
      var w', f := Next(c, kek, w, RebuildDone(code, lo, hi)), JobField(JobOf(w, code, lo, hi));
      && id in w'.tables.main && BlindKnown(c, w'.keys.idx, w'.tables.main[id], w.plain[id], f)
      && Covered(c, w'.keys.idx, w'.tables.inverted, id, w.plain[id], f)
  {
    var job, t := JobOf(w, code, lo, hi), FullPass(c, JobOf(w, code, lo, hi), w.tables);
    AfterRebuildDone(c, kek, w, code, lo, hi);
    FullPassIsDone(c, job, w.tables);
    JobKeyIsKnown(c, kek, w, code, lo, hi);
    assert Done(c, job, w.tables, t, id);
    RewrittenBlind(c, job, w.keys.idx, w.tables.main, t.main, id, w.plain[id]);
    RightIsCovered(c, job, w.keys.idx, w.tables, t, w.plain[id], id);
  }

  // ---- Steady states ----

  // Every write succeeds, and a rebuild finishes and rewrites fields from their values only.
  ghost predicate Smooth(c: Crypto, w: World, e: Event) {
    match e
    case Insert(_, _, extent) => extent != RowOnly
    case RebuildDone(code, lo, hi) => WrongFields(c, JobOf(w, code, lo, hi), w.tables.main, w.plain) == {}
    case RebuildCut(_, _, _, _) => false
    case RotateFailed(_, _) => true
    case RotateAllFailed(_, _, _, _, _) => true
    case Update(_, _, _, _) => true
    case Delete(_, _) => true
    case Rotate(_, _, _) => true
    case RotateAll(_, _, _, _) => true
    case Restart => true
  }

  lemma RotateKeepsSteady(c: Crypto, kek: Bytes, w: World, t: KeyType, drawn: Block, iv: Block)
    requires AllKeysInv(c, kek, w) && Steady(c, kek, w)
    ensures Steady(c, kek, AfterRotate(c, kek, w, t, drawn, iv))
  {
    var w' := AfterRotate(c, kek, w, t, drawn, iv);
    forall u: KeyType
      ensures w'.globals.Get(u) == KeyOr(w'.keys.Get(u))
      ensures Sequential(w'.keys.Get(u)) && w'.config.Get(u).Keys == w'.keys.Get(u).infos.Keys
    {
      KeysOfInv(c, kek, w, u);
      RotationAppends(w.keys.Get(u), Some(drawn));
    }
  }

  lemma RestartKeepsSteady(c: Crypto, kek: Bytes, w: World)
    requires AllKeysInv(c, kek, w) && Steady(c, kek, w)
    ensures Steady(c, kek, AfterRestart(c, kek, w))
    ensures forall t: KeyType :: SameKeys(AfterRestart(c, kek, w).keys.Get(t), w.keys.Get(t))
  {
    RestartKeepsKeys(c, kek, w);
    forall t: KeyType
      ensures Sequential(AfterRestart(c, kek, w).keys.Get(t))
      ensures SameKeys(AfterRestart(c, kek, w).keys.Get(t), w.keys.Get(t))
    {
      RestartedRing(c, kek, w, t);
    }
  }

  lemma RestartedRing(c: Crypto, kek: Bytes, w: World, t: KeyType)
    requires KeysInv(c, kek, w, t) && Sequential(w.keys.Get(t)) && w.config.Get(t).Keys == w.keys.Get(t).infos.Keys
    ensures Sequential(AfterRestart(c, kek, w).keys.Get(t))
    ensures SameKeys(AfterRestart(c, kek, w).keys.Get(t), w.keys.Get(t))
  {
    assert AfterRestart(c, kek, w).keys.Get(t) == Loaded(OpenWith(c, kek), w.config.Get(t));
    SavedComesBack(OpenWith(c, kek), w.config.Get(t), w.keys.Get(t));
  }

  // A restart on longer or equal keys marks nothing.
  lemma NothingLost(c: Crypto, kek: Bytes, w: World, keys: KeyState)
    requires Inv(c, kek, w) && Extends(keys.enc, w.keys.enc) && Extends(keys.idx, w.keys.idx)
    ensures RestartMarks(c, w, keys) == w.marks && LostKeys(c, w, keys) == map[]
  {
    forall id | id in w.tables.main
      ensures RowInv(c, keys, w.tables.inverted, id, w.tables.main[id], w.plain[id], w.marks)
    {
      LongerHistory(c, w.keys, keys, w.tables.inverted, id, w.tables.main[id], w.plain[id], w.marks);
    }
    assert Unopened(c, w, keys) <= w.marks.mislabelled;
    forall e | e in AllFields(w) && e !in w.marks.broken && e !in w.marks.orphaned
      ensures BlindKnown(c, keys.idx, w.tables.main[e.0], w.plain[e.0], e.1)
    {
      assert FieldInv(c, keys.idx, w.tables.inverted, e.0, w.tables.main[e.0], w.plain[e.0], e.1, w.marks);
    }
    assert LostKeys(c, w, keys) == map[];
    forall e | e in Uncovered(c, w, keys) ensures e in w.marks.pending {
      assert FieldInv(c, keys.idx, w.tables.inverted, e.0, w.tables.main[e.0], w.plain[e.0], e.1, w.marks);
    }
  }

  lemma SteadyRestartLosesNothing(c: Crypto, kek: Bytes, w: World)
    requires Inv(c, kek, w) && Steady(c, kek, w)
    ensures AfterRestart(c, kek, w).marks == w.marks
  {
    var w' := AfterRestart(c, kek, w);
    RestartKeepsSteady(c, kek, w);
    assert SameKeys(w'.keys.Get(Enc), w.keys.Get(Enc)) && SameKeys(w'.keys.Get(Idx), w.keys.Get(Idx));
    NothingLost(c, kek, w, w'.keys);
  }

  lemma RotateAllKeepsSteady(c: Crypto, kek: Bytes, w: World, enc: Block, idx: Block, tag: Block, ivs: Vectors)
    requires AllKeysInv(c, kek, w) && Steady(c, kek, w)
    ensures Steady(c, kek, AfterRotateAll(c, kek, w, enc, idx, tag, ivs))
  {
    var w1 := AfterRotate(c, kek, w, Enc, enc, ivs.name);
    var w2 := AfterRotate(c, kek, w1, Idx, idx, ivs.phone);
    RotateKeepsKeys(c, kek, w, Enc, enc, ivs.name);
    RotateKeepsSteady(c, kek, w, Enc, enc, ivs.name);
    RotateKeepsKeys(c, kek, w1, Idx, idx, ivs.phone);
    RotateKeepsSteady(c, kek, w1, Idx, idx, ivs.phone);
    RotateKeepsSteady(c, kek, w2, Tag, tag, ivs.address);
  }

  // ---- Rows and keys over runs ----

  // Every live row that is not mislabelled reads back as last written, whatever the tag and
  // the fallback key are.
  lemma RowsReadBack(c: Crypto, kek: Bytes, w0: World, es: seq<Event>, id: int, fallback: Bytes)
    requires Inv(c, kek, w0) && AllPossible(c, kek, w0, es) && id in Run(c, kek, w0, es).tables.main
    ensures
      var w := Run(c, kek, w0, es);
      id in w.plain && (id !in w.marks.mislabelled ==>
        FullRow(c, w.keys, id, w.tables.main[id], fallback) == Ok(TrueRecord(w.tables.main, w.plain, id)))
  {
    var w := Run(c, kek, w0, es);
    RunKeepsInv(c, kek, w0, es);
    assert RowInv(c, w.keys, w.tables.inverted, id, w.tables.main[id], w.plain[id], w.marks);
    if id !in w.marks.mislabelled {
      FullRowIsTrue(c, w.keys, w.tables.main, w.plain, id, fallback);
    }
  }

  lemma {:induction false} AllPossiblePrefix(c: Crypto, kek: Bytes, w: World, es: seq<Event>, n: nat)
    requires AllPossible(c, kek, w, es) && n <= |es|
    ensures AllPossible(c, kek, w, es[..n])
    decreases |es|
  {
    if n == |es| {
      assert es[..n] == es;
    } else {
      AllPossiblePrefix(c, kek, w, es[..|es| - 1], n);
      assert es[..|es| - 1][..n] == es[..n];
    }
  }

  // While no restart comes in between, the history only grows, failed rotations or not.
  lemma {:induction false} RunExtends(c: Crypto, kek: Bytes, w: World, es: seq<Event>, n: nat, t: KeyType)
    requires Inv(c, kek, w) && AllPossible(c, kek, w, es) && n <= |es| && forall i :: n <= i < |es| ==> !es[i].Restart?
    ensures Extends(Run(c, kek, w, es).keys.Get(t), Run(c, kek, w, es[..n]).keys.Get(t))
    decreases |es|
  {
    if n == |es| {
      assert es[..n] == es;
    } else {
      var front := es[..|es| - 1];
      RunExtends(c, kek, w, front, n, t);
      assert front[..n] == es[..n];
      RunKeepsInv(c, kek, w, front);
      NextKeepsKeys(c, kek, Run(c, kek, w, front), es[|es| - 1], t);
      ExtendsTransitive(Run(c, kek, w, es[..n]).keys.Get(t), Run(c, kek, w, front).keys.Get(t),
                        Run(c, kek, w, es).keys.Get(t));
    }
  }

  // A restart at any moment of any run recovers keys and current version exactly when every
  // version of the type was saved.
  lemma RestartRecoversIff(c: Crypto, kek: Bytes, w0: World, es: seq<Event>, t: KeyType)
    requires Inv(c, kek, w0) && AllPossible(c, kek, w0, es)
    ensures
      var w := Run(c, kek, w0, es);
      SameKeys(AfterRestart(c, kek, w).keys.Get(t), w.keys.Get(t)) <==> w.config.Get(t).Keys == w.keys.Get(t).infos.Keys
  {
    var w := Run(c, kek, w0, es);
    RunKeepsInv(c, kek, w0, es);
    KeysOfInv(c, kek, w, t);
    assert AfterRestart(c, kek, w).keys.Get(t) == Loaded(OpenWith(c, kek), w.config.Get(t));
    ReloadIff(OpenWith(c, kek), w.config.Get(t), w.keys.Get(t));
  }

  // An event that no rotation failed in.
  predicate KeepsStep(e: Event) {
    !e.RotateFailed? && !e.RotateAllFailed?
  }

  lemma KeepsStepKeepsSteady(c: Crypto, kek: Bytes, w: World, e: Event, t: KeyType)
    requires Inv(c, kek, w) && Steady(c, kek, w) && Possible(c, w, e) && KeepsStep(e)
    ensures Steady(c, kek, Next(c, kek, w, e)) && Extends(Next(c, kek, w, e).keys.Get(t), w.keys.Get(t))
  {
    match e
    case Rotate(u, drawn, iv) =>
      RotateKeepsKeys(c, kek, w, u, drawn, iv);
      RotateKeepsSteady(c, kek, w, u, drawn, iv);
    case RotateAll(enc, idx, tag, ivs) =>
      RotateAllKeepsInv(c, kek, w, enc, idx, tag, ivs);
      RotateAllKeepsSteady(c, kek, w, enc, idx, tag, ivs);
    case Restart =>
      RestartKeepsSteady(c, kek, w);
    case _ =>
      OtherStepsKeepKeys(c, kek, w, e);
      SameKeysSteady(c, kek, w, Next(c, kek, w, e));
  }

  lemma OtherStepsKeepKeys(c: Crypto, kek: Bytes, w: World, e: Event)
    requires KeepsStep(e) && !e.Rotate? && !e.RotateAll? && !e.Restart?
    ensures Next(c, kek, w, e).keys == w.keys && Next(c, kek, w, e).config == w.config
    ensures Next(c, kek, w, e).globals == w.globals
  {
  }

  lemma SameKeysSteady(c: Crypto, kek: Bytes, w: World, w': World)
    requires Steady(c, kek, w) && w'.keys == w.keys && w'.config == w.config && w'.globals == w.globals
    ensures Steady(c, kek, w')
  {
    assert InStep(w) ==> InStep(w');
  }
}
