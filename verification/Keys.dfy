/** The versioned key history of src/crypto/key_manager.cpp and its copy in key_config. */
module Keys {
  import opened Common
  import opened Ordering
  import opened Sm4
  import opened Database

  datatype KeyInfo = KeyInfo(key: Bytes, version: int, status: KeyStatus)

  // All versions of one type of key, and the number of the current one.
  datatype KeyRing = KeyRing(infos: map<int, KeyInfo>, current: int)

  datatype KeyState = KeyState(enc: KeyRing, idx: KeyRing, tag: KeyRing) {
    function Get(t: KeyType): KeyRing {
      match t case Enc => enc case Idx => idx case Tag => tag
    }

    function Put(t: KeyType, ring: KeyRing): (r: KeyState)
      ensures forall u: KeyType :: r.Get(u) == if u == t then ring else Get(u)
    {
      match t case Enc => this.(enc := ring) case Idx => this.(idx := ring) case Tag => this.(tag := ring)
    }
  }

  const EMPTY_RING := KeyRing(map[], 0)

  // ---- Rotation ----

  // rotateKey: the current version is disabled before the random key is drawn.
  function Rotated(ring: KeyRing, drawn: Option<Block>): KeyRing {
    if ring.current !in ring.infos then ring else
      var infos := ring.infos[ring.current := ring.infos[ring.current].(status := Disabled)];
      match drawn
      case None => ring.(infos := infos)
      case Some(key) =>
        var v := ring.current + 1;
        KeyRing(infos[v := KeyInfo(key, v, Enabled)], v)
  }

  function RotateOutcome(ring: KeyRing, drawn: Option<Block>): Result<int> {
    if ring.current !in ring.infos then Err(KeyVersionNotFound)
    else if drawn.None? then Err(RandomFailed)
    else Ok(ring.current + 1)
  }

  // What a rotation makes of the history of its type, and what it returns.
  ghost predicate RotatedAs(before: KeyRing, after: KeyRing, drawn: Option<Block>, r: Result<int>) {
    var v := before.current;
    && (v !in before.infos ==> r == Err(KeyVersionNotFound) && after == before)
    && (v in before.infos ==>
        var disabled := before.infos[v := before.infos[v].(status := Disabled)];
        && (drawn.None? ==> r == Err(RandomFailed) && after == KeyRing(disabled, v))
        && (drawn.Some? ==>
            r == Ok(v + 1) && after == KeyRing(disabled[v + 1 := KeyInfo(drawn.value, v + 1, Enabled)], v + 1)))
  }

  // There is a current version, the greatest, and every key has its length.
  ghost predicate Usable(ring: KeyRing) {
    && ring.current in ring.infos
    && forall v :: v in ring.infos ==>
      1 <= v <= ring.current && ring.infos[v].version == v && |ring.infos[v].key| == KEY_LEN
  }

  // Versions 1 to current, and the current one usable.
  ghost predicate Sequential(ring: KeyRing) {
    && ring.current >= 1
    && (forall v :: v in ring.infos <==> 1 <= v <= ring.current)
    && (forall v :: v in ring.infos ==> ring.infos[v].version == v && |ring.infos[v].key| == KEY_LEN)
    && ring.infos[ring.current].status == Enabled
  }

  // Every version of the older history is in the newer one, with the same key bytes.
  ghost predicate Extends(newer: KeyRing, older: KeyRing) {
    forall v :: v in older.infos ==> v in newer.infos && newer.infos[v].key == older.infos[v].key
  }

  ghost predicate SameKeys(a: KeyRing, b: KeyRing) {
    Extends(a, b) && Extends(b, a) && a.current == b.current
  }

  // Drawn or not, a rotation leaves a usable history usable and its keys as they are.
  lemma RotationExtends(ring: KeyRing, drawn: Option<Block>)
    requires Usable(ring)
    ensures Usable(Rotated(ring, drawn)) && Extends(Rotated(ring, drawn), ring)
    ensures CurrentKey(Rotated(ring, drawn))
       == Ok(match drawn case Some(key) => key case None => ring.infos[ring.current].key)
  {
  }

  // A rotation only appends; it keeps the history sequential exactly when a key was drawn.
  lemma RotationAppends(ring: KeyRing, drawn: Option<Block>)
    requires Sequential(ring)
    ensures Extends(Rotated(ring, drawn), ring)
    ensures Sequential(Rotated(ring, drawn)) <==> drawn.Some?
    ensures drawn.Some? ==>
      var r := Rotated(ring, drawn);
      r.current == ring.current + 1 && r.infos[r.current].key == drawn.value
      && r.infos.Keys == ring.infos.Keys + {r.current} && ring.current + 1 !in ring.infos
      && r.infos[ring.current].status == Disabled
  {
  }

  // ---- Saving and loading ----

  function OpenedKey(c: Crypto, kek: Bytes, stored: StoredKey): Option<Bytes> {
    match Opened(c, stored.cipher, kek)
    case Ok(key) => if |key| == KEY_LEN then Some(key) else None
    case Err(_) => None
  }

  // How a record is read back: what opens to 16 bytes under the master key.
  type Opener = StoredKey -> Option<Bytes>

  ghost function OpenWith(c: Crypto, kek: Bytes): Opener {
    (stored: StoredKey) => OpenedKey(c, kek, stored)
  }

  ghost function LoadOne(open: Opener, ring: KeyRing, version: int, stored: StoredKey): KeyRing {
    match open(stored)
    case None => ring
    case Some(key) =>
      KeyRing(ring.infos[version := KeyInfo(key, version, stored.status)],
              if stored.status == Enabled && version > ring.current then version else ring.current)
  }

  // SELECT ... ORDER BY key_version ASC, one record after the other.
  ghost function LoadFrom(open: Opener, config: map<int, StoredKey>, versions: seq<int>): KeyRing
    requires forall i :: 0 <= i < |versions| ==> versions[i] in config
  {
    if versions == [] then EMPTY_RING else
      var last := versions[|versions| - 1];
      LoadOne(open, LoadFrom(open, config, versions[..|versions| - 1]), last, config[last])
  }

  ghost function Loaded(open: Opener, config: map<int, StoredKey>): KeyRing {
    LoadFrom(open, config, Versions(config))
  }

  function Versions(config: map<int, StoredKey>): (r: seq<int>)
    ensures StrictlyAscending(r)
    ensures forall v :: v in r <==> v in config
    ensures forall i :: 0 <= i < |r| ==> r[i] in config
  {
    Ascending(config.Keys)
  }

  ghost function LoadedState(open: Opener, config: KeyConfig): KeyState {
    KeyState(Loaded(open, config.enc), Loaded(open, config.idx), Loaded(open, config.tag))
  }

  // What a load makes of any table: the records that open to 16 bytes under the master key, with
  // their own status, and the greatest enabled version as the current one, or 0 for none.
  ghost predicate LoadedAs(open: Opener, config: map<int, StoredKey>, versions: set<int>, ring: KeyRing)
    requires versions <= config.Keys
  {
    && (forall v :: v in ring.infos <==> v in versions && open(config[v]).Some?)
    && (forall v :: v in ring.infos ==> ring.infos[v] == KeyInfo(open(config[v]).value, v, config[v].status))
    && (forall v :: v in ring.infos && ring.infos[v].status == Enabled ==> v <= ring.current)
    && ring.current >= 0
    && (ring.current > 0 ==> ring.current in ring.infos && ring.infos[ring.current].status == Enabled)
  }

  lemma {:induction false} LoadFromIs(open: Opener, config: map<int, StoredKey>, versions: seq<int>)
    requires forall i :: 0 <= i < |versions| ==> versions[i] in config
    ensures LoadedAs(open, config, (set v | v in versions), LoadFrom(open, config, versions))
  {
    if versions != [] {
      var n := |versions| - 1;
      LoadFromIs(open, config, versions[..n]);
      assert forall v :: v in versions <==> v in versions[..n] || v == versions[n];
    }
  }

  lemma LoadedIs(open: Opener, config: map<int, StoredKey>)
    ensures LoadedAs(open, config, config.Keys, Loaded(open, config))
  {
    LoadFromIs(open, config, Versions(config));
    assert (set v | v in Versions(config)) == config.Keys;
  }

  // A record opens when its ciphertext does, to 16 bytes.
  lemma OpenedKeyIs(c: Crypto, kek: Bytes, stored: StoredKey, key: Bytes)
    ensures OpenedKey(c, kek, stored) == Some(key) <==> Opened(c, stored.cipher, kek) == Ok(key) && |key| == 16
  {
  }

  // The table never holds a wrong key: each record opens to the ring's key of that version.
  ghost predicate Truthful(open: Opener, config: map<int, StoredKey>, ring: KeyRing) {
    forall v :: v in config ==>
      v in ring.infos && open(config[v]) == Some(ring.infos[v].key) && config[v].status == Enabled
  }

  // Every version was saved.
  ghost predicate Saved(open: Opener, config: map<int, StoredKey>, ring: KeyRing) {
    Truthful(open, config, ring) && config.Keys == ring.infos.Keys
  }

  lemma {:induction false} LoadFromTruthful(open: Opener, config: map<int, StoredKey>, versions: seq<int>,
      ring: KeyRing)
    requires forall i :: 0 <= i < |versions| ==> versions[i] in config
    requires StrictlyAscending(versions) && Truthful(open, config, ring)
    requires forall i :: 0 <= i < |versions| ==> versions[i] >= 1
    ensures
      var r := LoadFrom(open, config, versions);
      && (forall v :: v in r.infos <==> v in versions)
      && (forall v :: v in r.infos ==> v in ring.infos && r.infos[v] == KeyInfo(ring.infos[v].key, v, Enabled))
      && r.current == if versions == [] then 0 else versions[|versions| - 1]
  {
    if versions != [] {
      var n := |versions| - 1;
      var last := versions[n];
      LoadFromTruthful(open, config, versions[..n], ring);
      assert versions == versions[..n] + [last];
      assert open(config[last]) == Some(ring.infos[last].key);
    }
  }

  // What comes back from a truthful table: the saved versions, all marked enabled, and the
  // greatest of them as the current one.
  lemma LoadedTruthful(open: Opener, config: map<int, StoredKey>, ring: KeyRing)
    requires Usable(ring) && Truthful(open, config, ring)
    ensures
      var r := Loaded(open, config);
      && r.infos.Keys == config.Keys
      && (forall v :: v in r.infos ==> v in ring.infos && r.infos[v] == KeyInfo(ring.infos[v].key, v, Enabled))
      && (config != map[] ==> Usable(r))
      && (ring.current in config ==> r.current == ring.current)
  {
    var versions := Versions(config);
    var r := Loaded(open, config);
    forall i | 0 <= i < |versions| ensures versions[i] >= 1 {
      assert versions[i] in ring.infos;
    }
    LoadFromTruthful(open, config, versions, ring);
    forall v ensures v in r.infos.Keys <==> v in config.Keys {
      assert v in versions <==> v in config;
    }
    CurrentComesBack(config, ring);
    GreatestIsCurrent(config);
  }

  lemma CurrentComesBack(config: map<int, StoredKey>, ring: KeyRing)
    requires Usable(ring) && forall v :: v in config ==> v in ring.infos
    ensures ring.current in config ==>
      Versions(config) != [] && Versions(config)[|Versions(config)| - 1] == ring.current
  {
    if ring.current in config {
      LastIsGreatest(Versions(config), ring.current);
    }
  }

  lemma GreatestIsCurrent(config: map<int, StoredKey>)
    ensures config != map[] ==>
      Versions(config) != [] && Versions(config)[|Versions(config)| - 1] in config
      && forall v :: v in config ==> v <= Versions(config)[|Versions(config)| - 1]
  {
    var versions := Versions(config);
    if config != map[] {
      var v :| v in config;
      assert v in versions;
      forall u | u in config ensures u <= versions[|versions| - 1] {
        assert u in versions;
      }
    }
  }

  // A table stays truthful when the history grows, and when one of its keys is saved.
  lemma TruthStays(open: Opener, config: map<int, StoredKey>, ring: KeyRing, longer: KeyRing)
    requires Truthful(open, config, ring) && Extends(longer, ring)
    ensures Truthful(open, config, longer)
  {
  }

  lemma SavingIsTruthful(c: Crypto, kek: Bytes, config: map<int, StoredKey>, ring: KeyRing, v: int, iv: Block)
    requires |kek| == KEY_LEN && v in ring.infos && |ring.infos[v].key| == KEY_LEN
    requires Truthful(OpenWith(c, kek), config, ring)
    ensures Truthful(OpenWith(c, kek), config[v := StoredUnder(c, kek, ring.infos[v].key, iv)], ring)
  {
    OpenUndoesSeal(c, ring.infos[v].key, kek, iv);
  }

  lemma MissingVersion(open: Opener, config: map<int, StoredKey>, ring: KeyRing)
    requires Truthful(open, config, ring) && !Saved(open, config, ring)
    ensures exists v :: v in ring.infos && v !in config
  {
    forall v | v in config.Keys ensures v in ring.infos.Keys {
    }
    assert config.Keys <= ring.infos.Keys;
    ProperSubsetMisses(config.Keys, ring.infos.Keys);
  }

  // Reloading a truthful table recovers the keys and the current version exactly
  // when every version was saved; disabled marks are not among what comes back.
  lemma ReloadIff(open: Opener, config: map<int, StoredKey>, ring: KeyRing)
    requires Usable(ring) && Truthful(open, config, ring)
    ensures SameKeys(Loaded(open, config), ring) <==> Saved(open, config, ring)
    ensures forall v :: v in Loaded(open, config).infos ==> Loaded(open, config).infos[v].status == Enabled
  {
    LoadedTruthful(open, config, ring);
    if Saved(open, config, ring) {
      SavedComesBack(open, config, ring);
    } else {
      MissingVersion(open, config, ring);
      var v :| v in ring.infos && v !in config;
      assert v !in Loaded(open, config).infos;
    }
  }

  lemma SavedComesBack(open: Opener, config: map<int, StoredKey>, ring: KeyRing)
    requires Usable(ring) && Saved(open, config, ring)
    ensures SameKeys(Loaded(open, config), ring) && Usable(Loaded(open, config))
    ensures Sequential(ring) ==> Sequential(Loaded(open, config))
  {
    LoadedTruthful(open, config, ring);
    var r := Loaded(open, config);
    assert ring.current in ring.infos && ring.current in config.Keys;
    forall v ensures v in r.infos <==> v in ring.infos {
      assert v in r.infos.Keys <==> v in ring.infos.Keys;
    }
  }

  lemma LastIsGreatest(s: seq<int>, m: int)
    requires StrictlyAscending(s) && m in s && forall x :: x in s ==> x <= m
    ensures s[|s| - 1] == m
  {
    var i :| 0 <= i < |s| && s[i] == m;
    assert s[|s| - 1] in s;
  }

  function StoredUnder(c: Crypto, kek: Bytes, key: Bytes, iv: Block): StoredKey {
    StoredKey(Sealed(c, key, kek, iv), Enabled)
  }

  // Rotating and saving the new key keeps every version saved.
  lemma SaveAfterRotation(c: Crypto, kek: Bytes, config: map<int, StoredKey>, ring: KeyRing, drawn: Block, iv: Block)
    requires |kek| == KEY_LEN && Sequential(ring) && Saved(OpenWith(c, kek), config, ring)
    ensures Saved(OpenWith(c, kek), config[ring.current + 1 := StoredUnder(c, kek, drawn, iv)],
                  Rotated(ring, Some(drawn)))
  {
    OpenUndoesSeal(c, drawn, kek, iv);
    RotationAppends(ring, Some(drawn));
  }

  // Rotating without saving does not.
  lemma RotationNotSaved(c: Crypto, kek: Bytes, config: map<int, StoredKey>, ring: KeyRing, drawn: Block)
    requires Sequential(ring) && Saved(OpenWith(c, kek), config, ring)
    ensures Truthful(OpenWith(c, kek), config, Rotated(ring, Some(drawn)))
    ensures !SameKeys(Loaded(OpenWith(c, kek), config), Rotated(ring, Some(drawn)))
  {
    RotationAppends(ring, Some(drawn));
    ReloadIff(OpenWith(c, kek), config, Rotated(ring, Some(drawn)));
    assert ring.current + 1 in Rotated(ring, Some(drawn)).infos;
  }

  // A version whose save failed is lost at the restart, and its number goes to the next key
  // that is drawn.
  lemma VersionReused(open: Opener, config: map<int, StoredKey>, ring: KeyRing, lost: Block, drawn: Block)
    requires Usable(ring) && Saved(open, config, ring)
    ensures KeyByVersion(Rotated(ring, Some(lost)), ring.current + 1) == Some(lost)
    ensures KeyByVersion(Loaded(open, config), ring.current + 1) == None
    ensures KeyByVersion(Rotated(Loaded(open, config), Some(drawn)), ring.current + 1) == Some(drawn)
  {
    SavedComesBack(open, config, ring);
    NextVersion(ring, Loaded(open, config), lost, drawn);
  }

  lemma NextVersion(ring: KeyRing, loaded: KeyRing, lost: Block, drawn: Block)
    requires Usable(ring) && Usable(loaded) && SameKeys(loaded, ring)
    ensures KeyByVersion(Rotated(ring, Some(lost)), ring.current + 1) == Some(lost)
    ensures KeyByVersion(loaded, ring.current + 1) == None
    ensures KeyByVersion(Rotated(loaded, Some(drawn)), ring.current + 1) == Some(drawn)
  {
  }

  // ---- Lookups ----

  function KeyByVersion(ring: KeyRing, version: int): Option<Bytes> {
    if version in ring.infos then Some(ring.infos[version].key) else None
  }

  function CurrentKey(ring: KeyRing): Result<Bytes> {
    if ring.current in ring.infos then Ok(ring.infos[ring.current].key) else Err(KeyVersionNotFound)
  }

  // Every type has at least one key.
  predicate HasAllTypes(s: KeyState) {
    s.enc.infos != map[] && s.idx.infos != map[] && s.tag.infos != map[]
  }

  ghost predicate HasRecord(c: Crypto, kek: Bytes, config: map<int, StoredKey>) {
    exists v :: v in config && OpenedKey(c, kek, config[v]).Some?
  }

  lemma LoadedType(c: Crypto, kek: Bytes, config: map<int, StoredKey>)
    ensures LoadedAs(OpenWith(c, kek), config, config.Keys, Loaded(OpenWith(c, kek), config))
    ensures Loaded(OpenWith(c, kek), config).infos != map[] <==> HasRecord(c, kek, config)
  {
    var open := OpenWith(c, kek);
    var infos := Loaded(open, config).infos;
    LoadedIs(open, config);
    forall v | v in config ensures open(config[v]) == OpenedKey(c, kek, config[v]) {
    }
    if HasRecord(c, kek, config) {
      var v :| v in config && OpenedKey(c, kek, config[v]).Some?;
      assert v in infos;
    }
    if infos != map[] {
      HasElement(infos.Keys);
      var v :| v in infos.Keys;
      assert OpenedKey(c, kek, config[v]).Some?;
    }
  }

  class KeyManager {
    const crypto: Crypto
    var kek: Bytes
    var state: KeyState  // keys_[3] and the three current versions

    constructor (crypto: Crypto, kek: Bytes)
      ensures this.crypto == crypto && this.kek == kek
      ensures state == KeyState(EMPTY_RING, EMPTY_RING, EMPTY_RING)
    {
      this.crypto, this.kek := crypto, kek;
      state := KeyState(EMPTY_RING, EMPTY_RING, EMPTY_RING);
    }

    method AddKeyVersion(t: KeyType, key: Bytes, version: int, status: KeyStatus) returns (r: Result<()>)
      modifies this`state
      ensures r == if |key| == KEY_LEN then Ok(()) else Err(BadKeyLength)
      ensures state == if |key| != KEY_LEN then old(state) else
        old(state).Put(t, old(state).Get(t).(
          infos := old(state).Get(t).infos[version := KeyInfo(key, version, status)]))
    {
      if |key| != KEY_LEN {
        return Err(BadKeyLength);
      }
      var ring := state.Get(t);
      state := state.Put(t, ring.(infos := ring.infos[version := KeyInfo(key, version, status)]));
      r := Ok(());
    }

    // drawn is what the random generator delivers, if it does.
    method RotateKey(t: KeyType, drawn: Option<Block>) returns (r: Result<int>)
      modifies this`state
      ensures state == old(state).Put(t, Rotated(old(state).Get(t), drawn))
      ensures r == RotateOutcome(old(state).Get(t), drawn)
      ensures RotatedAs(old(state).Get(t), state.Get(t), drawn, r)
      ensures forall u: KeyType :: u != t ==> state.Get(u) == old(state).Get(u)
    {
      var ring := state.Get(t);
      var currentVersion := ring.current;
      if currentVersion !in ring.infos {
        PutSame(state, t);
        return Err(KeyVersionNotFound);
      }
      ghost var before := state;
      state := state.Put(t,
          ring.(infos := ring.infos[currentVersion := ring.infos[currentVersion].(status := Disabled)]));
      if drawn.None? {
        return Err(RandomFailed);
      }
      var newVersion := currentVersion + 1;
      var added := AddKeyVersion(t, drawn.value, newVersion, Enabled);
      state := state.Put(t, state.Get(t).(current := newVersion));
      PutTwice(before, state, t);
      r := Ok(newVersion);
    }

    // A record that does not open to 16 bytes is skipped.
    method LoadRecord(t: KeyType, version: int, stored: StoredKey)
      modifies this`state
      ensures state == old(state).Put(t, LoadOne(OpenWith(crypto, kek), old(state).Get(t), version, stored))
    {
      var ring := state.Get(t);
      PutSame(state, t);
      var decrypted := Decrypt(crypto, stored.cipher, kek);
      assert OpenWith(crypto, kek)(stored) == OpenedKey(crypto, kek, stored);
      if decrypted.Err? || |decrypted.value| != KEY_LEN {
        return;
      }
      var infos := ring.infos[version := KeyInfo(decrypted.value, version, stored.status)];
      var current := if stored.status == Enabled && version > ring.current then version else ring.current;
      state := state.Put(t, KeyRing(infos, current));
    }

    // The loop over the records of one type.
    method LoadRecords(t: KeyType, config: map<int, StoredKey>, versions: seq<int>)
      requires forall i :: 0 <= i < |versions| ==> versions[i] in config
      requires state.Get(t) == EMPTY_RING
      modifies this`state
      ensures state == old(state).Put(t, LoadFrom(OpenWith(crypto, kek), config, versions))
    {
      ghost var open, before, ring := OpenWith(crypto, kek), state, EMPTY_RING;
      PutSame(state, t);
      for i := 0 to |versions|
        invariant ring == LoadFrom(open, config, versions[..i])
        invariant state == before.Put(t, ring)
      {
        ghost var next := LoadOne(open, ring, versions[i], config[versions[i]]);
        LoadRecord(t, versions[i], config[versions[i]]);
        LoadFromNext(open, config, versions, i);
        PutPut(before, t, ring, next);
        ring := next;
      }
      assert versions[..|versions|] == versions;
    }

    // SELECT the records of one type, oldest version first.
    method LoadType(db: Session, t: KeyType)
      requires state.Get(t) == EMPTY_RING
      modifies this`state
      ensures state == old(state).Put(t, Loaded(OpenWith(crypto, kek), db.keyConfig.Get(t)))
    {
      var config := db.keyConfig.Get(t);
      LoadRecords(t, config, Versions(config));
    }

    // loadFromDatabase until its last check.
    method LoadTypes(db: Session, kek: Bytes)
      modifies this`kek, this`state
      ensures this.kek == kek && state == LoadedState(OpenWith(crypto, kek), db.keyConfig)
    {
      this.kek := kek;
      state := KeyState(EMPTY_RING, EMPTY_RING, EMPTY_RING);
      LoadType(db, Enc);
      LoadType(db, Idx);
      LoadType(db, Tag);
    }

    method LoadFromDatabase(db: Session, kek: Bytes) returns (r: Result<()>)
      modifies this`kek, this`state
      ensures this.kek == kek && state == LoadedState(OpenWith(crypto, kek), db.keyConfig)
      ensures r.Ok? <==> HasAllTypes(state)
      ensures LoadedAs(OpenWith(crypto, kek), db.keyConfig.enc, db.keyConfig.enc.Keys, state.enc)
      ensures LoadedAs(OpenWith(crypto, kek), db.keyConfig.idx, db.keyConfig.idx.Keys, state.idx)
      ensures LoadedAs(OpenWith(crypto, kek), db.keyConfig.tag, db.keyConfig.tag.Keys, state.tag)
      ensures r.Ok? <==>
        && HasRecord(crypto, kek, db.keyConfig.enc) && HasRecord(crypto, kek, db.keyConfig.idx)
        && HasRecord(crypto, kek, db.keyConfig.tag)
    {
      LoadedType(crypto, kek, db.keyConfig.enc);
      LoadedType(crypto, kek, db.keyConfig.idx);
      LoadedType(crypto, kek, db.keyConfig.tag);
      LoadTypes(db, kek);
      r := if HasAllTypes(state) then Ok(()) else Err(NoKeyLoaded);
    }

    // INSERT ... ON DUPLICATE KEY UPDATE in a transaction of its own; accepted tells
    // whether the database takes it.
    method SaveToDatabase(db: Session, t: KeyType, key: Bytes, version: int, status: KeyStatus, iv: Block,
        accepted: bool)
      returns (ok: bool)
      modifies db`keyConfig
      ensures ok == (accepted && |kek| == KEY_LEN)
      ensures db.keyConfig == if !ok then old(db.keyConfig) else
        old(db.keyConfig).Put(t, version, StoredKey(Sealed(crypto, key, kek, iv), status))
    {
      var cipher := Encrypt(crypto, key, kek, iv);
      if cipher.Err? || !accepted {
        return false;
      }
      db.keyConfig := db.keyConfig.Put(t, version, StoredKey(cipher.value, status));
      ok := true;
    }

    function GetKey(t: KeyType): Result<Bytes>
      reads this`state
    {
      CurrentKey(state.Get(t))
    }

    function GetKeyByVersion(t: KeyType, version: int): Option<Bytes>
      reads this`state
    {
      KeyByVersion(state.Get(t), version)
    }

    // getAllIndexKeys: every version, oldest first.
    method GetAllIndexKeys() returns (keys: seq<(int, Bytes)>)
      ensures |keys| == |state.idx.infos|
      ensures forall i :: 0 <= i < |keys| ==>
        keys[i].0 in state.idx.infos && keys[i].1 == state.idx.infos[keys[i].0].key
      ensures forall v :: v in state.idx.infos ==> (v, state.idx.infos[v].key) in keys
      ensures forall i, j :: 0 <= i < j < |keys| ==> keys[i].0 < keys[j].0
    {
      var versions := Ascending(state.idx.infos.Keys);
      keys := [];
      for i := 0 to |versions|
        invariant |keys| == i
        invariant forall k :: 0 <= k < i ==>
          versions[k] in state.idx.infos && keys[k] == (versions[k], state.idx.infos[versions[k]].key)
      {
        var v := versions[i];
        assert v in versions;
        keys := keys + [(v, state.idx.infos[v].key)];
      }
      forall v | v in state.idx.infos ensures (v, state.idx.infos[v].key) in keys {
        assert v in versions;
        var k :| 0 <= k < |versions| && versions[k] == v;
        assert keys[k] == (v, state.idx.infos[v].key);
      }
    }
  }

  lemma LoadFromNext(open: Opener, config: map<int, StoredKey>, versions: seq<int>, i: nat)
    requires forall k :: 0 <= k < |versions| ==> versions[k] in config
    requires i < |versions|
    ensures LoadFrom(open, config, versions[..i + 1]) ==
            LoadOne(open, LoadFrom(open, config, versions[..i]), versions[i], config[versions[i]])
  {
    assert versions[..i + 1][..i] == versions[..i];
  }

  lemma PutPut(s: KeyState, t: KeyType, a: KeyRing, b: KeyRing)
    ensures s.Put(t, a).Put(t, b) == s.Put(t, b)
  {
  }

  lemma PutSame(s: KeyState, t: KeyType)
    ensures s.Put(t, s.Get(t)) == s
  {
  }

  lemma PutTwice(s: KeyState, s': KeyState, t: KeyType)
    requires forall u: KeyType :: u != t ==> s'.Get(u) == s.Get(u)
    ensures s' == s.Put(t, s'.Get(t))
  {
    assert s'.Get(Enc) == s'.enc && s'.Get(Idx) == s'.idx && s'.Get(Tag) == s'.tag;
    assert s.Get(Enc) == s.enc && s.Get(Idx) == s.idx && s.Get(Tag) == s.tag;
  }
}
