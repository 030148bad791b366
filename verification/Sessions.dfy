/**
  The runs that src/main.cpp can take. A rotation that fails in the menu ends the program, so
  a restart comes next; the timer catches its failures, and the session goes on with the old
  globals.
 */
module Sessions {
  import opened Common
  import opened Sm4
  import opened Tables
  import opened Database
  import opened Keys
  import opened Dao
  import opened Search
  import opened Exactness
  import opened AnyStore
  import opened Reindex
  import opened Lifecycle
  import opened Runs
  import opened Failures

  // The timer is looked at after a start and after an insert that succeeded.
  predicate TimerLooks(es: seq<Event>, i: nat)
    requires i < |es|
  {
    i == 0 || es[i - 1].Restart? || (es[i - 1].Insert? && es[i - 1].extent.Complete?)
  }

  // The runs of the program, from a start on.
  predicate ProgramRun(es: seq<Event>) {
    forall i :: 0 <= i < |es| - 1 && !KeepsStep(es[i]) ==>
      es[i + 1].Restart? || (es[i].RotateAllFailed? && TimerLooks(es, i))
  }

  // Those in which no failure of the timer is survived.
  predicate MenuFailuresOnly(es: seq<Event>) {
    forall i :: 0 <= i < |es| - 1 ==> RestartsAfter(es, i)
  }

  predicate RestartsAfter(es: seq<Event>, i: nat)
    requires i < |es| - 1
  {
    !KeepsStep(es[i]) ==> es[i + 1].Restart?
  }

  // The program has just ended by a failure.
  predicate Ended(es: seq<Event>) {
    es != [] && !KeepsStep(es[|es| - 1])
  }

  lemma MenuFailuresPrefix(es: seq<Event>, n: nat)
    requires MenuFailuresOnly(es) && n <= |es|
    ensures MenuFailuresOnly(es[..n])
  {
    forall i | 0 <= i < n - 1 ensures RestartsAfter(es[..n], i) {
      assert RestartsAfter(es, i);
    }
  }

  // After a failure comes a restart, and before it there was none.
  lemma FailureIsAlone(es: seq<Event>)
    requires MenuFailuresOnly(es) && |es| >= 2 && !KeepsStep(es[|es| - 2])
    ensures es[|es| - 1].Restart? && !Ended(es[..|es| - 2])
  {
    assert RestartsAfter(es, |es| - 2);
    if |es| >= 3 {
      assert RestartsAfter(es, |es| - 3);
    }
  }

  // ---- A failure and the restart after it ----

  ghost predicate VersionsTo(config: map<int, StoredKey>, n: int) {
    n >= 1 && forall v :: v in config <==> 1 <= v <= n
  }

  // A gapless table loads as a sequential history.
  lemma GaplessLoads(open: Opener, config: map<int, StoredKey>, ring: KeyRing, n: int)
    requires Usable(ring) && Truthful(open, config, ring) && VersionsTo(config, n)
    ensures Sequential(Loaded(open, config))
  {
    LoadedTruthful(open, config, ring);
    assert n in config;
    GaplessRing(Loaded(open, config), config, n);
  }

  lemma GaplessRing(loaded: KeyRing, config: map<int, StoredKey>, n: int)
    requires Usable(loaded) && VersionsTo(config, n) && loaded.infos.Keys == config.Keys
    requires forall v :: v in loaded.infos ==> loaded.infos[v].status == Enabled
    ensures Sequential(loaded)
  {
    assert forall v :: v in loaded.infos <==> v in config;
  }

  lemma NextVersionSaved(config: map<int, StoredKey>, n: int, k: int, stored: StoredKey)
    requires VersionsTo(config, n) && n <= k <= n + 1
    ensures VersionsTo(config[k := stored], k)
  {
  }

  // Whatever a failed rotation saved, it left no gap.
  lemma FailureLeavesNoGap(c: Crypto, kek: Bytes, w: World, e: Event, t: KeyType)
    requires Inv(c, kek, w) && Steady(c, kek, w) && !KeepsStep(e)
    ensures exists n :: VersionsTo(Next(c, kek, w, e).config.Get(t), n)
  {
    var config := Next(c, kek, w, e).config.Get(t);
    SteadyVersions(c, kek, w, t);
    assert e.RotateFailed? ==> config == w.config.Get(t);
    if e.RotateAllFailed? {
      var keys := RotatedKeys(w.keys, e.encDraw, e.idxDraw, e.tagDraw);
      NextOrSame(w.keys, e.encDraw, e.idxDraw, e.tagDraw, t);
      SavedEach(c, kek, w.config, keys, e.ivs, e.saves, t);
      var saved := SavedFirst(c, kek, w.config, keys, e.ivs, e.saves).Get(t);
      assert config == saved || config == w.config.Get(t);
      if iv: Block :| saved == w.config.Get(t)[keys.Get(t).current := StoredUnder(c, kek, KeyOr(keys.Get(t)), iv)] {
        NextVersionSaved(w.config.Get(t), w.keys.Get(t).current, keys.Get(t).current,
                         StoredUnder(c, kek, KeyOr(keys.Get(t)), iv));
      }
    }
  }

  lemma SteadyVersions(c: Crypto, kek: Bytes, w: World, t: KeyType)
    requires Steady(c, kek, w)
    ensures VersionsTo(w.config.Get(t), w.keys.Get(t).current)
  {
    assert Sequential(w.keys.Get(t)) && w.config.Get(t).Keys == w.keys.Get(t).infos.Keys;
    assert forall v :: v in w.config.Get(t) <==> v in w.config.Get(t).Keys;
  }

  lemma NextOrSame(keys: KeyState, enc: Option<Block>, idx: Option<Block>, tag: Option<Block>, t: KeyType)
    ensures keys.Get(t).current <= RotatedKeys(keys, enc, idx, tag).Get(t).current <= keys.Get(t).current + 1
  {
    RotatedEach(keys, enc, idx, tag, t);
  }

  // A failed rotation and a restart lead from a steady state to a steady state.
  lemma RestartIsSteady(c: Crypto, kek: Bytes, w: World, e: Event)
    requires Inv(c, kek, w) && Steady(c, kek, w) && !KeepsStep(e)
    ensures Steady(c, kek, AfterRestart(c, kek, Next(c, kek, w, e)))
  {
    var w1 := Next(c, kek, w, e);
    NextKeepsInv(c, kek, w, e);
    RestartKeepsKeys(c, kek, w1);
    forall t: KeyType ensures Sequential(AfterRestart(c, kek, w1).keys.Get(t)) {
      KeysOfInv(c, kek, w1, t);
      FailureLeavesNoGap(c, kek, w, e, t);
      var n :| VersionsTo(w1.config.Get(t), n);
      GaplessLoads(OpenWith(c, kek), w1.config.Get(t), w1.keys.Get(t), n);
      RestartLoads(c, kek, w1, t);
    }
  }

  lemma RestartLoads(c: Crypto, kek: Bytes, w: World, t: KeyType)
    ensures AfterRestart(c, kek, w).keys.Get(t) == Loaded(OpenWith(c, kek), w.config.Get(t))
    ensures AfterRestart(c, kek, w).config == w.config
  {
  }

  // ---- Runs without surviving failures ----

  // The state is steady again whenever the program runs.
  lemma {:induction false} MenuRunIsSteady(c: Crypto, kek: Bytes, w0: World, es: seq<Event>)
    requires Inv(c, kek, w0) && Steady(c, kek, w0) && AllPossible(c, kek, w0, es) && MenuFailuresOnly(es)
    ensures !Ended(es) ==> Steady(c, kek, Run(c, kek, w0, es))
    decreases |es|
  {
    if es != [] && KeepsStep(es[|es| - 1]) {
      var front := es[..|es| - 1];
      RunKeepsInv(c, kek, w0, front);
      if Ended(front) {
        BeforeFailure(c, kek, w0, es);
        MenuRunIsSteady(c, kek, w0, es[..|es| - 2]);
        RestartIsSteady(c, kek, Run(c, kek, w0, es[..|es| - 2]), es[|es| - 2]);
      } else {
        MenuFailuresPrefix(es, |es| - 1);
        MenuRunIsSteady(c, kek, w0, front);
        KeepsStepKeepsSteady(c, kek, Run(c, kek, w0, front), es[|es| - 1], Enc);
      }
    }
  }

  lemma LastTwoEvents(c: Crypto, kek: Bytes, w: World, es: seq<Event>)
    requires |es| >= 2 && AllPossible(c, kek, w, es)
    ensures AllPossible(c, kek, w, es[..|es| - 2])
    ensures Run(c, kek, w, es) == Next(c, kek, Next(c, kek, Run(c, kek, w, es[..|es| - 2]), es[|es| - 2]), es[|es| - 1])
  {
    var front := es[..|es| - 1];
    assert front[|front| - 1] == es[|es| - 2] && front[..|front| - 1] == es[..|es| - 2];
    assert AllPossible(c, kek, w, front);
  }

  lemma FailureEvents(es: seq<Event>)
    requires MenuFailuresOnly(es) && es != [] && Ended(es[..|es| - 1])
    ensures |es| >= 2 && !KeepsStep(es[|es| - 2]) && es[|es| - 1].Restart?
    ensures MenuFailuresOnly(es[..|es| - 2]) && !Ended(es[..|es| - 2])
  {
    assert es[..|es| - 1][|es| - 2] == es[|es| - 2];
    FailureIsAlone(es);
    MenuFailuresPrefix(es, |es| - 2);
  }

  lemma RestartIs(c: Crypto, kek: Bytes, w: World, e: Event)
    requires e.Restart?
    ensures Next(c, kek, w, e) == AfterRestart(c, kek, w)
  {
  }

  // A run that ends in a failure and a restart, taken apart.
  lemma BeforeFailure(c: Crypto, kek: Bytes, w0: World, es: seq<Event>)
    requires Inv(c, kek, w0) && AllPossible(c, kek, w0, es) && MenuFailuresOnly(es)
    requires es != [] && Ended(es[..|es| - 1])
    ensures |es| >= 2 && !KeepsStep(es[|es| - 2]) && es[|es| - 1].Restart?
    ensures MenuFailuresOnly(es[..|es| - 2]) && !Ended(es[..|es| - 2])
    ensures AllPossible(c, kek, w0, es[..|es| - 2]) && Inv(c, kek, Run(c, kek, w0, es[..|es| - 2]))
    ensures Run(c, kek, w0, es)
         == AfterRestart(c, kek, Next(c, kek, Run(c, kek, w0, es[..|es| - 2]), es[|es| - 2]))
  {
    FailureEvents(es);
    FailureWorlds(c, kek, w0, es, es[..|es| - 2]);
    RunKeepsInv(c, kek, w0, es[..|es| - 2]);
  }

  lemma FailureWorlds(c: Crypto, kek: Bytes, w0: World, es: seq<Event>, before: seq<Event>)
    requires AllPossible(c, kek, w0, es) && |es| >= 2 && es[|es| - 1].Restart? && before == es[..|es| - 2]
    ensures AllPossible(c, kek, w0, before)
    ensures Run(c, kek, w0, es) == AfterRestart(c, kek, Next(c, kek, Run(c, kek, w0, before), es[|es| - 2]))
  {
    LastTwoEvents(c, kek, w0, es);
    RestartIs(c, kek, Next(c, kek, Run(c, kek, w0, before), es[|es| - 2]), es[|es| - 1]);
  }

  // ---- Nothing is mislabelled in them ----

  ghost predicate KeysSound(m: Marks) {
    m.mislabelled == {} && m.orphaned == map[]
  }

  lemma WritesInStep(c: Crypto, kek: Bytes, w: World, id: int, data: Plain, ivs: Vectors, tokensIn: bool)
    requires AllKeysInv(c, kek, w) && InStep(w)
    ensures KeysSound(w.marks) ==> KeysSound(WriteMarks(c, w, id, data, ivs, tokensIn))
    ensures w.marks == NO_MARKS && tokensIn ==> WriteMarks(c, w, id, data, ivs, tokensIn) == NO_MARKS
  {
    GetEach(w);
    WrittenOpensIff(c, kek, w, data, ivs);
  }

  lemma RebuildKeepsKeysSound(c: Crypto, w: World, job: Job, t: Tables, finished: bool)
    requires KeysSound(w.marks)
    ensures KeysSound(AfterRebuild(c, w, job, t, finished).marks)
  {
  }

  lemma StepKeepsKeysSound(c: Crypto, kek: Bytes, w: World, e: Event)
    requires Inv(c, kek, w) && Steady(c, kek, w) && KeysSound(w.marks)
    ensures KeysSound(Next(c, kek, w, e).marks)
  {
    match e
    case Insert(data, ivs, extent) => WritesInStep(c, kek, w, w.nextId, data, ivs, extent.Complete?);
    case Update(id, data, ivs, _) => WritesInStep(c, kek, w, id, data, ivs, true);
    case Restart => SteadyRestartLosesNothing(c, kek, w);
    case Delete(_, _) =>
    case Rotate(_, _, _) =>
    case RotateAll(_, _, _, _) =>
    case RotateFailed(_, _) =>
    case RotateAllFailed(_, _, _, _, _) =>
    case RebuildDone(code, lo, hi) =>
      RebuildKeepsKeysSound(c, w, JobOf(w, code, lo, hi), FullPass(c, JobOf(w, code, lo, hi), w.tables), true);
    case RebuildCut(code, lo, hi, left) => RebuildKeepsKeysSound(c, w, JobOf(w, code, lo, hi), left, false);
  }

  // Over runs of the program in which no failure of the timer is survived, no row is ever
  // mislabelled and no index key lost, however often the menu's rotations fail and however the
  // program stops.
  lemma {:induction false} MenuFailuresMislabelNothing(c: Crypto, kek: Bytes, w0: World, es: seq<Event>)
    requires Inv(c, kek, w0) && Steady(c, kek, w0) && KeysSound(w0.marks)
    requires AllPossible(c, kek, w0, es) && MenuFailuresOnly(es)
    ensures KeysSound(Run(c, kek, w0, es).marks)
    decreases |es|
  {
    if es != [] {
      var front := es[..|es| - 1];
      if Ended(front) {
        BeforeFailure(c, kek, w0, es);
        MenuFailuresMislabelNothing(c, kek, w0, es[..|es| - 2]);
        MenuRunIsSteady(c, kek, w0, es[..|es| - 2]);
        RestartAfterFailure(c, kek, Run(c, kek, w0, es[..|es| - 2]), es[|es| - 2]);
      } else {
        MenuFailuresPrefix(es, |es| - 1);
        RunKeepsInv(c, kek, w0, front);
        MenuFailuresMislabelNothing(c, kek, w0, front);
        MenuRunIsSteady(c, kek, w0, front);
        StepKeepsKeysSound(c, kek, Run(c, kek, w0, front), es[|es| - 1]);
      }
    }
  }

  // So in them every row reads back, and exact search is right exactly when no value exceeds 2031
  // bytes and the indexes are intact: where marked fields do not collide with their values, when
  // no live field is left rewritten from another text.
  lemma SearchUnderMenuFailures(c: Crypto, kek: Bytes, w0: World, es: seq<Event>)
    requires Inv(c, kek, w0) && Steady(c, kek, w0) && KeysSound(w0.marks)
    requires AllPossible(c, kek, w0, es) && MenuFailuresOnly(es)
    ensures
      var w := Run(c, kek, w0, es);
      && w.tables.main.Keys == w.plain.Keys && RowsRead(c, w)
      && (ExactRight(c, w) <==> ShortValues(w.plain) && IndexIntact(c, w.keys.idx, w.tables.main, w.plain))
      && (FuzzyRight(c, w) <==> ShortValues(w.plain) && AllFindable(c, w.keys.idx, w.tables, w.plain))
      && (SourcesApart(c, w) ==> (ExactRight(c, w) <==> ShortValues(w.plain) && NothingBroken(w)))
  {
    var w := Run(c, kek, w0, es);
    RunKeepsInv(c, kek, w0, es);
    MenuFailuresMislabelNothing(c, kek, w0, es);
    SearchUnderSoundKeys(c, kek, w);
  }

  lemma SearchUnderSoundKeys(c: Crypto, kek: Bytes, w: World)
    requires Inv(c, kek, w) && KeysSound(w.marks)
    ensures w.tables.main.Keys == w.plain.Keys && RowsRead(c, w)
    ensures ExactRight(c, w) <==> ShortValues(w.plain) && IndexIntact(c, w.keys.idx, w.tables.main, w.plain)
    ensures FuzzyRight(c, w) <==> ShortValues(w.plain) && AllFindable(c, w.keys.idx, w.tables, w.plain)
    ensures SourcesApart(c, w) ==> (ExactRight(c, w) <==> ShortValues(w.plain) && NothingBroken(w))
  {
    RowsOfInv(c, kek, w);
    SoundIffRead(c, kek, w);
    ExactUnderInv(c, kek, w);
    FuzzyUnderInv(c, kek, w);
    IntactIffNothingBroken(c, kek, w);
  }

  // ---- Smooth runs ----

  ghost predicate AllSmooth(c: Crypto, kek: Bytes, w: World, es: seq<Event>) {
    es == [] || (AllSmooth(c, kek, w, es[..|es| - 1]) && Smooth(c, Run(c, kek, w, es[..|es| - 1]), es[|es| - 1]))
  }

  lemma {:induction false} SmoothIsPossible(c: Crypto, kek: Bytes, w: World, es: seq<Event>)
    requires AllSmooth(c, kek, w, es)
    ensures AllPossible(c, kek, w, es)
  {
    if es != [] {
      SmoothIsPossible(c, kek, w, es[..|es| - 1]);
    }
  }

  lemma SmoothMarks(c: Crypto, kek: Bytes, w: World, e: Event)
    requires Inv(c, kek, w) && Steady(c, kek, w) && w.marks == NO_MARKS && Smooth(c, w, e)
    ensures Next(c, kek, w, e).marks == NO_MARKS
  {
    match e
    case Insert(data, ivs, _) => WritesInStep(c, kek, w, w.nextId, data, ivs, true);
    case Update(id, data, ivs, _) => WritesInStep(c, kek, w, id, data, ivs, true);
    case Delete(id, _) => assert NO_MARKS.Clear(id) == NO_MARKS;
    case RebuildDone(code, lo, hi) => SafeRebuildMarks(c, kek, w, code, lo, hi);
    case Restart => SteadyRestartLosesNothing(c, kek, w);
    case Rotate(_, _, _) =>
    case RotateAll(_, _, _, _) =>
    case RotateFailed(_, _) =>
    case RotateAllFailed(_, _, _, _, _) =>
  }

  lemma SafeRebuildMarks(c: Crypto, kek: Bytes, w: World, code: int, lo: int, hi: int)
    requires w.marks == NO_MARKS && WrongFields(c, JobOf(w, code, lo, hi), w.tables.main, w.plain) == {}
    ensures Next(c, kek, w, RebuildDone(code, lo, hi)).marks == NO_MARKS
  {
  }

  lemma {:induction false} SmoothRun(c: Crypto, kek: Bytes, w0: World, es: seq<Event>)
    requires Inv(c, kek, w0) && Steady(c, kek, w0) && w0.marks == NO_MARKS
    requires AllPossible(c, kek, w0, es) && AllSmooth(c, kek, w0, es) && MenuFailuresOnly(es)
    ensures Run(c, kek, w0, es).marks == NO_MARKS
    decreases |es|
  {
    if es != [] {
      if Ended(es[..|es| - 1]) {
        BeforeFailure(c, kek, w0, es);
        SmoothBefore(c, kek, w0, es);
        SmoothRun(c, kek, w0, es[..|es| - 2]);
        FailureLeavesUnmarked(c, kek, w0, es);
      } else {
        MenuFailuresPrefix(es, |es| - 1);
        SmoothRun(c, kek, w0, es[..|es| - 1]);
        StepLeavesUnmarked(c, kek, w0, es);
      }
    }
  }

  lemma SmoothBefore(c: Crypto, kek: Bytes, w0: World, es: seq<Event>)
    requires AllSmooth(c, kek, w0, es) && |es| >= 2
    ensures AllSmooth(c, kek, w0, es[..|es| - 2])
  {
    assert es[..|es| - 1][..|es| - 2] == es[..|es| - 2];
  }

  lemma FailureLeavesUnmarked(c: Crypto, kek: Bytes, w0: World, es: seq<Event>)
    requires Inv(c, kek, w0) && Steady(c, kek, w0) && AllPossible(c, kek, w0, es) && MenuFailuresOnly(es)
    requires |es| >= 2 && Ended(es[..|es| - 1]) && Run(c, kek, w0, es[..|es| - 2]).marks == NO_MARKS
    ensures Run(c, kek, w0, es).marks == NO_MARKS
  {
    BeforeFailure(c, kek, w0, es);
    MenuRunIsSteady(c, kek, w0, es[..|es| - 2]);
    RestartAfterFailure(c, kek, Run(c, kek, w0, es[..|es| - 2]), es[|es| - 2]);
  }

  lemma StepLeavesUnmarked(c: Crypto, kek: Bytes, w0: World, es: seq<Event>)
    requires Inv(c, kek, w0) && Steady(c, kek, w0) && AllPossible(c, kek, w0, es) && MenuFailuresOnly(es)
    requires es != [] && !Ended(es[..|es| - 1]) && Run(c, kek, w0, es[..|es| - 1]).marks == NO_MARKS
    requires Smooth(c, Run(c, kek, w0, es[..|es| - 1]), es[|es| - 1])
    ensures Run(c, kek, w0, es).marks == NO_MARKS
  {
    MenuFailuresPrefix(es, |es| - 1);
    RunKeepsInv(c, kek, w0, es[..|es| - 1]);
    MenuRunIsSteady(c, kek, w0, es[..|es| - 1]);
    SmoothMarks(c, kek, Run(c, kek, w0, es[..|es| - 1]), es[|es| - 1]);
  }

  // In runs whose writes succeed and whose rebuilds finish and are safe, both searches are the
  // scan exactly when no value exceeds 2031 bytes; rotations of the menu may fail.
  lemma SearchInSmoothRuns(c: Crypto, kek: Bytes, w0: World, es: seq<Event>)
    requires Inv(c, kek, w0) && Steady(c, kek, w0) && w0.marks == NO_MARKS
    requires AllSmooth(c, kek, w0, es) && MenuFailuresOnly(es)
    ensures
      var w := Run(c, kek, w0, es);
      && w.tables.main.Keys == w.plain.Keys
      && (ExactRight(c, w) <==> ShortValues(w.plain)) && (FuzzyRight(c, w) <==> ShortValues(w.plain))
  {
    SmoothIsPossible(c, kek, w0, es);
    RunKeepsInv(c, kek, w0, es);
    SmoothRun(c, kek, w0, es);
    SearchUnmarked(c, kek, Run(c, kek, w0, es));
  }

  lemma SearchUnmarked(c: Crypto, kek: Bytes, w: World)
    requires Inv(c, kek, w) && w.marks == NO_MARKS
    ensures w.tables.main.Keys == w.plain.Keys
    ensures (ExactRight(c, w) <==> ShortValues(w.plain)) && (FuzzyRight(c, w) <==> ShortValues(w.plain))
  {
    SearchUnderSoundKeys(c, kek, w);
    FuzzyUnderInv(c, kek, w);
    forall id, f: Field | id in w.tables.main ensures BlindKnown(c, w.keys.idx, w.tables.main[id], w.plain[id], f) {
      FieldOfInv(c, kek, w, id, f);
    }
  }

  // ---- The key history ----

  lemma {:induction false} MenuRunExtends(c: Crypto, kek: Bytes, w0: World, es: seq<Event>, n: nat, t: KeyType)
    requires Inv(c, kek, w0) && Steady(c, kek, w0) && AllPossible(c, kek, w0, es) && MenuFailuresOnly(es)
    requires n <= |es| && !Ended(es) && !Ended(es[..n])
    ensures Extends(Run(c, kek, w0, es).keys.Get(t), Run(c, kek, w0, es[..n]).keys.Get(t))
    decreases |es|
  {
    if n == |es| {
      assert es[..n] == es;
    } else {
      var m := if Ended(es[..|es| - 1]) then |es| - 2 else |es| - 1;
      LastStepExtends(c, kek, w0, es, m, t);
      NotInBetween(es, n, m);
      MenuRunExtends(c, kek, w0, es[..m], n, t);
      ExtendsTransitive(Run(c, kek, w0, es[..n]).keys.Get(t), Run(c, kek, w0, es[..m]).keys.Get(t),
                        Run(c, kek, w0, es).keys.Get(t));
    }
  }

  lemma NotInBetween(es: seq<Event>, n: nat, m: int)
    requires n < |es| && !Ended(es[..n]) && m == (if Ended(es[..|es| - 1]) then |es| - 2 else |es| - 1) && m >= 0
    ensures n <= m && es[..m][..n] == es[..n]
  {
    assert n == |es| - 1 ==> es[..n] == es[..|es| - 1];
  }

  // From where the program ran last.
  lemma LastStepExtends(c: Crypto, kek: Bytes, w0: World, es: seq<Event>, m: int, t: KeyType)
    requires Inv(c, kek, w0) && Steady(c, kek, w0) && AllPossible(c, kek, w0, es) && MenuFailuresOnly(es)
    requires es != [] && !Ended(es) && m == if Ended(es[..|es| - 1]) then |es| - 2 else |es| - 1
    ensures m >= 0 && MenuFailuresOnly(es[..m]) && !Ended(es[..m]) && AllPossible(c, kek, w0, es[..m])
    ensures Extends(Run(c, kek, w0, es).keys.Get(t), Run(c, kek, w0, es[..m]).keys.Get(t))
  {
    if Ended(es[..|es| - 1]) {
      BeforeFailure(c, kek, w0, es);
      MenuRunIsSteady(c, kek, w0, es[..m]);
      RestartAfterFailure(c, kek, Run(c, kek, w0, es[..m]), es[|es| - 2]);
    } else {
      MenuFailuresPrefix(es, m);
      RunKeepsInv(c, kek, w0, es[..m]);
      MenuRunIsSteady(c, kek, w0, es[..m]);
      KeepsStepKeepsSteady(c, kek, Run(c, kek, w0, es[..m]), es[|es| - 1], t);
    }
  }

  // Over such runs, seen while the program runs, the history is append-only: versions 1 to
  // current, the current one enabled, and no version ever changes its key.
  lemma HistoryIsAppendOnly(c: Crypto, kek: Bytes, w0: World, es: seq<Event>, n: nat, t: KeyType)
    requires Inv(c, kek, w0) && Steady(c, kek, w0) && AllPossible(c, kek, w0, es) && MenuFailuresOnly(es)
    requires n <= |es| && !Ended(es) && !Ended(es[..n])
    ensures
      var before, now := Run(c, kek, w0, es[..n]).keys.Get(t), Run(c, kek, w0, es).keys.Get(t);
      Sequential(now) && Extends(now, before) && before.current <= now.current
  {
    MenuRunExtends(c, kek, w0, es, n, t);
    MenuRunIsSteady(c, kek, w0, es);
    MenuFailuresPrefix(es, n);
    AllPossiblePrefix(c, kek, w0, es, n);
    MenuRunIsSteady(c, kek, w0, es[..n]);
    var before := Run(c, kek, w0, es[..n]).keys.Get(t);
    assert Sequential(before) && before.current in before.infos;
  }
}
