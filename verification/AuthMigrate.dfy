/** Moving plaintext API keys from the config file into the secret store. */
module AuthMigrate {
  import opened Wrappers
  import opened Text
  import opened Providers

  /** The keys in config.toml: the root key, and one key per provider block. */
  datatype Config = Config(root: Option<string>, blocks: map<ProviderKind, string>) {
    function Block(p: ProviderKind): Option<string> { if p in blocks then Some(blocks[p]) else None }

    function Root(p: ProviderKind): Option<string> { if p == Deepseek then root else None }

    /** Clearing a provider's key also clears the root key for Deepseek. */
    function Cleared(p: ProviderKind): Config {
      Config(if p == Deepseek then None else root, blocks - {p})
    }

    /** Writing Deepseek's key also writes the root key. */
    function With(p: ProviderKind, key: string): Config {
      Config(if p == Deepseek then Some(key) else root, blocks[p := key])
    }
  }

  /** A credential slot, named by the provider whose id it carries; only the China endpoint borrows one. */
  function Slot(p: ProviderKind): ProviderKind { if p == SiliconflowCN then Siliconflow else p }

  type Secrets = map<ProviderKind, string>

  function Filled(key: Option<string>): Option<string> {
    if key.Some? && !Blank(key.value) then key else None
  }

  function Or(a: Option<string>, b: Option<string>): Option<string> { if a.Some? then a else b }

  /** `provider_config_api_key`: a blank block hides the root key. */
  function ConfigKey(c: Config, p: ProviderKind): Option<string> { Filled(Or(c.Block(p), c.Root(p))) }

  function Lookup(s: Secrets, slot: ProviderKind): Option<string> { if slot in s then Some(s[slot]) else None }

  function StoredKey(s: Secrets, p: ProviderKind): Option<string> { Filled(Lookup(s, Slot(p))) }

  /** The key a provider ends up with: config first, then the store. */
  function Effective(c: Config, s: Secrets, p: ProviderKind): Option<string> {
    Or(ConfigKey(c, p), StoredKey(s, p))
  }

  /** What the migration moves: blanks are dropped before the root key is considered. */
  function Value(c: Config, p: ProviderKind): Option<string> { Or(Filled(c.Block(p)), Filled(c.Root(p))) }

  /** Which reads and writes of the store work, by the provider they are made for. */
  datatype Faults = Faults(getWorks: ProviderKind -> bool, setWorks: ProviderKind -> bool)

  datatype State = State(config: Config, secrets: Secrets, migrated: seq<ProviderKind>, warned: seq<ProviderKind>)

  function Step(f: Faults, dryRun: bool, st: State, p: ProviderKind): State {
    match Value(st.config, p)
    case None => st
    case Some(value) =>
      var present := f.getWorks(p) && Lookup(st.secrets, Slot(p)) == Some(value);
      if !present && dryRun then st.(migrated := st.migrated + [p])
      else if !present && !f.setWorks(p) then st.(warned := st.warned + [p])
      else
        st.(secrets := if present then st.secrets else st.secrets[Slot(p) := value],
            config := if dryRun then st.config else st.config.Cleared(p),
            migrated := st.migrated + [p])
  }

  function Steps(f: Faults, dryRun: bool, st: State, ps: seq<ProviderKind>): State
    decreases |ps|
  {
    if ps == [] then st else Steps(f, dryRun, Step(f, dryRun, st, ps[0]), ps[1..])
  }

  function Migrated(f: Faults, dryRun: bool, c: Config, s: Secrets): State {
    Steps(f, dryRun, State(c, s, [], []), All())
  }

  /** Both stores as they are right after an effect of the run. */
  datatype Point = Point(config: Config, secrets: Secrets)

  /** The effects of one provider's turn, in order: its store write, then the strip of its config keys. */
  function PointsOf(f: Faults, dryRun: bool, st: State, p: ProviderKind): seq<Point> {
    match Value(st.config, p)
    case None => []
    case Some(value) =>
      if dryRun then []
      else if f.getWorks(p) && Lookup(st.secrets, Slot(p)) == Some(value) then [Point(st.config.Cleared(p), st.secrets)]
      else if !f.setWorks(p) then []
      else
        var written := st.secrets[Slot(p) := value];
        [Point(st.config, written), Point(st.config.Cleared(p), written)]
  }

  function Trace(f: Faults, dryRun: bool, st: State, ps: seq<ProviderKind>): seq<Point>
    decreases |ps|
  {
    if ps == [] then [] else PointsOf(f, dryRun, st, ps[0]) + Trace(f, dryRun, Step(f, dryRun, st, ps[0]), ps[1..])
  }

  class SecretStore {
    var entries: Secrets
    const faults: Faults

    constructor (entries: Secrets, faults: Faults)
      ensures this.entries == entries && this.faults == faults
    {
      this.entries, this.faults := entries, faults;
    }

    /** The outer option is the read's success. */
    method Read(p: ProviderKind) returns (r: Option<Option<string>>)
      ensures r == if !faults.getWorks(p) then None else Some(Lookup(entries, Slot(p)))
    {
      if !faults.getWorks(p) { return None; }
      r := Some(Lookup(entries, Slot(p)));
    }

    method Write(p: ProviderKind, value: string) returns (ok: bool)
      modifies this
      ensures ok == faults.setWorks(p)
      ensures entries == if ok then old(entries)[Slot(p) := value] else old(entries)
    {
      ok := faults.setWorks(p);
      if ok { entries := entries[Slot(p) := value]; }
    }
  }

  /** The config in memory and the file it was loaded from. */
  class ConfigStore {
    var config: Config
    var file: Config

    constructor (file: Config)
      ensures this.config == file && this.file == file
    {
      this.config, this.file := file, file;
    }

    method ClearKey(p: ProviderKind)
      modifies this`config
      ensures config == old(config).Cleared(p)
    {
      config := config.(blocks := config.blocks - {p});
      if p == Deepseek { config := config.(root := None); }
    }

    method WriteKey(p: ProviderKind, key: string)
      modifies this`config
      ensures config == old(config).With(p, key)
    {
      config := config.(blocks := config.blocks[p := key]);
      if p == Deepseek { config := config.(root := Some(key)); }
    }

    method Save(works: bool) returns (ok: bool)
      modifies this`file
      ensures ok == works && file == if ok then config else old(file)
    {
      ok := works;
      if ok { file := config; }
    }
  }

  /** `trace` has a point for every effect on either store; the file is written after all of them. */
  method RunAuthMigrate(store: ConfigStore, secrets: SecretStore, dryRun: bool, saveWorks: bool)
    returns (ok: bool, migrated: seq<ProviderKind>, warnings: seq<ProviderKind>, ghost trace: seq<Point>)
    modifies store, secrets
    ensures State(store.config, secrets.entries, migrated, warnings)
         == Migrated(secrets.faults, dryRun, old(store.config), old(secrets.entries))
    ensures trace == Trace(secrets.faults, dryRun, State(old(store.config), old(secrets.entries), [], []), All())
    ensures store.file == if !dryRun && migrated != [] && saveWorks then store.config else old(store.file)
    ensures ok <==> dryRun || migrated == [] || saveWorks
  {
    migrated, warnings, trace := MigrateEach(store, secrets, dryRun, All());
    ok := true;
    if !dryRun && migrated != [] { ok := store.Save(saveWorks); }
  }

  /** The loop over the providers. */
  method MigrateEach(store: ConfigStore, secrets: SecretStore, dryRun: bool, providers: seq<ProviderKind>)
    returns (migrated: seq<ProviderKind>, warnings: seq<ProviderKind>, ghost trace: seq<Point>)
    modifies store`config, secrets
    ensures State(store.config, secrets.entries, migrated, warnings)
         == Steps(secrets.faults, dryRun, State(old(store.config), old(secrets.entries), [], []), providers)
    ensures trace == Trace(secrets.faults, dryRun, State(old(store.config), old(secrets.entries), [], []), providers)
  {
    migrated, warnings, trace := [], [], [];
    ghost var start := State(store.config, secrets.entries, [], []);
    ghost var goal := Steps(secrets.faults, dryRun, start, providers);
    ghost var whole := Trace(secrets.faults, dryRun, start, providers);
    assert [] + whole == whole;
    for i := 0 to |providers|
      invariant var now := State(store.config, secrets.entries, migrated, warnings);
                Steps(secrets.faults, dryRun, now, providers[i..]) == goal
                && trace + Trace(secrets.faults, dryRun, now, providers[i..]) == whole
    {
      ghost var now := State(store.config, secrets.entries, migrated, warnings);
      assert providers[i..][0] == providers[i] && providers[i..][1..] == providers[i + 1..];
      ghost var points;
      migrated, warnings, points := MigrateProvider(store, secrets, dryRun, providers[i], migrated, warnings);
      ghost var next := Step(secrets.faults, dryRun, now, providers[i]);
      Regroup(trace, points, Trace(secrets.faults, dryRun, next, providers[i + 1..]));
      trace := trace + points;
    }
    assert trace + [] == trace;
  }

  lemma Regroup(a: seq<Point>, b: seq<Point>, c: seq<Point>)
    ensures a + (b + c) == (a + b) + c
  {
  }

  /** `points` records both stores after the write and after the strip. */
  method MigrateProvider(store: ConfigStore, secrets: SecretStore, dryRun: bool, p: ProviderKind,
                         migrated0: seq<ProviderKind>, warnings0: seq<ProviderKind>)
    returns (migrated: seq<ProviderKind>, warnings: seq<ProviderKind>, ghost points: seq<Point>)
    modifies store`config, secrets
    ensures State(store.config, secrets.entries, migrated, warnings)
         == Step(secrets.faults, dryRun, old(State(store.config, secrets.entries, migrated0, warnings0)), p)
    ensures points
         == PointsOf(secrets.faults, dryRun, old(State(store.config, secrets.entries, migrated0, warnings0)), p)
  {
    migrated, warnings, points := migrated0, warnings0, [];
    ghost var st := State(store.config, secrets.entries, migrated0, warnings0);
    var fromBlock := Filled(store.config.Block(p));
    var fromRoot := Filled(store.config.Root(p));
    var value := Or(fromBlock, fromRoot);
    assert value == Value(st.config, p);
    if value.None? { return; }
    var existing := secrets.Read(p);
    var present := existing == Some(Some(value.value));
    if !present && dryRun {
      migrated := migrated + [p];
      return;
    }
    if !present {
      var written := secrets.Write(p, value.value);
      if !written {
        warnings := warnings + [p];
        return;
      }
      points := points + [Point(store.config, secrets.entries)];
    }
    if !dryRun {
      store.ClearKey(p);
      points := points + [Point(store.config, secrets.entries)];
    }
    migrated := migrated + [p];
  }

  // ---- Keys survive, whatever fails.

  /** A blank provider block in front of a root key: the lookup sees nothing, the migration sees the root key. */
  predicate Hidden(c: Config, p: ProviderKind) {
    c.Block(p).Some? && Blank(c.Block(p).value) && Filled(c.Root(p)).Some?
  }

  predicate Unshared(p: ProviderKind) { forall q :: q != p ==> Slot(q) != Slot(p) }

  lemma ValueIsLookup(c: Config, p: ProviderKind)
    ensures !Hidden(c, p) ==> Value(c, p) == ConfigKey(c, p)
    ensures Hidden(c, p) ==> Value(c, p) == Filled(c.Root(p)) && ConfigKey(c, p) == None
    ensures Filled(Value(c, p)) == Value(c, p)
  {
  }

  /** A step clears at most the provider's own key, and writes at most its own slot. */
  lemma StepShape(f: Faults, dryRun: bool, st: State, q: ProviderKind) returns (value: string)
    ensures var next := Step(f, dryRun, st, q);
            && (next.config == st.config || next.config == st.config.Cleared(q))
            && (next.secrets == st.secrets || next.secrets == st.secrets[Slot(q) := value])
  {
    var v := Value(st.config, q);
    value := if v.Some? then v.value else "";
  }

  lemma ClearedElsewhere(c: Config, q: ProviderKind, p: ProviderKind)
    requires p != q
    ensures c.Cleared(q).Block(p) == c.Block(p) && c.Cleared(q).Root(p) == c.Root(p)
  {
  }

  lemma WithShape(c: Config, p: ProviderKind, key: string)
    ensures c.With(p, key).Block(p) == Some(key)
    ensures c.With(p, key).Root(p) == if p == Deepseek then Some(key) else None
    ensures c.Cleared(p).Block(p) == None && c.Cleared(p).Root(p) == None
    ensures c.With(p, key).Cleared(p) == c.Cleared(p)
  {
    assert c.blocks[p := key] - {p} == c.blocks - {p};
  }

  lemma WithElsewhere(c: Config, p: ProviderKind, key: string, q: ProviderKind)
    requires q != p
    ensures c.With(p, key).Block(q) == c.Block(q) && c.With(p, key).Root(q) == c.Root(q)
  {
  }

  /** A written key is the one looked up and the one migrated; clearing undoes writing. */
  lemma WriteClearExact(c: Config, p: ProviderKind, key: string)
    ensures ConfigKey(c.With(p, key), p) == Filled(Some(key)) == Value(c.With(p, key), p)
    ensures c.With(p, key).Cleared(p) == c.Cleared(p) && ConfigKey(c.Cleared(p), p).None?
  {
    WithShape(c, p, key);
  }

  /** Writing or clearing one provider's key leaves every other provider's key alone. */
  lemma WriteClearElsewhere(c: Config, p: ProviderKind, key: string, q: ProviderKind)
    requires q != p
    ensures ConfigKey(c.With(p, key), q) == ConfigKey(c, q) == ConfigKey(c.Cleared(p), q)
  {
    WithElsewhere(c, p, key, q);
    ClearedElsewhere(c, p, q);
  }

  lemma WrittenElsewhere(s: Secrets, slot: ProviderKind, value: string, other: ProviderKind)
    requires slot != other
    ensures Lookup(s[slot := value], other) == Lookup(s, other)
  {
  }

  /** A step for one provider leaves the config of another alone. */
  lemma StepElsewhere(f: Faults, dryRun: bool, st: State, q: ProviderKind, p: ProviderKind)
    requires p != q
    ensures var c := Step(f, dryRun, st, q).config; c.Block(p) == st.config.Block(p) && c.Root(p) == st.config.Root(p)
    ensures Slot(p) != Slot(q) ==> Lookup(Step(f, dryRun, st, q).secrets, Slot(p)) == Lookup(st.secrets, Slot(p))
  {
    var value := StepShape(f, dryRun, st, q);
    ClearedElsewhere(st.config, q, p);
    if Slot(p) != Slot(q) { WrittenElsewhere(st.secrets, Slot(q), value, Slot(p)); }
  }

  /** The file still has the key, or the step has nothing to move. */
  predicate FileCovers(file: Config, c: Config, p: ProviderKind) { ConfigKey(file, p).Some? || Value(c, p).None? }

  lemma StepKeeps(f: Faults, dryRun: bool, st: State, q: ProviderKind, p: ProviderKind, file: Config)
    requires Unshared(p) && !Hidden(st.config, p) && FileCovers(file, st.config, p)
    ensures var next := Step(f, dryRun, st, q);
            && !Hidden(next.config, p) && FileCovers(file, next.config, p)
            && Effective(next.config, next.secrets, p) == Effective(st.config, st.secrets, p)
            && Effective(file, next.secrets, p) == Effective(file, st.secrets, p)
  {
    ValueIsLookup(st.config, p);
    if p != q {
      StepElsewhere(f, dryRun, st, q, p);
    } else {
      var next := Step(f, dryRun, st, p);
      if next.config != st.config {
        assert next.config.Block(p) == None && next.config.Root(p) == None;
        assert StoredKey(next.secrets, p) == Value(st.config, p);
      }
    }
  }

  lemma {:induction false} StepsKeep(f: Faults, dryRun: bool, st: State, ps: seq<ProviderKind>, p: ProviderKind,
                                     file: Config)
    requires Unshared(p) && !Hidden(st.config, p) && FileCovers(file, st.config, p)
    ensures var last := Steps(f, dryRun, st, ps);
            && Effective(last.config, last.secrets, p) == Effective(st.config, st.secrets, p)
            && Effective(file, last.secrets, p) == Effective(file, st.secrets, p)
    decreases |ps|
  {
    if ps != [] {
      StepKeeps(f, dryRun, st, ps[0], p, file);
      StepsKeep(f, dryRun, Step(f, dryRun, st, ps[0]), ps[1..], p, file);
    }
  }

  /**
   * At every point of a run, with whatever reads and writes failing, a provider with a slot of its
   * own keeps its key, both for this process and for one that starts over from the unsaved file.
   */
  lemma CredentialsSurvive(f: Faults, dryRun: bool, c: Config, s: Secrets, done: nat, p: ProviderKind)
    requires done <= |All()| && Unshared(p) && !Hidden(c, p)
    ensures var st := Steps(f, dryRun, State(c, s, [], []), All()[..done]);
            && Effective(st.config, st.secrets, p) == Effective(c, s, p)
            && Effective(c, st.secrets, p) == Effective(c, s, p)
  {
    ValueIsLookup(c, p);
    StepsKeep(f, dryRun, State(c, s, [], []), All()[..done], p, c);
  }

  /** A key leaves the config only when the store already holds it. */
  lemma WriteBeforeStrip(f: Faults, dryRun: bool, st: State, p: ProviderKind, i: nat)
    requires i < |PointsOf(f, dryRun, st, p)|
    ensures var pt := PointsOf(f, dryRun, st, p)[i];
            var before := if i == 0 then Point(st.config, st.secrets) else PointsOf(f, dryRun, st, p)[i - 1];
            pt.config != before.config ==>
              pt.config == st.config.Cleared(p) && pt.secrets == before.secrets
              && Lookup(before.secrets, Slot(p)) == Value(st.config, p)
  {
  }

  /** Effective keys at one point, for this process and for one that starts over from the file. */
  predicate KeptAt(pt: Point, file: Config, p: ProviderKind, key: Option<string>) {
    Effective(pt.config, pt.secrets, p) == key && Effective(file, pt.secrets, p) == key
  }

  /** Between the write and the strip, the config still shows the key. */
  lemma WrittenKeeps(c: Config, s: Secrets, file: Config, q: ProviderKind, value: string, p: ProviderKind)
    requires Unshared(p) && Value(c, q) == Some(value) && !Hidden(c, p) && FileCovers(file, c, p)
    ensures Effective(c, s[Slot(q) := value], p) == Effective(c, s, p)
    ensures Effective(file, s[Slot(q) := value], p) == Effective(file, s, p)
  {
    ValueIsLookup(c, p);
    if p != q { WrittenElsewhere(s, Slot(q), value, Slot(p)); }
  }

  lemma PointsKeep(f: Faults, dryRun: bool, st: State, q: ProviderKind, p: ProviderKind, file: Config, i: nat)
    requires Unshared(p) && !Hidden(st.config, p) && FileCovers(file, st.config, p)
    requires Effective(file, st.secrets, p) == Effective(st.config, st.secrets, p)
    requires i < |PointsOf(f, dryRun, st, q)|
    ensures KeptAt(PointsOf(f, dryRun, st, q)[i], file, p, Effective(st.config, st.secrets, p))
  {
    var (points, next) := (PointsOf(f, dryRun, st, q), Step(f, dryRun, st, q));
    if i == |points| - 1 {
      assert points[i] == Point(next.config, next.secrets);
      StepKeeps(f, dryRun, st, q, p, file);
    } else {
      WrittenKeeps(st.config, st.secrets, file, q, Value(st.config, q).value, p);
    }
  }

  lemma {:induction false} TraceKeeps(f: Faults, dryRun: bool, st: State, ps: seq<ProviderKind>, p: ProviderKind,
                                      file: Config, i: nat)
    requires Unshared(p) && !Hidden(st.config, p) && FileCovers(file, st.config, p)
    requires Effective(file, st.secrets, p) == Effective(st.config, st.secrets, p)
    requires i < |Trace(f, dryRun, st, ps)|
    ensures KeptAt(Trace(f, dryRun, st, ps)[i], file, p, Effective(st.config, st.secrets, p))
    decreases |ps|
  {
    var points := PointsOf(f, dryRun, st, ps[0]);
    if i < |points| {
      PointsKeep(f, dryRun, st, ps[0], p, file, i);
    } else {
      StepKeeps(f, dryRun, st, ps[0], p, file);
      TraceKeeps(f, dryRun, Step(f, dryRun, st, ps[0]), ps[1..], p, file, i - |points|);
    }
  }

  /** The same after every single effect of a run, also between a provider's write and its strip. */
  lemma EveryEffectSurvives(f: Faults, dryRun: bool, c: Config, s: Secrets, p: ProviderKind)
    requires Unshared(p) && !Hidden(c, p)
    ensures var trace := Trace(f, dryRun, State(c, s, [], []), All());
            forall i :: 0 <= i < |trace| ==> KeptAt(trace[i], c, p, Effective(c, s, p))
  {
    ValueIsLookup(c, p);
    forall i: nat | i < |Trace(f, dryRun, State(c, s, [], []), All())|
      ensures KeptAt(Trace(f, dryRun, State(c, s, [], []), All())[i], c, p, Effective(c, s, p))
    {
      TraceKeeps(f, dryRun, State(c, s, [], []), All(), p, c, i);
    }
  }

  /** Hidden keys exist: the lookup finds nothing, and the migration would move the root key. */
  lemma HiddenExample()
    ensures var c := Config(Some("k"), map[Deepseek := " "]);
            Hidden(c, Deepseek) && ConfigKey(c, Deepseek) == None && Value(c, Deepseek) == Some("k")
  {
    assert " "[1..] == "";
    ValueIsLookup(Config(Some("k"), map[Deepseek := " "]), Deepseek);
  }

  // ---- Whom a run reports, whatever fails.

  /** The keys themselves: a block that is not blank, else Deepseek's root key when it is not blank. */
  lemma ValueExact(c: Config, p: ProviderKind)
    ensures p in c.blocks && !Blank(c.blocks[p]) ==> Value(c, p) == Some(c.blocks[p])
    ensures !(p in c.blocks && !Blank(c.blocks[p])) ==>
              Value(c, p) == if p == Deepseek && c.root.Some? && !Blank(c.root.value) then c.root else None
    ensures p in c.blocks ==> ConfigKey(c, p) == if Blank(c.blocks[p]) then None else Some(c.blocks[p])
    ensures p !in c.blocks ==> ConfigKey(c, p) == Value(c, p)
  {
  }

  /** No trace of the provider's key, in its block or at the root. */
  predicate NoEntry(c: Config, p: ProviderKind) { p !in c.blocks && (p == Deepseek ==> c.root.None?) }

  predicate SameEntry(c: Config, d: Config, p: ProviderKind) {
    c.Block(p) == d.Block(p) && (p == Deepseek ==> c.root == d.root)
  }

  /** Nothing to move and no report, or moved and stripped, or warned about and left in the config. */
  predicate ReportedAt(st: State, c: Config, p: ProviderKind, works: bool) {
    if Value(c, p).None? then p !in st.migrated && p !in st.warned && SameEntry(st.config, c, p)
    else if works then p in st.migrated && p !in st.warned && NoEntry(st.config, p)
    else p !in st.migrated && p in st.warned && SameEntry(st.config, c, p)
  }

  lemma StepApart(f: Faults, dryRun: bool, st: State, q: ProviderKind, p: ProviderKind)
    requires p != q
    ensures var next := Step(f, dryRun, st, q);
            && SameEntry(next.config, st.config, p)
            && (p in next.migrated <==> p in st.migrated) && (p in next.warned <==> p in st.warned)
  {
    StepElsewhere(f, dryRun, st, q, p);
  }

  lemma {:induction false} StepsElsewhere(f: Faults, dryRun: bool, st: State, ps: seq<ProviderKind>, p: ProviderKind)
    requires p !in ps
    ensures var last := Steps(f, dryRun, st, ps);
            && SameEntry(last.config, st.config, p)
            && (p in last.migrated <==> p in st.migrated) && (p in last.warned <==> p in st.warned)
    decreases |ps|
  {
    if ps != [] {
      StepApart(f, dryRun, st, ps[0], p);
      StepsElsewhere(f, dryRun, Step(f, dryRun, st, ps[0]), ps[1..], p);
    }
  }

  /** The write works, or the store is read and already holds the key. */
  predicate Lands(f: Faults, s: Secrets, c: Config, p: ProviderKind) {
    f.setWorks(p) || (f.getWorks(p) && Lookup(s, Slot(p)) == Value(c, p))
  }

  lemma StepReports(f: Faults, st: State, p: ProviderKind)
    requires p !in st.migrated && p !in st.warned
    ensures ReportedAt(Step(f, false, st, p), st.config, p, Lands(f, st.secrets, st.config, p))
  {
  }

  lemma {:induction false} StepsReport(f: Faults, st: State, ps: seq<ProviderKind>, k: nat)
    requires Distinct(ps) && k < |ps| && ps[k] !in st.migrated && ps[k] !in st.warned
    ensures ReportedAt(Steps(f, false, st, ps), st.config, ps[k],
                       Lands(f, Steps(f, false, st, ps[..k]).secrets, st.config, ps[k]))
    decreases |ps|
  {
    var p, next := ps[k], Step(f, false, st, ps[0]);
    if k == 0 {
      StepReports(f, st, p);
      StepsElsewhere(f, false, next, ps[1..], p);
    } else {
      StepElsewhere(f, false, st, ps[0], p);
      StepsReport(f, next, ps[1..], k - 1);
      assert ps[..k][1..] == ps[1..][..k - 1];
    }
  }

  /**
   * A provider with a key to move is migrated or warned about, never both: migrated, with no entry left in the
   * config, exactly when at its turn the write works or the store is seen to hold the key already; warned
   * about, with its entry as it was, otherwise. A provider without such a key is not reported.
   */
  lemma RunReports(f: Faults, c: Config, s: Secrets, p: ProviderKind)
    ensures var (st, turn) := (Migrated(f, false, c, s), Steps(f, false, State(c, s, [], []), All()[..Rank(p)]));
            ReportedAt(st, c, p, f.setWorks(p) || (f.getWorks(p) && Lookup(turn.secrets, Slot(p)) == Value(c, p)))
  {
    AllListsEach();
    NthOfRank(p);
    StepsReport(f, State(c, s, [], []), All(), Rank(p));
  }

  /** Seen from the lists: no migrated provider keeps an entry; each warned one has its key, and its write failed. */
  lemma ReportsHold(f: Faults, c: Config, s: Secrets, p: ProviderKind)
    ensures var st := Migrated(f, false, c, s);
            && (p in st.migrated ==> Value(c, p).Some? && p !in st.warned && NoEntry(st.config, p))
            && (p in st.warned ==> Value(c, p).Some? && !f.setWorks(p) && SameEntry(st.config, c, p))
            && (Value(c, p).Some? ==> p in st.migrated || p in st.warned)
  {
    RunReports(f, c, s, p);
  }

  /** Providers in the canonical order, all before position `k`, none twice. */
  predicate Ordered(ps: seq<ProviderKind>, k: nat) {
    (forall i, j :: 0 <= i < j < |ps| ==> Rank(ps[i]) < Rank(ps[j])) && forall i :: 0 <= i < |ps| ==> Rank(ps[i]) < k
  }

  lemma {:induction false} StepsOrdered(f: Faults, dryRun: bool, st: State, k: nat)
    requires k <= 30 && Ordered(st.migrated, k) && Ordered(st.warned, k)
    ensures var last := Steps(f, dryRun, st, All()[k..]); Ordered(last.migrated, 30) && Ordered(last.warned, 30)
    decreases 30 - k
  {
    if k < 30 {
      RankOfNth(k);
      assert All()[k..][0] == Nth(k) && All()[k..][1..] == All()[k + 1..];
      StepsOrdered(f, dryRun, Step(f, dryRun, st, Nth(k)), k + 1);
    }
  }

  /** Both lists of a run are in the canonical order, without repetition. */
  lemma ReportsOrdered(f: Faults, dryRun: bool, c: Config, s: Secrets)
    ensures Ordered(Migrated(f, dryRun, c, s).migrated, 30) && Ordered(Migrated(f, dryRun, c, s).warned, 30)
  {
    StepsOrdered(f, dryRun, State(c, s, [], []), 0);
    assert All()[0..] == All();
  }

  // ---- A run in which every write works.

  predicate WritesWork(f: Faults) { forall p :: f.setWorks(p) }

  /** The key that the last provider with a slot moves into it. */
  function LastValue(c: Config, ps: seq<ProviderKind>, slot: ProviderKind): Option<string> {
    if ps == [] then None
    else
      var p := ps[|ps| - 1];
      if Slot(p) == slot && Value(c, p).Some? then Value(c, p) else LastValue(c, ps[..|ps| - 1], slot)
  }

  lemma {:induction false} StepsAppend(f: Faults, dryRun: bool, st: State, a: seq<ProviderKind>, p: ProviderKind)
    ensures Steps(f, dryRun, st, a + [p]) == Step(f, dryRun, Steps(f, dryRun, st, a), p)
    decreases |a|
  {
    if a == [] {
      assert a + [p] == [p] && [p][1..] == [];
    } else {
      assert (a + [p])[1..] == a[1..] + [p];
      StepsAppend(f, dryRun, Step(f, dryRun, st, a[0]), a[1..], p);
    }
  }

  predicate StrippedAt(st: State, c: Config, moved: bool, p: ProviderKind) {
    if moved && Value(c, p).Some? then st.config.Block(p) == None && st.config.Root(p) == None
    else st.config.Block(p) == c.Block(p) && st.config.Root(p) == c.Root(p)
  }

  /** After a working run over some providers: their keys are out of the config. */
  predicate Stripped(st: State, c: Config, ps: seq<ProviderKind>) {
    forall p :: StrippedAt(st, c, p in ps, p)
  }

  /** And each slot holds the last key moved into it, or what it held before. */
  predicate Stored(st: State, c: Config, s: Secrets, ps: seq<ProviderKind>) {
    forall slot :: Lookup(st.secrets, slot) == Or(LastValue(c, ps, slot), Lookup(s, slot))
  }

  lemma {:induction false} WorkingRun(f: Faults, c: Config, s: Secrets, ps: seq<ProviderKind>)
    requires WritesWork(f) && Distinct(ps)
    ensures Stripped(Steps(f, false, State(c, s, [], []), ps), c, ps)
    ensures Stored(Steps(f, false, State(c, s, [], []), ps), c, s, ps)
    decreases |ps|
  {
    if ps != [] {
      var a, p := ps[..|ps| - 1], ps[|ps| - 1];
      var st := Steps(f, false, State(c, s, [], []), a);
      WorkingRun(f, c, s, a);
      assert ps == a + [p];
      StepsAppend(f, false, State(c, s, [], []), a, p);
      StepStrips(f, st, c, a, p);
      StepStores(f, st, c, s, a, p);
    }
  }

  lemma StepStripsAt(f: Faults, st: State, c: Config, p: ProviderKind, moved: bool, q: ProviderKind)
    requires WritesWork(f) && StrippedAt(st, c, moved, q) && (q == p ==> !moved)
    ensures StrippedAt(Step(f, false, st, p), c, moved || q == p, q)
  {
    if q != p { StepElsewhere(f, false, st, p, q); }
  }

  lemma StepStrips(f: Faults, st: State, c: Config, a: seq<ProviderKind>, p: ProviderKind)
    requires WritesWork(f) && p !in a && Stripped(st, c, a)
    ensures Value(st.config, p) == Value(c, p)
    ensures Stripped(Step(f, false, st, p), c, a + [p])
  {
    assert StrippedAt(st, c, false, p);
    forall q ensures StrippedAt(Step(f, false, st, p), c, q in a + [p], q) {
      assert StrippedAt(st, c, q in a, q);
      StepStripsAt(f, st, c, p, q in a, q);
      assert q in a + [p] <==> q in a || q == p;
    }
  }

  lemma StepStores(f: Faults, st: State, c: Config, s: Secrets, a: seq<ProviderKind>, p: ProviderKind)
    requires WritesWork(f) && Value(st.config, p) == Value(c, p) && Stored(st, c, s, a)
    ensures Stored(Step(f, false, st, p), c, s, a + [p])
  {
    assert (a + [p])[..|a|] == a;
    var next := Step(f, false, st, p);
    forall slot ensures Lookup(next.secrets, slot) == Or(LastValue(c, a + [p], slot), Lookup(s, slot)) {
      assert Lookup(next.secrets, slot)
          == if slot == Slot(p) && Value(c, p).Some? then Value(c, p) else Lookup(st.secrets, slot);
    }
  }

  /** The last key moved into a slot is some sharer's. */
  lemma {:induction false} LastValueOwner(c: Config, ps: seq<ProviderKind>, slot: ProviderKind)
    returns (q: ProviderKind)
    ensures LastValue(c, ps, slot).Some? ==> q in ps && Slot(q) == slot && Value(c, q) == LastValue(c, ps, slot)
    ensures LastValue(c, ps, slot).None? ==> forall p :: p in ps && Slot(p) == slot ==> Value(c, p).None?
  {
    q := Deepseek;
    if ps != [] {
      var p := ps[|ps| - 1];
      if Slot(p) == slot && Value(c, p).Some? {
        q := p;
      } else {
        q := LastValueOwner(c, ps[..|ps| - 1], slot);
        assert ps == ps[..|ps| - 1] + [p];
      }
    }
  }

  /** A config whose keys for a provider are gone, or were none to begin with. */
  lemma NoKeyLeft(now: Config, c: Config, p: ProviderKind)
    requires if Value(c, p).Some? then now.Block(p) == None && now.Root(p) == None
             else now.Block(p) == c.Block(p) && now.Root(p) == c.Root(p)
    ensures Value(now, p).None? && ConfigKey(now, p).None?
  {
  }

  lemma FilledOr(a: Option<string>, b: Option<string>)
    requires Filled(a) == a
    ensures Filled(Or(a, b)) == Or(a, Filled(b))
  {
  }

  /** What a working run makes of one provider: the last key of its slot, or no change when none was moved. */
  lemma AfterWorkingRun(f: Faults, c: Config, s: Secrets, p: ProviderKind)
    requires WritesWork(f)
    ensures var st := Migrated(f, false, c, s);
            && Value(st.config, p).None? && ConfigKey(st.config, p).None?
            && Effective(st.config, st.secrets, p) == Or(LastValue(c, All(), Slot(p)), StoredKey(s, p))
  {
    AllListsEach();
    WorkingRun(f, c, s, All());
    AfterAll(Migrated(f, false, c, s), c, s, All(), p);
  }

  lemma AfterAll(st: State, c: Config, s: Secrets, ps: seq<ProviderKind>, p: ProviderKind)
    requires p in ps && Stripped(st, c, ps) && Stored(st, c, s, ps)
    ensures Value(st.config, p).None? && ConfigKey(st.config, p).None?
    ensures Effective(st.config, st.secrets, p) == Or(LastValue(c, ps, Slot(p)), StoredKey(s, p))
  {
    assert StrippedAt(st, c, true, p);
    NoKeyLeft(st.config, c, p);
    var last := LastValue(c, ps, Slot(p));
    var q := LastValueOwner(c, ps, Slot(p));
    ValueIsLookup(c, q);
    FilledOr(last, Lookup(s, Slot(p)));
  }

  /** Everyone whose slot receives a key already uses that key. */
  predicate SharersAgree(c: Config, s: Secrets) {
    forall p, q :: Slot(p) == Slot(q) && Value(c, q).Some? ==> Effective(c, s, p) == Value(c, q)
  }

  /** A working migration keeps every provider's key exactly when the sharers of each slot agreed beforehand. */
  lemma MigrationExact(f: Faults, c: Config, s: Secrets)
    requires WritesWork(f)
    ensures var st := Migrated(f, false, c, s);
            (forall p :: Effective(st.config, st.secrets, p) == Effective(c, s, p)) <==> SharersAgree(c, s)
  {
    var st := Migrated(f, false, c, s);
    AllListsEach();
    if SharersAgree(c, s) {
      forall p ensures Effective(st.config, st.secrets, p) == Effective(c, s, p) { KeepsWhenAgreed(f, c, s, p); }
    }
    if forall p :: Effective(st.config, st.secrets, p) == Effective(c, s, p) {
      forall p, q | Slot(p) == Slot(q) && Value(c, q).Some? ensures Effective(c, s, p) == Value(c, q) {
        AgreesWhenKept(f, c, s, p, q);
      }
    }
  }

  lemma KeepsWhenAgreed(f: Faults, c: Config, s: Secrets, p: ProviderKind)
    requires WritesWork(f) && SharersAgree(c, s)
    ensures Effective(Migrated(f, false, c, s).config, Migrated(f, false, c, s).secrets, p) == Effective(c, s, p)
  {
    AllListsEach();
    AfterWorkingRun(f, c, s, p);
    var q := LastValueOwner(c, All(), Slot(p));
    ValueIsLookup(c, p);
    assert p in All();
  }

  lemma AgreesWhenKept(f: Faults, c: Config, s: Secrets, p: ProviderKind, q: ProviderKind)
    requires WritesWork(f) && Slot(p) == Slot(q) && Value(c, q).Some?
    requires var st := Migrated(f, false, c, s);
             forall r :: Effective(st.config, st.secrets, r) == Effective(c, s, r)
    ensures Effective(c, s, p) == Value(c, q)
  {
    AllListsEach();
    AfterWorkingRun(f, c, s, p);
    AfterWorkingRun(f, c, s, q);
    var last := LastValueOwner(c, All(), Slot(p));
    ValueIsLookup(c, q);
    assert q in All();
    if Hidden(c, q) { assert q == Deepseek && last == q; }
  }

  /** The China endpoint and its sibling share a slot: with two different keys one of them is lost. */
  lemma SharedSlotLosesKey(f: Faults)
    requires WritesWork(f)
    ensures var c := Config(None, map[Siliconflow := "a", SiliconflowCN := "b"]);
            var st := Migrated(f, false, c, map[]);
            !SharersAgree(c, map[]) && exists p :: Effective(st.config, st.secrets, p) != Effective(c, map[], p)
  {
    var c := Config(None, map[Siliconflow := "a", SiliconflowCN := "b"]);
    assert TrimmedBy(IsWhitespace, "a") && TrimmedBy(IsWhitespace, "b");
    assert Value(c, SiliconflowCN) == Some("b") && Effective(c, map[], Siliconflow) == Some("a");
    assert Slot(Siliconflow) == Slot(SiliconflowCN) && "a" != "b";
    MigrationExact(f, c, map[]);
  }

  // ---- What the store holds after any run.

  lemma StepStored(f: Faults, st: State, c: Config, s: Secrets, p: ProviderKind)
    requires SameEntry(st.config, c, p) && Stored(st, c, s, st.migrated)
    ensures var next := Step(f, false, st, p); Stored(next, c, s, next.migrated)
  {
    var next := Step(f, false, st, p);
    if next.migrated != st.migrated {
      assert (st.migrated + [p])[..|st.migrated|] == st.migrated;
      forall slot ensures Lookup(next.secrets, slot) == Or(LastValue(c, next.migrated, slot), Lookup(s, slot)) {
        assert Lookup(next.secrets, slot) == if slot == Slot(p) then Value(c, p) else Lookup(st.secrets, slot);
      }
    }
  }

  lemma {:induction false} StepsStored(f: Faults, st: State, c: Config, s: Secrets, ps: seq<ProviderKind>)
    requires Distinct(ps) && Stored(st, c, s, st.migrated) && forall p :: p in ps ==> SameEntry(st.config, c, p)
    ensures var last := Steps(f, false, st, ps); Stored(last, c, s, last.migrated)
    decreases |ps|
  {
    if ps != [] {
      StepStored(f, st, c, s, ps[0]);
      forall p | p in ps[1..] ensures SameEntry(Step(f, false, st, ps[0]).config, c, p) {
        var i :| 0 <= i < |ps[1..]| && ps[1..][i] == p;
        assert ps[i + 1] == p && p in ps;
        StepApart(f, false, st, ps[0], p);
      }
      StepsStored(f, Step(f, false, st, ps[0]), c, s, ps[1..]);
    }
  }

  /** Whatever fails: a slot holds the key of the last provider migrated into it, else what it held before. */
  lemma StoreExact(f: Faults, c: Config, s: Secrets, slot: ProviderKind)
    ensures var st := Migrated(f, false, c, s);
            Lookup(st.secrets, slot) == Or(LastValue(c, st.migrated, slot), Lookup(s, slot))
  {
    AllListsEach();
    StepsStored(f, State(c, s, [], []), c, s, All());
  }

  // ---- Dry runs and second runs.

  /** A dry run changes nothing, and reports exactly what a run whose writes work migrates. */
  lemma {:induction false} DryRunReports(f: Faults, g: Faults, dry: State, wet: State, c: Config, ps: seq<ProviderKind>)
    requires WritesWork(g) && Distinct(ps) && dry.migrated == wet.migrated && dry.config == c
    requires forall p :: p in ps ==> wet.config.Block(p) == c.Block(p) && wet.config.Root(p) == c.Root(p)
    ensures var after := Steps(f, true, dry, ps);
            && after.config == dry.config && after.secrets == dry.secrets && after.warned == dry.warned
            && after.migrated == Steps(g, false, wet, ps).migrated
    decreases |ps|
  {
    if ps != [] {
      var p := ps[0];
      var next := Step(g, false, wet, p);
      forall q | q in ps[1..] ensures next.config.Block(q) == c.Block(q) && next.config.Root(q) == c.Root(q) {
        StepElsewhere(g, false, wet, p, q);
      }
      DryRunReports(f, g, Step(f, true, dry, p), next, c, ps[1..]);
    }
  }

  lemma DryRunExact(f: Faults, g: Faults, c: Config, s: Secrets)
    requires WritesWork(g)
    ensures var (dry, wet) := (Migrated(f, true, c, s), Migrated(g, false, c, s));
            dry.config == c && dry.secrets == s && dry.warned == [] && dry.migrated == wet.migrated
  {
    AllListsEach();
    DryRunReports(f, g, State(c, s, [], []), State(c, s, [], []), c, All());
  }

  lemma {:induction false} NothingToMove(f: Faults, dryRun: bool, st: State, ps: seq<ProviderKind>)
    requires forall p :: Value(st.config, p).None?
    ensures Steps(f, dryRun, st, ps) == st
    decreases |ps|
  {
    if ps != [] { NothingToMove(f, dryRun, st, ps[1..]); }
  }

  /** After a run whose writes all worked, a second run, working or not, moves and changes nothing. */
  lemma SecondRunIdle(f: Faults, g: Faults, c: Config, s: Secrets)
    requires WritesWork(f)
    ensures var first := Migrated(f, false, c, s);
            Migrated(g, false, first.config, first.secrets) == State(first.config, first.secrets, [], [])
  {
    var first := Migrated(f, false, c, s);
    forall p ensures Value(first.config, p).None? { AfterWorkingRun(f, c, s, p); }
    NothingToMove(g, false, State(first.config, first.secrets, [], []), All());
  }
}
