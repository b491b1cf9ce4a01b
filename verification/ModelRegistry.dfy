/** The model registry: an alias index over a list, and resolution with provider hints. */
module ModelRegistry {
  import opened Wrappers
  import opened Search
  import opened Text
  import opened Providers

  datatype ModelInfo = ModelInfo(
    id: string, provider: ProviderKind, aliases: seq<string>, supportsTools: bool, supportsReasoning: bool)

  /** The strategies tried, in order. */
  datatype Strategy = Requested(name: string) | ProviderDefault(provider: ProviderKind) | GlobalDefault

  datatype Resolution = Resolution(
    requested: Option<string>, resolved: ModelInfo, usedFallback: bool, fallbackChain: seq<Strategy>)

  function Norm(s: string): string { Lower(Trim(s)) }

  predicate ModelMatches(m: ModelInfo, requested: string) {
    var key := Norm(requested);
    Norm(m.id) == key || exists i :: 0 <= i < |m.aliases| && Norm(m.aliases[i]) == key
  }

  // ---- The index.

  function MapAll(f: string -> string, names: seq<string>): (ns: seq<string>)
    ensures |ns| == |names| && forall i :: 0 <= i < |names| ==> ns[i] == f(names[i])
  {
    if names == [] then [] else [f(names[0])] + MapAll(f, names[1..])
  }

  function AllNames(m: ModelInfo): seq<string> { [m.id] + m.aliases }

  /** All names of a model in normal form, its id first. */
  function Names(m: ModelInfo): seq<string> { MapAll(Norm, AllNames(m)) }

  predicate HasName(f: string -> string, m: ModelInfo, key: string) {
    f(m.id) == key || exists i :: 0 <= i < |m.aliases| && f(m.aliases[i]) == key
  }

  lemma HasNameAt(f: string -> string, m: ModelInfo, k: nat)
    requires k < |AllNames(m)|
    ensures HasName(f, m, f(AllNames(m)[k]))
  {
    if k > 0 { assert AllNames(m)[k] == m.aliases[k - 1]; }
  }

  lemma NameListed(f: string -> string, m: ModelInfo, key: string)
    ensures key in MapAll(f, AllNames(m)) <==> HasName(f, m, key)
  {
    var (raw, ns) := (AllNames(m), MapAll(f, AllNames(m)));
    forall k: nat | k < |ns| ensures HasName(f, m, ns[k]) { HasNameAt(f, m, k); }
    if HasName(f, m, key) {
      var k: nat := 0;
      if f(m.id) != key {
        var i :| 0 <= i < |m.aliases| && f(m.aliases[i]) == key;
        k := i + 1;
      }
      assert ns[k] == f(raw[k]) == key;
    }
  }

  /** A model has a name exactly when it matches it. */
  lemma NamesAreMatches(m: ModelInfo, requested: string)
    ensures Norm(requested) in Names(m) <==> ModelMatches(m, requested)
  {
    NameListed(Norm, m, Norm(requested));
  }

  /** A model with its names in normal form. */
  datatype Listing = Listing(info: ModelInfo, names: seq<string>)

  function Listings(models: seq<ModelInfo>): (ls: seq<Listing>)
    ensures |ls| == |models| && forall i :: 0 <= i < |ls| ==> ls[i] == Listing(models[i], Names(models[i]))
  {
    seq(|models|, i requires 0 <= i < |models| => Listing(models[i], Names(models[i])))
  }

  function OrInsert(index: map<string, nat>, name: string, i: nat): map<string, nat> {
    if name in index then index else index[name := i]
  }

  function InsertNames(index: map<string, nat>, names: seq<string>, i: nat): map<string, nat>
    decreases |names|
  {
    if names == [] then index else InsertNames(OrInsert(index, names[0], i), names[1..], i)
  }

  /** The index after the listings from `i` on. */
  function IndexFrom(index: map<string, nat>, ls: seq<Listing>, i: nat): map<string, nat>
    requires i <= |ls|
    decreases |ls| - i
  {
    if i == |ls| then index else IndexFrom(InsertNames(index, ls[i].names, i), ls, i + 1)
  }

  function AliasMap(ls: seq<Listing>): map<string, nat> { IndexFrom(map[], ls, 0) }

  lemma NextListing(models: seq<ModelInfo>, index: map<string, nat>, i: nat)
    requires i < |models|
    ensures IndexFrom(index, Listings(models), i)
         == IndexFrom(InsertNames(index, Names(models[i]), i), Listings(models), i + 1)
  {
  }

  method New(models: seq<ModelInfo>) returns (aliasMap: map<string, nat>)
    ensures aliasMap == AliasMap(Listings(models))
  {
    aliasMap := map[];
    ghost var ls := Listings(models);
    ghost var whole := AliasMap(ls);
    for idx := 0 to |models|
      invariant IndexFrom(aliasMap, ls, idx) == whole
    {
      NextListing(models, aliasMap, idx);
      aliasMap := AddModel(aliasMap, models[idx], idx);
    }
  }

  lemma NamesSplit(f: string -> string, names: seq<string>, index: map<string, nat>, i: nat)
    requires names != []
    ensures InsertNames(index, MapAll(f, names), i)
         == InsertNames(OrInsert(index, f(names[0]), i), MapAll(f, names[1..]), i)
  {
    assert MapAll(f, names)[1..] == MapAll(f, names[1..]);
  }

  /** One model: its id, then the inner loop over its aliases. */
  method AddModel(start: map<string, nat>, model: ModelInfo, idx: nat) returns (aliasMap: map<string, nat>)
    ensures aliasMap == InsertNames(start, Names(model), idx)
  {
    var aliases := model.aliases;
    NamesSplit(Norm, AllNames(model), start, idx);
    assert AllNames(model)[1..] == aliases;
    aliasMap := OrInsert(start, Norm(model.id), idx);
    ghost var done := InsertNames(start, Names(model), idx);
    for j := 0 to |aliases|
      invariant InsertNames(aliasMap, MapAll(Norm, aliases[j..]), idx) == done
    {
      NamesSplit(Norm, aliases[j..], aliasMap, idx);
      assert aliases[j..][1..] == aliases[j + 1..];
      aliasMap := OrInsert(aliasMap, Norm(aliases[j]), idx);
    }
  }

  /** The first listing at or after `i` that a linear scan accepts: by name, by provider, or by both. */
  function FirstMatch(ls: seq<Listing>, p: Option<ProviderKind>, key: Option<string>, i: nat): (r: Option<nat>)
    requires i <= |ls|
    ensures r.Some? ==> i <= r.value < |ls| && Fits(ls[r.value], p, key)
    ensures r.Some? ==> forall j :: i <= j < r.value ==> !Fits(ls[j], p, key)
    ensures r.None? ==> forall j :: i <= j < |ls| ==> !Fits(ls[j], p, key)
    decreases |ls| - i
  {
    if i == |ls| then None else if Fits(ls[i], p, key) then Some(i) else FirstMatch(ls, p, key, i + 1)
  }

  predicate Fits(l: Listing, p: Option<ProviderKind>, key: Option<string>) {
    (p.Some? ==> l.info.provider == p.value) && (key.Some? ==> key.value in l.names)
  }

  lemma {:induction false} InsertNamesGet(index: map<string, nat>, names: seq<string>, i: nat, name: string)
    ensures var got := InsertNames(index, names, i);
            && (name in got <==> name in index || name in names)
            && (name in got ==> got[name] == if name in index then index[name] else i)
    decreases |names|
  {
    if names != [] { InsertNamesGet(OrInsert(index, names[0], i), names[1..], i, name); }
  }

  lemma {:induction false} IndexFromGet(index: map<string, nat>, ls: seq<Listing>, i: nat, key: string)
    requires i <= |ls|
    ensures var got := IndexFrom(index, ls, i);
            if key in index then key in got && got[key] == index[key]
            else match FirstMatch(ls, None, Some(key), i)
                 case None => key !in got
                 case Some(k) => key in got && got[key] == k
    decreases |ls| - i
  {
    if i < |ls| {
      InsertNamesGet(index, ls[i].names, i, key);
      IndexFromGet(InsertNames(index, ls[i].names, i), ls, i + 1, key);
    }
  }

  lemma IndexIsScan(ls: seq<Listing>, key: string)
    ensures match FirstMatch(ls, None, Some(key), 0)
            case None => key !in AliasMap(ls)
            case Some(k) => key in AliasMap(ls) && AliasMap(ls)[key] == k
  {
    IndexFromGet(map[], ls, 0, key);
  }

  /** Looking a name up in the index finds precisely the first model that a linear scan would match. */
  lemma IndexExact(models: seq<ModelInfo>, requested: string)
    ensures var index := AliasMap(Listings(models));
            && (Norm(requested) !in index ==> forall i :: 0 <= i < |models| ==> !ModelMatches(models[i], requested))
            && (Norm(requested) in index ==>
                  var k := index[Norm(requested)];
                  && k < |models| && ModelMatches(models[k], requested)
                  && forall i :: 0 <= i < k ==> !ModelMatches(models[i], requested))
  {
    var (ls, key) := (Listings(models), Norm(requested));
    IndexIsScan(ls, key);
    forall i | 0 <= i < |models| ensures ModelMatches(models[i], requested) == Fits(ls[i], None, Some(key)) {
      NamesAreMatches(models[i], requested);
    }
  }

  // ---- Resolution.

  /** An exact id keeps the spelling that was asked for. */
  function KeepRequestedCase(m: ModelInfo, requested: string): ModelInfo {
    if EqIgnoreCase(m.id, Trim(requested)) then m.(id := Trim(requested)) else m
  }

  predicate IsControl(c: char) { c as int < 0x20 || 0x7F <= c as int <= 0x9F }

  /** Providers whose unlisted model ids are passed through. */
  function Passthrough(p: ProviderKind, requested: string): Option<ModelInfo> { PassedThrough(p, Trim(requested)) }

  function PassedThrough(p: ProviderKind, id: string): (m: Option<ModelInfo>)
    ensures m.Some? ==> m.value.id == id && m.value.provider == p
  {
    if id == "" then None
    else match p
      case Atlascloud => if '/' in id then Some(ModelInfo(id, p, [], true, true)) else None
      case Arcee => Some(ModelInfo(id, p, [], true, Find(Lower(id), "thinking").Some?))
      case XiaomiMimo =>
        if exists i :: 0 <= i < |id| && IsControl(id[i]) then None else Some(ModelInfo(id, p, [], true, true))
      case _ => None
  }

  const BUILT_IN := ModelInfo("deepseek-v4-pro", Deepseek, [], true, true)

  /** What a name, with its normal form as `key`, resolves to without falling back. */
  function Direct(ls: seq<Listing>, name: string, key: string, hint: Option<ProviderKind>): Option<ModelInfo> {
    if hint == Some(Ollama) then Some(ModelInfo(Trim(name), Ollama, [], true, false))
    else if hint.Some? && FirstMatch(ls, hint, Some(key), 0).Some? then
      Some(ls[FirstMatch(ls, hint, Some(key), 0).value].info)
    else if hint.Some? && Passthrough(hint.value, name).Some? then Passthrough(hint.value, name)
    else match FirstMatch(ls, None, Some(key), 0)
      case Some(k) => Some(KeepRequestedCase(ls[k].info, name))
      case None => None
  }

  function FallenBack(ls: seq<Listing>, requested: Option<string>, hint: Option<ProviderKind>,
                      tried: seq<Strategy>): Resolution
  {
    var p := if hint.Some? then hint.value else Deepseek;
    var chain := tried + [ProviderDefault(p)];
    match FirstMatch(ls, Some(p), None, 0)
    case Some(k) => Resolution(requested, ls[k].info, true, chain)
    case None => Resolution(requested, if ls == [] then BUILT_IN else ls[0].info, true, chain + [GlobalDefault])
  }

  /** `key` is the normal form of the requested name. */
  function ResolvedBy(ls: seq<Listing>, requested: Option<string>, key: string,
                      hint: Option<ProviderKind>): Resolution
  {
    match requested
    case None => FallenBack(ls, requested, hint, [])
    case Some(name) =>
      match Direct(ls, name, key, hint)
      case Some(m) => Resolution(requested, m, false, [Requested(name)])
      case None => FallenBack(ls, requested, hint, [Requested(name)])
  }

  function Resolved(models: seq<ModelInfo>, requested: Option<string>, hint: Option<ProviderKind>): Resolution {
    ResolvedBy(Listings(models), requested, if requested.Some? then Norm(requested.value) else "", hint)
  }

  /** `aliasMap` is the index built from `models`. */
  method Resolve(models: seq<ModelInfo>, aliasMap: map<string, nat>, requested: Option<string>,
                 hint: Option<ProviderKind>)
    returns (r: Resolution)
    requires aliasMap == AliasMap(Listings(models))
    ensures r == Resolved(models, requested, hint)
  {
    var key := if requested.Some? then Norm(requested.value) else "";
    r := ResolveListed(Listings(models), aliasMap, requested, key, hint);
  }

  method ResolveListed(ls: seq<Listing>, aliasMap: map<string, nat>, requested: Option<string>, key: string,
                       hint: Option<ProviderKind>)
    returns (r: Resolution)
    requires aliasMap == AliasMap(ls)
    ensures r == ResolvedBy(ls, requested, key, hint)
  {
    var fallbackChain: seq<Strategy> := [];
    if requested.Some? {
      fallbackChain := fallbackChain + [Requested(requested.value)];
      var direct := ResolveDirect(ls, aliasMap, requested.value, key, hint);
      if direct.Some? { return Resolution(requested, direct.value, false, fallbackChain); }
    }
    var provider := if hint.Some? then hint.value else Deepseek;
    fallbackChain := fallbackChain + [ProviderDefault(provider)];
    var found := FirstMatch(ls, Some(provider), None, 0);
    if found.Some? { return Resolution(requested, ls[found.value].info, true, fallbackChain); }
    var final := if ls == [] then BUILT_IN else ls[0].info;
    fallbackChain := fallbackChain + [GlobalDefault];
    r := Resolution(requested, final, true, fallbackChain);
  }

  method ResolveDirect(ls: seq<Listing>, aliasMap: map<string, nat>, name: string, key: string,
                       hint: Option<ProviderKind>)
    returns (m: Option<ModelInfo>)
    requires aliasMap == AliasMap(ls)
    ensures m == Direct(ls, name, key, hint)
  {
    if hint == Some(Ollama) { return Some(ModelInfo(Trim(name), Ollama, [], true, false)); }
    if hint.Some? {
      var found := FirstMatch(ls, hint, Some(key), 0);
      if found.Some? { return Some(ls[found.value].info); }
      var passed := Passthrough(hint.value, name);
      if passed.Some? { return passed; }
    }
    IndexIsScan(ls, key);
    m := if key in aliasMap then Some(KeepRequestedCase(ls[aliasMap[key]].info, name)) else None;
  }

  // ---- What a request resolves to, on the models.

  /** The first model of a provider. */
  predicate FirstListed(models: seq<ModelInfo>, p: ProviderKind, k: nat) {
    k < |models| && models[k].provider == p && forall i :: 0 <= i < k ==> models[i].provider != p
  }

  /** The first model, of the provider when one is given, that answers to the name. */
  ghost predicate FirstAnswering(models: seq<ModelInfo>, p: Option<ProviderKind>, name: string, k: nat) {
    k < |models| && Answers(models[k], p, name) && forall i :: 0 <= i < k ==> !Answers(models[i], p, name)
  }

  /** Its id or an alias is the name, up to outer blanks and ASCII case. */
  ghost predicate Answers(m: ModelInfo, p: Option<ProviderKind>, name: string) {
    && (p.Some? ==> m.provider == p.value)
    && (Lower(Trim(m.id)) == Lower(Trim(name)) || exists a :: a in m.aliases && Lower(Trim(a)) == Lower(Trim(name)))
  }

  ghost predicate NoneAnswers(models: seq<ModelInfo>, p: Option<ProviderKind>, name: string) {
    forall i :: 0 <= i < |models| ==> !Answers(models[i], p, name)
  }

  lemma MatchIsAnswer(m: ModelInfo, name: string)
    ensures ModelMatches(m, name) <==> Answers(m, None, name)
  {
    if a :| a in m.aliases && Lower(Trim(a)) == Lower(Trim(name)) {
      var i :| 0 <= i < |m.aliases| && m.aliases[i] == a;
      assert Norm(m.aliases[i]) == Norm(name);
    }
  }

  lemma FitsIsAnswer(models: seq<ModelInfo>, i: nat, p: Option<ProviderKind>, name: string)
    requires i < |models|
    ensures Fits(Listings(models)[i], p, Some(Norm(name))) <==> Answers(models[i], p, name)
  {
    MatchIsAnswer(models[i], name);
    NamesAreMatches(models[i], name);
  }

  lemma FirstMatchIs(ls: seq<Listing>, p: Option<ProviderKind>, key: Option<string>, fits: nat -> bool, k: nat)
    requires forall i: nat :: i < |ls| ==> (Fits(ls[i], p, key) <==> fits(i))
    ensures FirstMatch(ls, p, key, 0) == Some(k) <==> k < |ls| && fits(k) && forall i :: 0 <= i < k ==> !fits(i)
    ensures FirstMatch(ls, p, key, 0).None? <==> forall i :: 0 <= i < |ls| ==> !fits(i)
  {
  }

  /** The scan over the listings finds the first model that answers. */
  lemma ScanExact(models: seq<ModelInfo>, p: Option<ProviderKind>, name: string, k: nat)
    ensures FirstMatch(Listings(models), p, Some(Norm(name)), 0) == Some(k) <==> FirstAnswering(models, p, name, k)
    ensures FirstMatch(Listings(models), p, Some(Norm(name)), 0).None? <==> NoneAnswers(models, p, name)
  {
    var fits := (i: nat) => i < |models| && Answers(models[i], p, name);
    forall i: nat | i < |models| ensures Fits(Listings(models)[i], p, Some(Norm(name))) <==> fits(i) {
      FitsIsAnswer(models, i, p, name);
    }
    FirstMatchIs(Listings(models), p, Some(Norm(name)), fits, k);
  }

  lemma ScanProvider(models: seq<ModelInfo>, p: ProviderKind, k: nat)
    ensures FirstMatch(Listings(models), Some(p), None, 0) == Some(k) <==> FirstListed(models, p, k)
    ensures FirstMatch(Listings(models), Some(p), None, 0).None? <==>
            forall i :: 0 <= i < |models| ==> models[i].provider != p
  {
    forall i: nat | i < |models| ensures Fits(Listings(models)[i], Some(p), None) <==> models[i].provider == p {}
  }

  lemma FallenBackExact(models: seq<ModelInfo>, requested: Option<string>, hint: Option<ProviderKind>,
                        tried: seq<Strategy>, k: nat)
    ensures var r := FallenBack(Listings(models), requested, hint, tried);
            var p := if hint.Some? then hint.value else Deepseek;
            && r.usedFallback && r.requested == requested
            && (FirstListed(models, p, k) ==>
                  r.resolved == models[k] && r.fallbackChain == tried + [ProviderDefault(p)])
            && ((forall i :: 0 <= i < |models| ==> models[i].provider != p) ==>
                  && r.fallbackChain == tried + [ProviderDefault(p)] + [GlobalDefault]
                  && r.resolved == if models == [] then ModelInfo("deepseek-v4-pro", Deepseek, [], true, true)
                                   else models[0])
  {
    ScanProvider(models, if hint.Some? then hint.value else Deepseek, k);
  }

  /** Nothing asked for, or no way to answer it. */
  ghost predicate Unanswered(models: seq<ModelInfo>, requested: Option<string>, hint: Option<ProviderKind>) {
    requested.None? ||
    (hint != Some(Ollama) && NoneAnswers(models, None, requested.value)
     && (hint.Some? ==> Passthrough(hint.value, requested.value).None?))
  }

  lemma UnansweredListed(models: seq<ModelInfo>, name: string, hint: Option<ProviderKind>)
    requires NoneAnswers(models, None, name)
    ensures NoneAnswers(models, hint, name)
  {
  }

  lemma DirectNone(ls: seq<Listing>, name: string, key: string, hint: Option<ProviderKind>)
    requires hint.Some? && FirstMatch(ls, None, Some(key), 0).None? ==> FirstMatch(ls, hint, Some(key), 0).None?
    ensures Direct(ls, name, key, hint).None? <==>
            hint != Some(Ollama) && FirstMatch(ls, None, Some(key), 0).None?
            && (hint.Some? ==> Passthrough(hint.value, name).None?)
  {
  }

  lemma DirectExact(models: seq<ModelInfo>, name: string, hint: Option<ProviderKind>)
    ensures Direct(Listings(models), name, Norm(name), hint).None? <==> Unanswered(models, Some(name), hint)
  {
    ScanExact(models, hint, name, 0);
    ScanExact(models, None, name, 0);
    if NoneAnswers(models, None, name) { UnansweredListed(models, name, hint); }
    DirectNone(Listings(models), name, Norm(name), hint);
  }

  lemma ResolvedIs(ls: seq<Listing>, requested: Option<string>, key: string, hint: Option<ProviderKind>)
    ensures var r := ResolvedBy(ls, requested, key, hint);
            var tried := if requested.Some? then [Requested(requested.value)] else [];
            if requested.Some? && Direct(ls, requested.value, key, hint).Some?
            then r == Resolution(requested, Direct(ls, requested.value, key, hint).value, false, tried)
            else r == FallenBack(ls, requested, hint, tried)
  {
  }

  function Key(requested: Option<string>): string { if requested.Some? then Norm(requested.value) else "" }

  /** A fallback happens exactly when the request is unanswered. */
  lemma FallbackExact(models: seq<ModelInfo>, requested: Option<string>, hint: Option<ProviderKind>)
    ensures var r := Resolved(models, requested, hint);
            && r.requested == requested && (r.usedFallback <==> Unanswered(models, requested, hint))
            && (!r.usedFallback ==> requested.Some? && r.fallbackChain == [Requested(requested.value)])
  {
    var ls := Listings(models);
    ResolvedIs(ls, requested, Key(requested), hint);
    if requested.Some? { DirectExact(models, requested.value, hint); }
  }

  /** It takes the first model of the hinted provider, or DeepSeek, else the first of all, else the built-in one. */
  lemma FallbackTakes(models: seq<ModelInfo>, requested: Option<string>, hint: Option<ProviderKind>, k: nat)
    requires Resolved(models, requested, hint).usedFallback
    ensures var (r, p) := (Resolved(models, requested, hint), if hint.Some? then hint.value else Deepseek);
            var tried := if requested.Some? then [Requested(requested.value)] else [];
            && (FirstListed(models, p, k) ==>
                  r.resolved == models[k] && r.fallbackChain == tried + [ProviderDefault(p)])
            && ((forall i :: 0 <= i < |models| ==> models[i].provider != p) ==>
                  && r.fallbackChain == tried + [ProviderDefault(p)] + [GlobalDefault]
                  && r.resolved == if models == [] then ModelInfo("deepseek-v4-pro", Deepseek, [], true, true)
                                   else models[0])
  {
    ResolvedIs(Listings(models), requested, Key(requested), hint);
    FallenBackExact(models, requested, hint, if requested.Some? then [Requested(requested.value)] else [], k);
  }

  /** What an answered request gets, strategy by strategy. */
  lemma AnsweredExact(models: seq<ModelInfo>, name: string, hint: Option<ProviderKind>, k: nat)
    ensures hint == Some(Ollama) ==>
              Resolved(models, Some(name), hint).resolved == ModelInfo(Trim(name), Ollama, [], true, false)
    ensures hint.Some? && hint != Some(Ollama) && FirstAnswering(models, hint, name, k) ==>
              Resolved(models, Some(name), hint).resolved == models[k]
    ensures hint.Some? && hint != Some(Ollama) && NoneAnswers(models, hint, name)
            && Passthrough(hint.value, name).Some? ==>
              Resolved(models, Some(name), hint).resolved == Passthrough(hint.value, name).value
    ensures hint != Some(Ollama) && FirstAnswering(models, None, name, k)
            && (hint.Some? ==> NoneAnswers(models, hint, name) && Passthrough(hint.value, name).None?) ==>
              Resolved(models, Some(name), hint).resolved
              == models[k].(id := if Lower(models[k].id) == Lower(Trim(name)) then Trim(name) else models[k].id)
  {
    ScanExact(models, hint, name, k);
    ScanExact(models, None, name, k);
    ResolvedIs(Listings(models), Some(name), Norm(name), hint);
  }

  /** Which unlisted ids are passed through: any for Arcee, with a slash for Atlascloud, without controls for Xiaomi. */
  lemma PassthroughExact(p: ProviderKind, name: string)
    ensures var id := Trim(name);
            Passthrough(p, name)
            == if id == "" then None
               else if p == Atlascloud && (exists i :: 0 <= i < |id| && id[i] == '/') then
                 Some(ModelInfo(id, Atlascloud, [], true, true))
               else if p == Arcee then
                 Some(ModelInfo(id, Arcee, [], true, exists i :: OccursAt(Lower(id), "thinking", i)))
               else if p == XiaomiMimo
                       && (forall i :: 0 <= i < |id| ==> 0x20 <= id[i] as int < 0x7F || id[i] as int > 0x9F) then
                 Some(ModelInfo(id, XiaomiMimo, [], true, true))
               else None
  {
  }

  // ---- Resolving a result again.

  lemma TrimTwice(s: string)
    ensures Trim(Trim(s)) == Trim(s) && Norm(Trim(s)) == Norm(s)
  {
    assert TrimmedBy(IsWhitespace, Trim(s));
  }

  lemma LowerKeepsBlanks(c: char)
    ensures IsWhitespace(LowerChar(c)) <==> IsWhitespace(c)
  {
  }

  /** An id that differs from trimmed text only in case has the same normal form. */
  lemma SameNorm(id: string, text: string)
    requires EqIgnoreCase(id, text) && TrimmedBy(IsWhitespace, text)
    ensures Norm(id) == Norm(text)
  {
    assert |id| == |Lower(id)| == |Lower(text)| == |text|;
    if id != "" {
      LowerKeepsBlanks(id[0]);
      LowerKeepsBlanks(text[0]);
      LowerKeepsBlanks(id[|id| - 1]);
      LowerKeepsBlanks(text[|text| - 1]);
      assert Lower(id)[0] == Lower(text)[0] && Lower(id)[|id| - 1] == Lower(text)[|text| - 1];
    }
    assert TrimmedBy(IsWhitespace, id);
  }

  lemma KeptCase(m: ModelInfo, name: string)
    ensures KeepRequestedCase(m, name).provider == m.provider
    ensures Norm(KeepRequestedCase(m, name).id) == Norm(m.id)
  {
    if EqIgnoreCase(m.id, Trim(name)) { SameNorm(m.id, Trim(name)); }
  }

  lemma PassthroughAgain(p: ProviderKind, name: string)
    requires Passthrough(p, name).Some?
    ensures var m := Passthrough(p, name).value; m.provider == p && Passthrough(p, m.id).Some?
  {
    TrimTwice(name);
    assert Passthrough(p, Trim(name)) == PassedThrough(p, Trim(Trim(name)));
  }

  /** A result answers to `norm`: it is listed under its provider, or its provider takes any id, or passes this one. */
  predicate Stable(ls: seq<Listing>, m: ModelInfo, norm: string) {
    m.provider == Ollama || FirstMatch(ls, Some(m.provider), Some(norm), 0).Some? || Passthrough(m.provider, m.id).Some?
  }

  lemma ListedIsStable(ls: seq<Listing>, k: nat, m: ModelInfo, norm: string)
    requires k < |ls| && m.provider == ls[k].info.provider && norm in ls[k].names
    ensures Stable(ls, m, norm)
  {
    assert Fits(ls[k], Some(m.provider), Some(norm));
  }

  lemma StableAgain(ls: seq<Listing>, m: ModelInfo, norm: string)
    requires Stable(ls, m, norm)
    ensures var again := ResolvedBy(ls, Some(m.id), norm, Some(m.provider));
            !again.usedFallback && again.resolved.provider == m.provider
  {
    if m.provider != Ollama && FirstMatch(ls, Some(m.provider), Some(norm), 0).None? {
      PassthroughAgain(m.provider, m.id);
    }
  }

  /** Where a result comes from: a listing up to the case of its id, a pass-through, or Ollama. */
  lemma ResultOrigin(ls: seq<Listing>, requested: Option<string>, key: string, hint: Option<ProviderKind>)
    returns (k: nat)
    requires ls != []
    ensures var m := ResolvedBy(ls, requested, key, hint).resolved;
            || m.provider == Ollama
            || Passthrough(m.provider, m.id).Some?
            || (k < |ls| && m == ls[k].info)
            || (k < |ls| && requested.Some? && m == KeepRequestedCase(ls[k].info, requested.value))
  {
    k := 0;
    if requested.Some? && Direct(ls, requested.value, key, hint).Some? {
      if hint == Some(Ollama) {
      } else if hint.Some? && FirstMatch(ls, hint, Some(key), 0).Some? {
        k := FirstMatch(ls, hint, Some(key), 0).value;
      } else if hint.Some? && Passthrough(hint.value, requested.value).Some? {
        PassthroughAgain(hint.value, requested.value);
      } else {
        k := FirstMatch(ls, None, Some(key), 0).value;
      }
    } else {
      var found := FirstMatch(ls, Some(if hint.Some? then hint.value else Deepseek), None, 0);
      k := if found.Some? then found.value else 0;
    }
  }

  lemma OwnName(m: ModelInfo)
    ensures Norm(m.id) in Names(m)
  {
    assert MapAll(Norm, AllNames(m))[0] == Norm(m.id);
  }

  lemma ResultIsStable(models: seq<ModelInfo>, requested: Option<string>, key: string, hint: Option<ProviderKind>)
    requires models != []
    ensures var m := ResolvedBy(Listings(models), requested, key, hint).resolved;
            Stable(Listings(models), m, Norm(m.id))
  {
    var ls := Listings(models);
    var m := ResolvedBy(ls, requested, key, hint).resolved;
    var k := ResultOrigin(ls, requested, key, hint);
    if m.provider != Ollama && Passthrough(m.provider, m.id).None? {
      OwnName(models[k]);
      if requested.Some? { KeptCase(models[k], requested.value); }
      ListedIsStable(ls, k, m, Norm(m.id));
    }
  }

  /** Resolving a result's id under its own provider never falls back, and stays with that provider. */
  lemma ReresolveStable(models: seq<ModelInfo>, requested: Option<string>, hint: Option<ProviderKind>)
    requires models != []
    ensures var m := Resolved(models, requested, hint).resolved;
            var again := Resolved(models, Some(m.id), Some(m.provider));
            !again.usedFallback && again.resolved.provider == m.provider
  {
    var key := if requested.Some? then Norm(requested.value) else "";
    var m := ResolvedBy(Listings(models), requested, key, hint).resolved;
    ResultIsStable(models, requested, key, hint);
    StableAgain(Listings(models), m, Norm(m.id));
  }

  // ---- When the same model comes back.

  lemma HintedListing(ls: seq<Listing>, name: string, key: string, p: ProviderKind, k: nat)
    requires p != Ollama && FirstMatch(ls, Some(p), Some(key), 0) == Some(k)
    ensures ResolvedBy(ls, Some(name), key, Some(p)).resolved == ls[k].info
  {
  }

  /** No earlier model of the same provider answers to the name. */
  predicate FirstNamed(models: seq<ModelInfo>, name: string, k: nat)
    requires k < |models|
  {
    forall i :: 0 <= i < k && models[i].provider == models[k].provider ==> !ModelMatches(models[i], name)
  }

  lemma FitsIsMatch(models: seq<ModelInfo>, i: nat, p: ProviderKind, name: string)
    requires i < |models|
    ensures Fits(Listings(models)[i], Some(p), Some(Norm(name)))
            <==> models[i].provider == p && ModelMatches(models[i], name)
  {
    NamesAreMatches(models[i], name);
  }

  lemma FirstFit(models: seq<ModelInfo>, k: nat)
    requires k < |models|
    ensures var found := FirstMatch(Listings(models), Some(models[k].provider), Some(Norm(models[k].id)), 0);
            found.Some? && found.value <= k && (found.value == k <==> FirstNamed(models, models[k].id, k))
  {
    var (p, name) := (models[k].provider, models[k].id);
    OwnName(models[k]);
    forall i: nat | i < |models|
      ensures Fits(Listings(models)[i], Some(p), Some(Norm(name)))
              <==> models[i].provider == p && ModelMatches(models[i], name)
    {
      FitsIsMatch(models, i, p, name);
    }
  }

  /** A listed model comes back under its own id exactly when no earlier model of its provider answers to that id. */
  lemma SameModelExact(models: seq<ModelInfo>, k: nat)
    requires k < |models| && models[k].provider != Ollama && forall i :: 0 <= i < k ==> models[i] != models[k]
    ensures Resolved(models, Some(models[k].id), Some(models[k].provider)).resolved == models[k]
            <==> FirstNamed(models, models[k].id, k)
  {
    FirstFit(models, k);
    var (p, key) := (models[k].provider, Norm(models[k].id));
    HintedListing(Listings(models), models[k].id, key, p, FirstMatch(Listings(models), Some(p), Some(key), 0).value);
  }

  /** A respelled id is answered by the registry's own entry. */
  lemma ListedTakesOver(models: seq<ModelInfo>, m: ModelInfo, k: nat)
    requires k < |models|
    ensures models[k].provider == m.provider != Ollama && ModelMatches(models[k], m.id)
            ==> Resolved(models, Some(m.id), Some(m.provider)).resolved in models
  {
    var (ls, key) := (Listings(models), Norm(m.id));
    FitsIsMatch(models, k, m.provider, m.id);
    if m.provider != Ollama && Fits(ls[k], Some(m.provider), Some(key)) {
      var found := FirstMatch(ls, Some(m.provider), Some(key), 0);
      HintedListing(ls, m.id, key, m.provider, found.value);
      assert ls[found.value].info == models[found.value];
    }
  }

  lemma PassedBack(ls: seq<Listing>, p: ProviderKind, m: ModelInfo, key: string)
    requires p != Ollama && FirstMatch(ls, Some(p), Some(key), 0).None? && Passthrough(p, m.id) == Some(m)
    ensures ResolvedBy(ls, Some(m.id), key, Some(p)).resolved == m
  {
  }

  /** An id that is passed through, because its provider lists no such name, comes back as it was. */
  lemma PassedComesBack(models: seq<ModelInfo>, p: ProviderKind, name: string)
    ensures FirstMatch(Listings(models), Some(p), Some(Norm(name)), 0).None? && Passthrough(p, name).Some?
            ==> var m := Passthrough(p, name).value; Resolved(models, Some(m.id), Some(p)).resolved == m
  {
    TrimTwice(name);
    var (ls, key, passed) := (Listings(models), Norm(name), Passthrough(p, name));
    if passed.Some? && FirstMatch(ls, Some(p), Some(key), 0).None? {
      assert passed.value.id == Trim(name) && p != Ollama;
      assert Passthrough(p, passed.value.id) == PassedThrough(p, Trim(Trim(name))) == passed;
      PassedBack(ls, p, passed.value, key);
    }
  }

  /** So does every Ollama tag. */
  lemma OllamaComesBack(models: seq<ModelInfo>, name: string)
    ensures var m := Resolved(models, Some(name), Some(Ollama)).resolved;
            m.id == Trim(name) && Resolved(models, Some(m.id), Some(Ollama)).resolved == m
  {
    TrimTwice(name);
  }

  /** `provider_for_request`: a matched model decides the provider, a fallback never does. */
  function ProviderForRequest(models: seq<ModelInfo>, configured: ProviderKind,
                              requestModel: Option<string>): ProviderKind
  {
    if requestModel.Some? && !Resolved(models, requestModel, None).usedFallback
    then Resolved(models, requestModel, None).resolved.provider
    else configured
  }

  lemma UnhintedExact(ls: seq<Listing>, name: string, key: string)
    ensures var r := ResolvedBy(ls, Some(name), key, None);
            match FirstMatch(ls, None, Some(key), 0)
            case Some(k) => !r.usedFallback && r.resolved.provider == ls[k].info.provider
            case None => r.usedFallback
  {
  }

  /** The provider of the first model that matches the name, and the configured one exactly when none does. */
  lemma ProviderForRequestExact(models: seq<ModelInfo>, configured: ProviderKind, name: string)
    ensures var (index, got) := (AliasMap(Listings(models)), ProviderForRequest(models, configured, Some(name)));
            if Norm(name) in index then index[Norm(name)] < |models| && got == models[index[Norm(name)]].provider
            else got == configured
  {
    IndexIsScan(Listings(models), Norm(name));
    UnhintedExact(Listings(models), name, Norm(name));
  }
}
