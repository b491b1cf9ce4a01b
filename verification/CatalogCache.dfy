/** The live cache of provider catalogs, as a function of its refresh history. */
module CatalogCache {
  import opened Wrappers
  import opened Binary
  import opened Text
  import opened OrderedMap
  import opened Catalog
  import Fnv

  datatype RefreshError = Unauthorized | Forbidden | NotFound | RateLimited | InvalidResponse | EmptyList | Network

  datatype Status = Fresh | Stale(ageSecs: nat) | Failed(reason: RefreshError) | Unknown

  datatype Cached = Cached(
    provider: string,
    baseUrlFingerprint: string,
    fetchedAt: nat,
    ttlSecs: nat,
    offerings: seq<Offering>,
    status: Status)
  {
    /** Saturates at zero when the clock went back. */
    function AgeSecs(now: nat): nat { if now < fetchedAt then 0 else now - fetchedAt }

    predicate IsStale(now: nat) { AgeSecs(now) >= ttlSecs }

    predicate IsFresh(now: nat) { !IsStale(now) && !status.Failed? }
  }

  datatype Delta = Delta(provider: string, baseUrlFingerprint: string, fetchedAt: nat, offerings: seq<Offering>)

  const SEPARATOR: char := '\U{1F}'

  function CacheKey(provider: string, fingerprint: string): string {
    Trim(provider) + [SEPARATOR] + Trim(fingerprint)
  }

  /** The rows of a delta, marked as live from its endpoint and time. */
  function Retagged(d: Delta): (rows: seq<Offering>)
    ensures |rows| == |d.offerings|
    ensures forall i :: 0 <= i < |rows| ==>
              rows[i] == d.offerings[i].(source := Live(d.baseUrlFingerprint, d.fetchedAt))
  {
    seq(|d.offerings|, i requires 0 <= i < |d.offerings| =>
      d.offerings[i].(source := Live(d.baseUrlFingerprint, d.fetchedAt)))
  }

  /** One recorded refresh. */
  datatype Refresh =
    | Success(delta: Delta, ttlSecs: nat)
    | Failure(provider: string, fingerprint: string, reason: RefreshError)
  {
    function Scope(): string {
      if Success? then CacheKey(delta.provider, delta.baseUrlFingerprint) else CacheKey(provider, fingerprint)
    }
  }

  type Entries = seq<Entry<Cached>>

  /** The entry a refresh leaves in its scope. */
  function EntryAfter(m: Entries, r: Refresh): Cached {
    match r
    case Success(d, ttl) => Cached(d.provider, d.baseUrlFingerprint, d.fetchedAt, ttl, Retagged(d), Fresh)
    case Failure(provider, fingerprint, reason) =>
      match Get(m, [r.Scope()])
      case Some(entry) => entry.(status := Failed(reason))
      case None => Cached(Trim(provider), Trim(fingerprint), 0, 0, [], Failed(reason))
  }

  function Applied(m: Entries, r: Refresh): Entries { Insert(m, [r.Scope()], EntryAfter(m, r)) }

  function Replay(history: seq<Refresh>): Entries {
    if history == [] then [] else Applied(Replay(history[..|history| - 1]), history[|history| - 1])
  }

  function StatusOf(found: Option<Cached>, now: nat): Status {
    match found
    case None => Status.Unknown
    case Some(entry) =>
      if entry.status.Failed? || entry.status.Unknown? then entry.status
      else if entry.IsStale(now) then Stale(entry.AgeSecs(now)) else Fresh
  }

  function FreshRowsOf(found: Option<Cached>, now: nat): seq<Offering> {
    match found
    case None => []
    case Some(entry) => if entry.IsFresh(now) then entry.offerings else []
  }

  function AllFreshRowsIn(m: Entries, now: nat): seq<Offering> {
    if m == [] then [] else (if m[0].value.IsFresh(now) then m[0].value.offerings else []) + AllFreshRowsIn(m[1..], now)
  }

  class ProviderCatalogCache {
    var entries: Entries
    ghost var history: seq<Refresh>

    ghost predicate Valid() reads this { entries == Replay(history) }

    constructor ()
      ensures Valid() && history == []
    {
      entries, history := [], [];
    }

    function StatusAt(provider: string, fingerprint: string, now: nat): Status reads this {
      StatusOf(Get(entries, [CacheKey(provider, fingerprint)]), now)
    }

    function FreshOfferings(provider: string, fingerprint: string, now: nat): seq<Offering> reads this {
      FreshRowsOf(Get(entries, [CacheKey(provider, fingerprint)]), now)
    }

    function AllFreshOfferings(now: nat): seq<Offering> reads this { AllFreshRowsIn(entries, now) }

    method RecordSuccess(delta: Delta, ttlSecs: nat)
      requires Valid()
      modifies this
      ensures Valid() && history == old(history) + [Success(delta, ttlSecs)]
    {
      var offerings: seq<Offering> := [];
      for i := 0 to |delta.offerings|
        invariant offerings == Retagged(delta)[..i]
        invariant entries == old(entries) && history == old(history)
      {
        var row := delta.offerings[i].(source := Live(delta.baseUrlFingerprint, delta.fetchedAt));
        offerings := offerings + [row];
      }
      assert offerings == Retagged(delta);
      var key := CacheKey(delta.provider, delta.baseUrlFingerprint);
      var entry := Cached(delta.provider, delta.baseUrlFingerprint, delta.fetchedAt, ttlSecs, offerings, Fresh);
      entries := Insert(entries, [key], entry);
      history := history + [Success(delta, ttlSecs)];
      assert history[..|history| - 1] == old(history);
    }

    method RecordFailure(provider: string, fingerprint: string, reason: RefreshError)
      requires Valid()
      modifies this
      ensures Valid() && history == old(history) + [Failure(provider, fingerprint, reason)]
    {
      var key := CacheKey(provider, fingerprint);
      match Get(entries, [key]) {
        case Some(entry) =>
          entries := Insert(entries, [key], entry.(status := Failed(reason)));
        case None =>
          entries := Insert(entries, [key], Cached(Trim(provider), Trim(fingerprint), 0, 0, [], Failed(reason)));
      }
      history := history + [Failure(provider, fingerprint, reason)];
      assert history[..|history| - 1] == old(history);
    }
  }

  // ---- What the history says about one scope.

  /** The latest refresh of a scope. */
  function Latest(history: seq<Refresh>, scope: string): (r: Option<Refresh>)
    ensures r.Some? ==> r.value in history && r.value.Scope() == scope
    ensures r.None? <==> forall e :: e in history ==> e.Scope() != scope
  {
    if history == [] then None
    else
      var e := history[|history| - 1];
      if e.Scope() == scope then Some(e) else Latest(history[..|history| - 1], scope)
  }

  /** The latest successful refresh of a scope, whatever failed after it. */
  function LatestSuccess(history: seq<Refresh>, scope: string): (r: Option<Refresh>)
    ensures r.Some? ==> r.value.Success? && r.value in history && r.value.Scope() == scope
    ensures r.None? <==> forall e :: e in history && e.Success? ==> e.Scope() != scope
  {
    if history == [] then None
    else
      var e := history[|history| - 1];
      if e.Success? && e.Scope() == scope then Some(e) else LatestSuccess(history[..|history| - 1], scope)
  }

  /**
   * What an entry holds: rows, time, lifetime and endpoint of the latest success, and the outcome of
   * the latest refresh. Without a success it names an endpoint of its scope.
   */
  predicate Reflects(entry: Cached, latest: Refresh, success: Option<Refresh>) {
    && entry.status == (if latest.Success? then Fresh else Failed(latest.reason))
    && match success
       case Some(s) =>
         && s.Success? && entry.offerings == Retagged(s.delta) && entry.fetchedAt == s.delta.fetchedAt
         && entry.ttlSecs == s.ttlSecs
         && entry.provider == s.delta.provider && entry.baseUrlFingerprint == s.delta.baseUrlFingerprint
       case None =>
         && entry.offerings == [] && entry.fetchedAt == 0 && entry.ttlSecs == 0
         && CacheKey(entry.provider, entry.baseUrlFingerprint) == latest.Scope()
  }

  lemma {:induction false} ReplayExact(history: seq<Refresh>, scope: string)
    ensures Get(Replay(history), [scope]).Some? <==> Latest(history, scope).Some?
    ensures Get(Replay(history), [scope]).Some? ==>
              Reflects(Get(Replay(history), [scope]).value, Latest(history, scope).value, LatestSuccess(history, scope))
    decreases |history|
  {
    if history != [] {
      var earlier, e := history[..|history| - 1], history[|history| - 1];
      ReplayExact(earlier, scope);
      AppliedElsewhere(Replay(earlier), e, scope);
      if e.Scope() == scope { AppliedHere(Replay(earlier), e); }
    }
  }

  /** A refresh leaves every other scope untouched. */
  lemma AppliedElsewhere(m: Entries, e: Refresh, scope: string)
    ensures e.Scope() != scope ==> Get(Applied(m, e), [scope]) == Get(m, [scope])
  {
    assert [e.Scope()] == [scope] ==> [e.Scope()][0] == [scope][0];
    GetInsert(m, [e.Scope()], EntryAfter(m, e), [scope]);
  }

  /** A success replaces its scope's entry; a failure changes only its status. */
  lemma AppliedHere(m: Entries, e: Refresh)
    ensures Get(Applied(m, e), [e.Scope()]).Some?
    ensures var entry := Get(Applied(m, e), [e.Scope()]).value;
            match e
            case Success(d, ttl) => Reflects(entry, e, Some(e))
            case Failure(_, _, reason) =>
              if Get(m, [e.Scope()]).Some? then entry == Get(m, [e.Scope()]).value.(status := Failed(reason))
              else Reflects(entry, e, None)
  {
    GetInsert(m, [e.Scope()], EntryAfter(m, e), [e.Scope()]);
    if e.Failure? { KeyOfTrimmed(e.provider, e.fingerprint); }
  }

  lemma KeyOfTrimmed(provider: string, fingerprint: string)
    ensures CacheKey(Trim(provider), Trim(fingerprint)) == CacheKey(provider, fingerprint)
  {
  }

  /** A refresh whose rows may be served at `now`. */
  predicate Serving(r: Option<Refresh>, now: nat) {
    && r.Some? && r.value.Success?
    && (if now < r.value.delta.fetchedAt then 0 else now - r.value.delta.fetchedAt) < r.value.ttlSecs
  }

  /** What a scope's latest refresh says at `now`. */
  function StatusFrom(latest: Option<Refresh>, now: nat): Status {
    match latest
    case None => Status.Unknown
    case Some(Failure(_, _, reason)) => Failed(reason)
    case Some(Success(delta, ttl)) =>
      if Serving(latest, now) then Fresh else Stale(if now < delta.fetchedAt then 0 else now - delta.fetchedAt)
  }

  /** An entry that reflects its scope's history has the status and the rows that the history says. */
  lemma ReflectedStatus(found: Option<Cached>, latest: Option<Refresh>, success: Option<Refresh>, now: nat)
    requires found.Some? <==> latest.Some?
    requires found.Some? ==> Reflects(found.value, latest.value, success)
    requires latest.Some? && latest.value.Success? ==> success == latest
    ensures StatusOf(found, now) == StatusFrom(latest, now)
    ensures FreshRowsOf(found, now) == if Serving(latest, now) then Retagged(latest.value.delta) else []
  {
  }

  /** After any history a scope's status and served rows are those of its latest refresh alone. */
  lemma ServedExact(history: seq<Refresh>, scope: string, now: nat)
    ensures var (found, latest) := (Get(Replay(history), [scope]), Latest(history, scope));
            && StatusOf(found, now) == StatusFrom(latest, now)
            && FreshRowsOf(found, now) == (if Serving(latest, now) then Retagged(latest.value.delta) else [])
  {
    ReplayExact(history, scope);
    LatestIsLatestSuccess(history, scope);
    ReflectedStatus(Get(Replay(history), [scope]), Latest(history, scope), LatestSuccess(history, scope), now);
  }

  lemma {:induction false} LatestIsLatestSuccess(history: seq<Refresh>, scope: string)
    ensures Latest(history, scope).Some? && Latest(history, scope).value.Success?
            ==> LatestSuccess(history, scope) == Latest(history, scope)
    decreases |history|
  {
    if history != [] { LatestIsLatestSuccess(history[..|history| - 1], scope); }
  }

  // ---- The rows of all scopes together.

  lemma {:induction false} ReplaySorted(history: seq<Refresh>)
    ensures Sorted(Replay(history))
    decreases |history|
  {
    if history != [] {
      var m, e := Replay(history[..|history| - 1]), history[|history| - 1];
      ReplaySorted(history[..|history| - 1]);
      InsertSorted(m, [e.Scope()], EntryAfter(m, e));
    }
  }

  lemma {:induction false} ReplayKeys(history: seq<Refresh>)
    ensures forall x :: x in Replay(history) ==> |x.key| == 1
    decreases |history|
  {
    if history != [] {
      var m, e := Replay(history[..|history| - 1]), history[|history| - 1];
      ReplayKeys(history[..|history| - 1]);
      forall x | x in Replay(history) ensures |x.key| == 1 { InsertMembers(m, [e.Scope()], EntryAfter(m, e), x); }
    }
  }

  lemma {:induction false} AllFreshMember(m: Entries, now: nat, row: Offering)
    ensures row in AllFreshRowsIn(m, now) <==> exists x :: x in m && x.value.IsFresh(now) && row in x.value.offerings
  {
    if m != [] {
      AllFreshMember(m[1..], now, row);
      assert m == [m[0]] + m[1..];
    }
  }

  predicate ServedBy(history: seq<Refresh>, scope: string, now: nat, row: Offering) {
    Serving(Latest(history, scope), now) && row in Retagged(Latest(history, scope).value.delta)
  }

  /** An entry serves its scope's rows exactly when the scope's latest refresh is a live success. */
  lemma EntryServes(history: seq<Refresh>, scope: string, now: nat, row: Offering)
    ensures ServedBy(history, scope, now, row) <==> row in FreshRowsOf(Get(Replay(history), [scope]), now)
  {
    ServedExact(history, scope, now);
  }

  /** The live layer holds exactly the rows of scopes whose latest refresh is a success still within its lifetime. */
  lemma LiveLayerExact(history: seq<Refresh>, now: nat, row: Offering)
    ensures row in AllFreshRowsIn(Replay(history), now) <==> exists scope :: ServedBy(history, scope, now, row)
  {
    var m := Replay(history);
    AllFreshMember(m, now, row);
    ReplaySorted(history);
    if row in AllFreshRowsIn(m, now) {
      var x :| x in m && x.value.IsFresh(now) && row in x.value.offerings;
      ReplayKeys(history);
      GetMember(m, x);
      assert x.key == [x.key[0]];
      EntryServes(history, x.key[0], now, row);
    }
    if exists scope :: ServedBy(history, scope, now, row) {
      var scope :| ServedBy(history, scope, now, row);
      EntryServes(history, scope, now, row);
      var x := Entry([scope], Get(m, [scope]).value);
      GetMember(m, x);
      assert x in m && x.value.IsFresh(now) && row in x.value.offerings;
    }
  }

  /** Scope after scope in key order, each row once. */
  lemma {:induction false} LiveLayerOrder(m: Entries, x: Entry<Cached>, now: nat)
    ensures AllFreshRowsIn(m + [x], now)
         == AllFreshRowsIn(m, now) + if x.value.IsFresh(now) then x.value.offerings else []
    decreases |m|
  {
    if m == [] {
      assert m + [x] == [x] && [x][1..] == [];
    } else {
      assert (m + [x])[1..] == m[1..] + [x];
      LiveLayerOrder(m[1..], x, now);
    }
  }

  // ---- Scopes do not collide.

  lemma LastSeparator(a: string, b: string, c: string, d: string)
    requires SEPARATOR !in b && SEPARATOR !in d && a + [SEPARATOR] + b == c + [SEPARATOR] + d
    ensures a == c && b == d
  {
    var s, t := a + [SEPARATOR] + b, c + [SEPARATOR] + d;
    assert s[|a|] == SEPARATOR && t[|c|] == SEPARATOR;
    forall i | |a| < i < |s| ensures s[i] != SEPARATOR { assert s[i] == b[i - |a| - 1]; }
    forall i | |c| < i < |t| ensures t[i] != SEPARATOR { assert t[i] == d[i - |c| - 1]; }
    assert s[..|a|] == a && t[..|c|] == c && s[|a| + 1..] == b && t[|c| + 1..] == d;
  }

  /** Two scopes share a key exactly when provider and fingerprint agree, for fingerprints without the separator. */
  lemma ScopeExact(p: string, f: string, q: string, g: string)
    requires SEPARATOR !in f && SEPARATOR !in g
    ensures CacheKey(p, f) == CacheKey(q, g) <==> Trim(p) == Trim(q) && Trim(f) == Trim(g)
  {
    TrimSubset(f, SEPARATOR);
    TrimSubset(g, SEPARATOR);
    if CacheKey(p, f) == CacheKey(q, g) { LastSeparator(Trim(p), Trim(f), Trim(q), Trim(g)); }
  }

  lemma TrimSubset(s: string, c: char)
    requires c !in s
    ensures c !in Trim(s)
  {
    var t := TrimStartBy(IsWhitespace, s);
    assert forall x :: x in t ==> x in s;
  }

  lemma PlainTrimmed(s: string)
    requires forall c :: c in s ==> !IsWhitespace(c)
    ensures Trim(s) == s
  {
    assert TrimmedBy(IsWhitespace, s);
  }

  lemma DigestPlain(n: nat)
    ensures SEPARATOR !in Fnv.Hex(16, n) && Trim(Fnv.Hex(16, n)) == Fnv.Hex(16, n)
  {
    PlainTrimmed(Fnv.Hex(16, n));
  }

  /** The scopes the program records are under digests: they never collide, short of a digest collision. */
  lemma DigestScopesExact(p: string, a: Bytes, q: string, b: Bytes)
    ensures CacheKey(p, Fnv.Hex(16, Fnv.Hash(a))) == CacheKey(q, Fnv.Hex(16, Fnv.Hash(b)))
            <==> Trim(p) == Trim(q) && Fnv.Hash(a) == Fnv.Hash(b)
  {
    DigestPlain(Fnv.Hash(a));
    DigestPlain(Fnv.Hash(b));
    ScopeExact(p, Fnv.Hex(16, Fnv.Hash(a)), q, Fnv.Hex(16, Fnv.Hash(b)));
    Fnv.DigestTextInjective(a, b);
  }

  /** A separator that cuts a key into two trimmed texts. */
  predicate CutsAt(key: string, i: int) {
    0 <= i < |key| && key[i] == SEPARATOR && Trimmed(key[..i]) && Trimmed(key[i + 1..])
  }

  /** The parts that a cut separator stands between make that key. */
  lemma CutKey(key: string, i: nat)
    requires CutsAt(key, i)
    ensures CacheKey(key[..i], key[i + 1..]) == key
  {
    assert key == key[..i] + [SEPARATOR] + key[i + 1..];
  }

  lemma KeyCut(p: string, f: string)
    ensures CutsAt(CacheKey(p, f), |Trim(p)|)
    ensures CacheKey(p, f)[..|Trim(p)|] == Trim(p) && CacheKey(p, f)[|Trim(p)| + 1..] == Trim(f)
  {
  }

  /** Text of two different scopes under one key. */
  ghost predicate Shared(p: string, f: string) {
    exists q, g :: CacheKey(q, g) == CacheKey(p, f) && (Trim(q) != Trim(p) || Trim(g) != Trim(f))
  }

  /** For arbitrary text, another scope has the same key exactly when some other separator cuts it as well. */
  lemma SharedExact(p: string, f: string)
    ensures Shared(p, f) <==> exists i :: i != |Trim(p)| && CutsAt(CacheKey(p, f), i)
  {
    var key := CacheKey(p, f);
    KeyCut(p, f);
    if q, g :| CacheKey(q, g) == key && (Trim(q) != Trim(p) || Trim(g) != Trim(f)) {
      KeyCut(q, g);
      assert |Trim(q)| != |Trim(p)|;
    }
    if i :| i != |Trim(p)| && CutsAt(key, i) {
      CutKey(key, i);
      assert Trim(key[..i]) == key[..i] && |key[..i]| == i;
    }
  }

  /** Such text exists: a separator in the provider can imitate the one before the fingerprint. */
  lemma ScopeCollision()
    ensures CacheKey("a" + [SEPARATOR] + "b", "c") == CacheKey("a", "b" + [SEPARATOR] + "c")
    ensures Shared("a" + [SEPARATOR] + "b", "c")
  {
    var p, f := "a" + [SEPARATOR] + "b", "b" + [SEPARATOR] + "c";
    assert TrimmedBy(IsWhitespace, p) && TrimmedBy(IsWhitespace, f);
    assert TrimmedBy(IsWhitespace, "a") && TrimmedBy(IsWhitespace, "c");
    assert |Trim(p)| != |Trim("a")|;
  }
}
