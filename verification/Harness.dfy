/** Model-pattern matching of harness profiles: the greedy one-star glob matcher. */
module Harness {
  import opened Wrappers
  import opened Text

  /** What a pattern means: `*` is any run, `?` any one character, anything else itself. */
  predicate Accepts(p: string, v: string)
    decreases |p| + |v|
  {
    if p == "" then v == ""
    else if p[0] == '*' then Accepts(p[1..], v) || (v != "" && Accepts(p, v[1..]))
    else v != "" && (p[0] == '?' || p[0] == v[0]) && Accepts(p[1..], v[1..])
  }

  /** The loop's variables: pattern index, value index, remembered star, value index of the star. */
  datatype Cursor = Cursor(pi: nat, vi: nat, star: Option<nat>, sv: nat) {
    /** Where the pattern after the remembered star begins; 0 before any star. */
    function Base(): nat { if star.Some? then star.value + 1 else 0 }

    /** The text after the star has been walked in step with the value. */
    predicate Valid(p: string, v: string) {
      Base() <= pi <= |p| && sv <= vi <= |v| && vi - sv == pi - Base() && (star.None? ==> sv == 0) &&
      (star.Some? ==> p[star.value] == '*')
    }
  }

  const START := Cursor(0, 0, None, 0)

  /** One loop iteration; None is the early `return false`. */
  function Step(p: string, v: string, c: Cursor): (r: Option<Cursor>)
    requires c.Valid(p, v) && c.vi < |v|
    ensures r.Some? ==> r.value.Valid(p, v)
  {
    if c.pi < |p| && (p[c.pi] == '?' || p[c.pi] == v[c.vi]) then
      Some(c.(pi := c.pi + 1, vi := c.vi + 1))
    else if c.pi < |p| && p[c.pi] == '*' then
      Some(Cursor(c.pi + 1, c.vi, Some(c.pi), c.vi))
    else if c.star.Some? then
      Some(Cursor(c.star.value + 1, c.sv + 1, c.star, c.sv + 1))
    else
      None
  }

  predicate AllStars(p: string) { forall i :: 0 <= i < |p| ==> p[i] == '*' }

  /** The rest of the loop from cursor `c`, and the check after it. */
  predicate Run(p: string, v: string, c: Cursor)
    requires c.Valid(p, v)
    decreases |p| - c.Base(), |v| - c.sv, |v| - c.vi
  {
    if c.vi == |v| then AllStars(p[c.pi..])
    else match Step(p, v, c) case None => false case Some(d) => Run(p, v, d)
  }

  /** How many iterations the rest of the loop makes. */
  function Iterations(p: string, v: string, c: Cursor): nat
    requires c.Valid(p, v)
    decreases |p| - c.Base(), |v| - c.sv, |v| - c.vi
  {
    if c.vi == |v| then 0
    else match Step(p, v, c) case None => 1 case Some(d) => 1 + Iterations(p, v, d)
  }

  predicate Greedy(p: string, v: string) { Run(p, v, START) }

  /** `iterations` counts how often the loop body is entered. */
  method WildcardCharsMatch(pattern: string, value: string) returns (matched: bool, ghost iterations: nat)
    ensures matched == Greedy(pattern, value)
    ensures iterations == Iterations(pattern, value, START) <= (|pattern| + 1) * |value|
  {
    IterationBound(pattern, value);
    iterations := 0;
    var patternIdx: nat, valueIdx: nat := 0, 0;
    var starIdx: Option<nat> := None;
    var starValueIdx: nat := 0;
    ghost var c := START;
    while valueIdx < |value|
      invariant c == Cursor(patternIdx, valueIdx, starIdx, starValueIdx) && c.Valid(pattern, value)
      invariant Run(pattern, value, c) == Greedy(pattern, value)
      invariant iterations + Iterations(pattern, value, c) == Iterations(pattern, value, START)
      decreases |pattern| - c.Base(), |value| - c.sv, |value| - c.vi
    {
      iterations := iterations + 1;
      ghost var next := Step(pattern, value, c);
      if patternIdx < |pattern| && (pattern[patternIdx] == '?' || pattern[patternIdx] == value[valueIdx]) {
        patternIdx := patternIdx + 1;
        valueIdx := valueIdx + 1;
      } else if patternIdx < |pattern| && pattern[patternIdx] == '*' {
        starIdx := Some(patternIdx);
        patternIdx := patternIdx + 1;
        starValueIdx := valueIdx;
      } else if starIdx.Some? {
        patternIdx := starIdx.value + 1;
        starValueIdx := starValueIdx + 1;
        valueIdx := starValueIdx;
      } else {
        return false, iterations;
      }
      c := next.value;
    }
    matched := AllStars(pattern[patternIdx..]);
  }

  method WildcardPatternMatches(pattern: string, value: string) returns (matched: bool)
    ensures matched ==> Accepts(pattern, value)
    ensures '*' !in pattern || '*' !in value ==> matched == Accepts(pattern, value)
  {
    Sound(pattern, value);
    if NoClash(pattern, value) { Complete(pattern, value); }
    ghost var iterations;
    matched, iterations := WildcardCharsMatch(pattern, value);
  }

  /** The route part of a profile; its posture plays no part in matching. */
  datatype HarnessProfile = HarnessProfile(providerRoute: string, modelPattern: string)

  /** `parse` is the table lookup that recognises a provider's names. */
  predicate ProviderRoutesEqual(parse: string -> Option<int>, expected: string, actual: string) {
    match (parse(expected), parse(actual))
    case (Some(e), Some(a)) => e == a
    case _ => EqIgnoreCase(Trim(expected), Trim(actual))
  }

  method MatchesRoute(parse: string -> Option<int>, profile: HarnessProfile, route: string, model: string)
    returns (matched: bool)
    ensures '*' !in model ==>
              matched
              == (ProviderRoutesEqual(parse, profile.providerRoute, route) && Accepts(profile.modelPattern, model))
    ensures matched ==> ProviderRoutesEqual(parse, profile.providerRoute, route) && Accepts(profile.modelPattern, model)
  {
    matched := ProviderRoutesEqual(parse, profile.providerRoute, route);
    if matched { matched := WildcardPatternMatches(profile.modelPattern, model); }
  }

  /** Route equality is an equivalence as long as the table ignores case and outer whitespace. */
  lemma RoutesEqualEquivalence(parse: string -> Option<int>, a: string, b: string, c: string)
    requires forall x, y :: EqIgnoreCase(Trim(x), Trim(y)) ==> parse(x) == parse(y)
    ensures ProviderRoutesEqual(parse, a, a)
    ensures ProviderRoutesEqual(parse, a, b) <==> ProviderRoutesEqual(parse, b, a)
    ensures ProviderRoutesEqual(parse, a, b) && ProviderRoutesEqual(parse, b, c) ==> ProviderRoutesEqual(parse, a, c)
  {
    assert EqIgnoreCase(Trim(a), Trim(b)) ==> parse(a) == parse(b);
    assert EqIgnoreCase(Trim(b), Trim(c)) ==> parse(b) == parse(c);
  }

  // ---- Cost: every input, with or without stars in the value.

  /** Restarts of the current star still possible, times the pattern left, bound the iterations left. */
  lemma {:induction false} IterationsFrom(p: string, v: string, c: Cursor)
    requires c.Valid(p, v) && c.vi < |v|
    ensures Iterations(p, v, c) <= (|p| + 1 - c.Base()) * (|v| - c.sv) - (c.pi - c.Base())
    decreases |p| - c.Base(), |v| - c.sv, |v| - c.vi
  {
    var n, w, d := |p| + 1 - c.Base(), |v| - c.sv, c.pi - c.Base();
    StarBudget(n, w, d);
    match Step(p, v, c) {
      case None =>
      case Some(e) => if e.vi < |v| { IterationsFrom(p, v, e); }
    }
  }

  lemma StarBudget(n: nat, w: nat, d: nat)
    requires d < n && d < w
    ensures d + 1 <= n * w
    ensures 1 + (n - 1 - d) * (w - d) <= n * w - d
    ensures 1 + n * (w - 1) <= n * w - d
  {
    var m, u := n - 1 - d, w - d;
    assert n * w == m * u + (m * d + (1 + d) * w);
    assert m * d >= 0 && m * u >= 0 && d * w >= 0;
  }

  /** The matcher never makes more than (|p| + 1) * |v| iterations. */
  lemma IterationBound(p: string, v: string)
    ensures Iterations(p, v, START) <= (|p| + 1) * |v|
  {
    if v != "" { IterationsFrom(p, v, START); }
  }

  // ---- Soundness: a greedy match is a match.

  lemma {:induction false} StarAbsorbs(p: string, v: string, i: nat, from: nat, to: nat)
    requires i < |p| && p[i] == '*' && from <= to <= |v|
    requires Accepts(p[i + 1..], v[to..])
    ensures Accepts(p[i..], v[from..])
    decreases |v| - from
  {
    assert p[i..][1..] == p[i + 1..];
    if from < to {
      StarAbsorbs(p, v, i, from + 1, to);
      assert v[from..][1..] == v[from + 1..];
    }
  }

  lemma AllStarsAccept(p: string)
    requires AllStars(p)
    ensures Accepts(p, "")
  {
    if p != "" { AllStarsAccept(p[1..]); }
  }

  predicate AcceptsFrom(p: string, v: string, i: nat, k: nat) {
    i <= |p| && k <= |v| && Accepts(p[i..], v[k..])
  }

  /** From here on, accepting what is left, or any retry of the remembered star, accepts the whole. */
  ghost predicate Justified(p: string, v: string, c: Cursor)
    requires c.Valid(p, v)
  {
    && (AcceptsFrom(p, v, c.pi, c.vi) ==> Accepts(p, v))
    && (c.star.Some? ==> forall k :: c.sv <= k && AcceptsFrom(p, v, c.Base(), k) ==> Accepts(p, v))
  }

  lemma Advance(p: string, v: string, i: nat, k: nat)
    requires i < |p| && k < |v| && (p[i] == '?' || p[i] == v[k]) && AcceptsFrom(p, v, i + 1, k + 1)
    ensures AcceptsFrom(p, v, i, k)
  {
    assert p[i..][1..] == p[i + 1..] && v[k..][1..] == v[k + 1..];
    if p[i] == '*' { StarAbsorbs(p, v, i, k, k + 1); }
  }

  lemma StarStep(p: string, v: string, i: nat, from: nat, k: nat)
    requires i < |p| && p[i] == '*' && from <= k && AcceptsFrom(p, v, i + 1, k)
    ensures AcceptsFrom(p, v, i, from)
  {
    StarAbsorbs(p, v, i, from, k);
  }

  lemma StepJustified(p: string, v: string, c: Cursor)
    requires c.Valid(p, v) && c.vi < |v| && Justified(p, v, c) && Step(p, v, c).Some?
    ensures Justified(p, v, Step(p, v, c).value)
  {
    var d := Step(p, v, c).value;
    if c.pi < |p| && (p[c.pi] == '?' || p[c.pi] == v[c.vi]) {
      assert d == Cursor(c.pi + 1, c.vi + 1, c.star, c.sv);
      if AcceptsFrom(p, v, c.pi + 1, c.vi + 1) { Advance(p, v, c.pi, c.vi); }
    } else if c.pi < |p| && p[c.pi] == '*' {
      var next := c.pi + 1;
      assert d == Cursor(next, c.vi, Some(c.pi), c.vi);
      forall k | c.vi <= k && AcceptsFrom(p, v, next, k) ensures Accepts(p, v) {
        StarStep(p, v, c.pi, c.vi, k);
      }
    } else {
      assert d == Cursor(c.Base(), c.sv + 1, c.star, c.sv + 1);
    }
  }

  lemma {:induction false} SoundFrom(p: string, v: string, c: Cursor)
    requires c.Valid(p, v) && Justified(p, v, c) && Run(p, v, c)
    ensures Accepts(p, v)
    decreases |p| - c.Base(), |v| - c.sv, |v| - c.vi
  {
    if c.vi == |v| {
      AllStarsAccept(p[c.pi..]);
      assert v[c.vi..] == "";
    } else {
      StepJustified(p, v, c);
      SoundFrom(p, v, Step(p, v, c).value);
    }
  }

  lemma Sound(p: string, v: string)
    ensures Greedy(p, v) ==> Accepts(p, v)
  {
    assert p[0..] == p && v[0..] == v;
    if Greedy(p, v) { SoundFrom(p, v, START); }
  }

  // ---- Completeness: one remembered star is enough, unless both sides contain a star.

  predicate NoClash(p: string, v: string) { '*' !in p || '*' !in v }

  /** Text between the base and `pi` is star-free and agrees with the value walked since `sv`. */
  ghost predicate Walked(p: string, v: string, c: Cursor)
    requires c.Valid(p, v)
  {
    forall i :: c.Base() <= i < c.pi ==> p[i] != '*' && (p[i] == '?' || p[i] == v[c.sv + i - c.Base()])
  }

  /** `k` is a retry of the remembered star, or the only start there is, and accepts. */
  predicate Retry(p: string, v: string, c: Cursor, k: nat)
    requires c.Valid(p, v)
  {
    c.sv <= k && (c.star.None? ==> k == 0) && AcceptsFrom(p, v, c.Base(), k)
  }

  /** The whole is accepted by some retry of the remembered star at or after `sv`. */
  ghost predicate Pending(p: string, v: string, c: Cursor)
    requires c.Valid(p, v)
  {
    exists k: nat :: Retry(p, v, c, k)
  }

  /** Star-free pattern text consumes one character each. */
  lemma {:induction false} Consume(p: string, v: string, i: nat, j: nat, k: nat)
    requires i <= j <= |p| && k <= |v|
    requires forall x :: i <= x < j ==> p[x] != '*'
    ensures Accepts(p[i..], v[k..]) ==> k + j - i <= |v| && Accepts(p[j..], v[k + j - i..])
    decreases j - i
  {
    if i < j && Accepts(p[i..], v[k..]) {
      assert p[i..][1..] == p[i + 1..] && v[k..][1..] == v[k + 1..];
      Consume(p, v, i + 1, j, k + 1);
    }
  }

  lemma {:induction false} StarChooses(p: string, v: string, i: nat, k: nat) returns (m: nat)
    requires i < |p| && p[i] == '*' && k <= |v| && Accepts(p[i..], v[k..])
    ensures k <= m <= |v| && Accepts(p[i + 1..], v[m..])
    decreases |v| - k
  {
    assert p[i..][1..] == p[i + 1..];
    if Accepts(p[i + 1..], v[k..]) {
      m := k;
    } else {
      assert v[k..][1..] == v[k + 1..];
      m := StarChooses(p, v, i, k + 1);
    }
  }

  /** The retry that accepts, carried forward over the text already walked. */
  lemma RetryReaches(p: string, v: string, c: Cursor) returns (k: nat)
    requires c.Valid(p, v) && Pending(p, v, c) && Walked(p, v, c)
    ensures Retry(p, v, c, k) && AcceptsFrom(p, v, c.pi, k + c.pi - c.Base())
  {
    k :| Retry(p, v, c, k);
    Consume(p, v, c.Base(), c.pi, k);
  }

  lemma StepWalked(p: string, v: string, c: Cursor)
    requires NoClash(p, v) && c.Valid(p, v) && c.vi < |v| && Walked(p, v, c) && Step(p, v, c).Some?
    ensures Walked(p, v, Step(p, v, c).value)
  {
    if c.pi < |p| && p[c.pi] == '*' { assert p[c.pi] in p && v[c.vi] in v; }
  }

  lemma ConsumeKeepsRetry(p: string, v: string, c: Cursor, k: nat)
    requires c.Valid(p, v) && c.vi < |v| && Retry(p, v, c, k)
    requires c.pi < |p| && (p[c.pi] == '?' || p[c.pi] == v[c.vi])
    ensures Step(p, v, c).Some? && Retry(p, v, Step(p, v, c).value, k)
  {
  }

  lemma StarStartsRetry(p: string, v: string, c: Cursor, k: nat) returns (m: nat)
    requires c.Valid(p, v) && c.vi < |v| && c.sv <= k && AcceptsFrom(p, v, c.pi, k + c.pi - c.Base())
    requires c.pi < |p| && p[c.pi] == '*' && p[c.pi] != v[c.vi]
    ensures Step(p, v, c).Some? && Retry(p, v, Step(p, v, c).value, m)
  {
    m := StarChooses(p, v, c.pi, k + c.pi - c.Base());
  }

  /** Restarting at `sv` fails where nothing matches, so the good retry is a later one. */
  lemma MismatchKeepsRetry(p: string, v: string, c: Cursor, k: nat)
    requires c.Valid(p, v) && c.vi < |v| && Retry(p, v, c, k) && AcceptsFrom(p, v, c.pi, k + c.pi - c.Base())
    requires c.pi < |p| ==> p[c.pi] != '*' && p[c.pi] != '?' && p[c.pi] != v[c.vi]
    ensures Step(p, v, c).Some? && Retry(p, v, Step(p, v, c).value, k)
  {
    NotHere(p, v, c.pi, c.vi);
    assert k > c.sv;
  }

  lemma StepPending(p: string, v: string, c: Cursor)
    requires NoClash(p, v) && c.Valid(p, v) && c.vi < |v| && Walked(p, v, c) && Pending(p, v, c)
    ensures Step(p, v, c).Some? && Pending(p, v, Step(p, v, c).value)
  {
    var k := RetryReaches(p, v, c);
    if c.pi < |p| && (p[c.pi] == '?' || p[c.pi] == v[c.vi]) {
      ConsumeKeepsRetry(p, v, c, k);
    } else if c.pi < |p| && p[c.pi] == '*' {
      var m := StarStartsRetry(p, v, c, k);
    } else {
      MismatchKeepsRetry(p, v, c, k);
    }
  }

  lemma NotHere(p: string, v: string, i: nat, j: nat)
    requires i <= |p| && j < |v| && (i < |p| ==> p[i] != '*' && p[i] != '?' && p[i] != v[j])
    ensures !AcceptsFrom(p, v, i, j)
  {
  }

  lemma {:induction false} CompleteFrom(p: string, v: string, c: Cursor)
    requires NoClash(p, v) && c.Valid(p, v) && Walked(p, v, c) && Pending(p, v, c)
    ensures Run(p, v, c)
    decreases |p| - c.Base(), |v| - c.sv, |v| - c.vi
  {
    if c.vi == |v| {
      var k := RetryReaches(p, v, c);
      assert v[|v|..] == "";
      EmptyMeansStars(p[c.pi..]);
    } else {
      StepPending(p, v, c);
      StepWalked(p, v, c);
      CompleteFrom(p, v, Step(p, v, c).value);
    }
  }

  lemma {:induction false} EmptyMeansStars(p: string)
    requires Accepts(p, "")
    ensures AllStars(p)
  {
    if p != "" {
      EmptyMeansStars(p[1..]);
      assert forall i :: 1 <= i < |p| ==> p[i] == p[1..][i - 1];
    }
  }

  lemma Complete(p: string, v: string)
    requires NoClash(p, v)
    ensures Greedy(p, v) == Accepts(p, v)
  {
    Sound(p, v);
    assert p[0..] == p && v[0..] == v;
    if Accepts(p, v) {
      assert Retry(p, v, START, 0);
      CompleteFrom(p, v, START);
    }
  }

  // ---- Exactness: a star in the value, or in the pattern, always breaks some match.

  /** Characters compared literally are all consumed before any star is remembered. */
  lemma {:induction false} RunLiterally(p: string, v: string, i: nat, n: nat)
    requires i <= n <= |p| && n <= |v|
    requires forall x :: i <= x < n ==> p[x] == '?' || p[x] == v[x]
    ensures Run(p, v, Cursor(i, i, None, 0)) == Run(p, v, Cursor(n, n, None, 0))
    decreases n - i
  {
    if i < n { RunLiterally(p, v, i + 1, n); }
  }

  lemma {:induction false} AcceptsAligned(p: string, v: string)
    requires |p| == |v| && forall i :: 0 <= i < |p| ==> p[i] == '?' || p[i] == v[i]
    ensures Accepts(p, v)
  {
    if p != "" {
      AcceptsAligned(p[1..], v[1..]);
      if p[0] == '*' { assert Accepts(p, v[1..]); }
    }
  }

  /** A star compared with a star is spent as a literal: the pattern meant to skip it is refused. */
  lemma {:induction false} LiteralStarRefused(v: string, k: nat) returns (p: string)
    requires k < |v| && v[k] == '*' && '*' !in v[..k]
    ensures Accepts(p, v) && !Greedy(p, v)
  {
    p := Repeated('?', k) + "*" + Repeated('?', |v| - k);
    RunLiterally(p, v, 0, |v|);
    assert p[|v|..][0] == '?';
    assert p[k + 1..] == Repeated('?', |v| - k);
    AcceptsAligned(p[k + 1..], v[k..]);
    StarAbsorbs(p, v, k, k, k);
    AcceptsPrefix(p, v, 0, k);
    assert p[0..] == p && v[0..] == v;
  }

  lemma {:induction false} AcceptsPrefix(p: string, v: string, i: nat, n: nat)
    requires i <= n <= |p| && n <= |v| && forall x :: i <= x < n ==> p[x] == '?' || (p[x] == v[x] && p[x] != '*')
    requires Accepts(p[n..], v[n..])
    ensures Accepts(p[i..], v[i..])
    decreases n - i
  {
    if i < n {
      AcceptsPrefix(p, v, i + 1, n);
      assert p[i..][1..] == p[i + 1..] && v[i..][1..] == v[i + 1..];
    }
  }

  /** The matcher agrees with the meaning for every pattern exactly on the values without a star. */
  lemma ValueExact(v: string)
    ensures (forall p :: Greedy(p, v) == Accepts(p, v)) <==> '*' !in v
  {
    if '*' !in v {
      forall p ensures Greedy(p, v) == Accepts(p, v) { Complete(p, v); }
    } else {
      var k :| 0 <= k < |v| && v[k] == '*';
      while k > 0 && '*' in v[..k]
        invariant 0 <= k < |v| && v[k] == '*'
      {
        var j :| 0 <= j < k && v[..k][j] == '*';
        k := j;
      }
      var p := LiteralStarRefused(v, k);
    }
  }

  /** The pattern read as a literal, `?` filled in. */
  function Literal(p: string): (s: string)
    ensures |s| == |p| && forall i :: 0 <= i < |p| ==> s[i] == if p[i] == '?' then 'a' else p[i]
  {
    seq(|p|, i requires 0 <= i < |p| => if p[i] == '?' then 'a' else p[i])
  }

  /** A value that starts with the pattern's own text and goes on is refused, though the star covers it. */
  lemma {:induction false} OwnTextRefused(p: string, k: nat) returns (v: string)
    requires k < |p| && p[k] == '*' && '*' !in p[..k]
    ensures Accepts(p, v) && !Greedy(p, v)
  {
    var tail := Literal(p[k + 1..]);
    v := Literal(p) + "x" + tail;
    RunLiterally(p, v, 0, |p|);
    assert Step(p, v, Cursor(|p|, |p|, None, 0)) == None;
    var at := |p| + 1;
    assert v[at..] == tail;
    AcceptsAligned(p[k + 1..], tail);
    StarAbsorbs(p, v, k, k, at);
    assert forall x :: 0 <= x < k ==> p[x] == p[..k][x];
    AcceptsPrefix(p, v, 0, k);
    assert p[0..] == p && v[0..] == v;
  }

  /** The matcher agrees with the meaning for every value exactly on the patterns without a star. */
  lemma PatternExact(p: string)
    ensures (forall v :: Greedy(p, v) == Accepts(p, v)) <==> '*' !in p
  {
    if '*' !in p {
      forall v ensures Greedy(p, v) == Accepts(p, v) { Complete(p, v); }
    } else {
      var k :| 0 <= k < |p| && p[k] == '*';
      while k > 0 && '*' in p[..k]
        invariant 0 <= k < |p| && p[k] == '*'
      {
        var j :| 0 <= j < k && p[..k][j] == '*';
        k := j;
      }
      var v := OwnTextRefused(p, k);
    }
  }
}
