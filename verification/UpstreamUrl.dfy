/** Upstream URLs: the version segment of a base URL, and the path put after it. */
module UpstreamUrl {
  import opened Wrappers
  import opened Text

  const V1 := "v1"
  const CHAT := "/chat/completions"

  /** A text cut at its last slash. */
  datatype Cut = Bare(segment: string) | Under(base: string, segment: string)

  predicate NotSlash(c: char) { c != '/' }

  function CutLast(s: string): (c: Cut)
    ensures '/' !in c.segment
    ensures c.Bare? ==> s == c.segment
    ensures c.Under? ==> s == c.base + "/" + c.segment
  {
    var n := KeepTo(NotSlash, s, |s|);
    if n == 0 then Bare(s) else Under(s[..n - 1], s[n..])
  }

  predicate IsBeta(segment: string) { EqIgnoreCase(segment, "beta") }

  predicate IsNumbered(segment: string) {
    |segment| >= 2 && (segment[0] == 'v' || segment[0] == 'V') && forall i :: 1 <= i < |segment| ==> IsDigit(segment[i])
  }

  predicate IsVersionSegment(segment: string) { IsBeta(segment) || IsNumbered(segment) }

  function TrimSlashes(s: string): string { TrimEndBy(IsSlash, s) }

  predicate Slashes(s: string) { forall i :: 0 <= i < |s| ==> s[i] == '/' }

  function VersionedBaseUrl(baseUrl: string): string { Versioned(TrimSlashes(baseUrl)) }

  function Versioned(trimmed: string): string {
    if IsVersionSegment(CutLast(trimmed).segment) then trimmed else trimmed + "/" + V1
  }

  function UnversionedBaseUrl(baseUrl: string): string { Unversioned(TrimSlashes(baseUrl)) }

  function Unversioned(trimmed: string): string {
    var c := CutLast(trimmed);
    if c.Under? && IsVersionSegment(c.segment) then c.base else trimmed
  }

  function UpstreamUrl(baseUrl: string, pathSuffix: Option<string>): string {
    var base := TrimSlashes(baseUrl);
    if pathSuffix.Some? && !Blank(pathSuffix.value) then
      UnversionedBaseUrl(base) + "/" + TrimStartBy(IsSlash, pathSuffix.value)
    else Default(VersionedBaseUrl(base), UnversionedBaseUrl(base))
  }

  /** The default path: a `beta` segment gives way to `v1`. */
  function Default(versioned: string, unversioned: string): string {
    var chosen := if IsBeta(CutLast(versioned).segment) then unversioned + "/" + V1 else versioned;
    TrimSlashes(chosen) + CHAT
  }

  function DefaultUrl(base: string): string { Default(VersionedBaseUrl(base), UnversionedBaseUrl(base)) }

  // ---- Cutting.

  lemma CutUnder(base: string, segment: string)
    requires '/' !in segment
    ensures CutLast(base + "/" + segment) == Under(base, segment)
  {
    var s := base + "/" + segment;
    assert s[|base|] == '/';
    assert forall k :: |base| < k < |s| ==> s[k] == segment[k - |base| - 1] && s[k] in segment;
    assert KeepTo(NotSlash, s, |s|) == |base| + 1;
    assert s[..|base|] == base && s[|base| + 1..] == segment;
  }

  lemma NumberedFacts(segment: string)
    requires IsNumbered(segment)
    ensures '/' !in segment && !IsBeta(segment)
  {
    assert Lower(segment)[1] == LowerChar(segment[1]) == segment[1];
  }

  lemma NumberedExact(letter: char, digits: string)
    ensures IsNumbered([letter] + digits) <==>
            (letter == 'v' || letter == 'V') && digits != ""
            && forall i :: 0 <= i < |digits| ==> '0' <= digits[i] <= '9'
  {
    var segment := [letter] + digits;
    assert forall i :: 0 <= i < |digits| ==> segment[i + 1] == digits[i];
    assert forall i :: 1 <= i < |segment| ==> segment[i] == digits[i - 1];
  }

  /** A version segment is `v` or `V` with a numeral behind it, or `beta` in any case. */
  lemma VersionSegmentExact(letter: char, digits: string)
    ensures IsVersionSegment([letter] + digits) <==>
            (Lower([letter] + digits) == "beta") ||
            ((letter == 'v' || letter == 'V') && digits != ""
             && forall i :: 0 <= i < |digits| ==> '0' <= digits[i] <= '9')
    ensures !IsVersionSegment("")
  {
    NumberedExact(letter, digits);
    assert Lower("beta") == "beta";
  }

  lemma BetaFacts(segment: string)
    requires IsBeta(segment)
    ensures segment != "" && !IsNumbered(segment)
  {
    assert |segment| == |Lower(segment)| == 4;
    if IsNumbered(segment) { NumberedFacts(segment); }
  }

  lemma V1Facts()
    ensures IsNumbered(V1) && IsVersionSegment(V1) && !IsBeta(V1) && '/' !in V1
  {
    assert V1[0] == 'v' && V1[1] == '1';
    NumberedFacts(V1);
  }

  /** Text that ends in a version segment does not end in a slash. */
  lemma KeepsEnd(s: string, segment: string)
    requires segment != "" && '/' !in segment && |segment| <= |s| && s[|s| - |segment|..] == segment
    ensures TrimSlashes(s) == s
  {
    assert s[|s| - 1] == segment[|segment| - 1];
    assert segment[|segment| - 1] in segment;
  }

  lemma TrimmedTwice(s: string)
    ensures TrimSlashes(TrimSlashes(s)) == TrimSlashes(s)
  {
  }

  lemma V1Appended(t: string)
    ensures CutLast(t + "/" + V1) == Under(t, V1) && TrimSlashes(t + "/" + V1) == t + "/" + V1
  {
    V1Facts();
    CutUnder(t, V1);
    KeepsEnd(t + "/" + V1, V1);
  }

  // ---- The canonical forms.

  /** Adding a version is idempotent, and taking it off forgets whether it had been added. */
  lemma VersionedExact(b: string)
    ensures VersionedBaseUrl(VersionedBaseUrl(b)) == VersionedBaseUrl(b)
    ensures UnversionedBaseUrl(VersionedBaseUrl(b)) == UnversionedBaseUrl(b)
    ensures IsVersionSegment(CutLast(VersionedBaseUrl(b)).segment)
    ensures TrimSlashes(VersionedBaseUrl(b)) == VersionedBaseUrl(b)
  {
    var t := TrimSlashes(b);
    TrimmedTwice(b);
    if !IsVersionSegment(CutLast(t).segment) {
      V1Appended(t);
      V1Facts();
    }
  }

  /** The URL does not depend on whether the base already carried its version. */
  lemma BaseFormIrrelevant(b: string, pathSuffix: Option<string>)
    ensures UpstreamUrl(VersionedBaseUrl(b), pathSuffix) == UpstreamUrl(b, pathSuffix)
  {
    TrimmedTwice(b);
    VersionedExact(b);
    assert VersionedBaseUrl(TrimSlashes(b)) == VersionedBaseUrl(b);
    assert UnversionedBaseUrl(TrimSlashes(b)) == UnversionedBaseUrl(b);
  }

  lemma SlashesAppended(b: string, slashes: string)
    requires Slashes(slashes)
    ensures TrimSlashes(b + slashes) == TrimSlashes(b)
  {
    var (s, n) := (b + slashes, KeepTo(IsSlash, b + slashes, |b + slashes|));
    var m := KeepTo(IsSlash, b, |b|);
    assert forall k :: |b| <= k < |s| ==> s[k] == slashes[k - |b|];
    assert forall k :: 0 <= k < |b| ==> s[k] == b[k];
    assert n == m;
    assert s[..m] == b[..m];
  }

  lemma TrailingSlashesIrrelevant(b: string, slashes: string, pathSuffix: Option<string>)
    requires Slashes(slashes)
    ensures UpstreamUrl(b + slashes, pathSuffix) == UpstreamUrl(b, pathSuffix)
  {
    SlashesAppended(b, slashes);
  }

  // ---- Where the default URL ends.

  ghost predicate EndsVersioned(url: string) {
    exists front, segment :: IsNumbered(segment) && url == front + "/" + segment + CHAT
  }

  lemma EndsBy(front: string, segment: string)
    requires IsNumbered(segment)
    ensures EndsVersioned(front + "/" + segment + CHAT)
  {
  }

  lemma CancelChat(a: string, b: string)
    ensures a + CHAT == b + CHAT ==> a == b
  {
    assert (a + CHAT)[..|a|] == a && (b + CHAT)[..|b|] == b;
  }

  lemma BareDoesNotEnd(t: string)
    requires '/' !in t
    ensures !EndsVersioned(t + CHAT)
  {
    forall front: string, segment: string ensures t + CHAT != front + "/" + segment + CHAT {
      var whole := front + "/" + segment;
      assert whole[|front|] == '/';
      CancelChat(t, whole);
    }
  }

  /** The default URL, by what the trimmed base ends in. */
  function Shape(t: string, c: Cut): string {
    if IsNumbered(c.segment) then t + CHAT
    else if IsBeta(c.segment) then (if c.Under? then c.base else t) + "/" + V1 + CHAT
    else t + "/" + V1 + CHAT
  }

  lemma DefaultShape(t: string)
    requires TrimSlashes(t) == t
    ensures DefaultUrl(t) == Shape(t, CutLast(t))
  {
    var c := CutLast(t);
    if IsNumbered(c.segment) {
      NumberedFacts(c.segment);
    } else if IsBeta(c.segment) {
      V1Appended(if c.Under? then c.base else t);
    } else {
      V1Appended(t);
      V1Facts();
    }
  }

  lemma ShapeEnds(t: string, c: Cut)
    requires c.Bare? ==> c.segment == t && !IsNumbered(t)
    requires c.Under? ==> t == c.base + "/" + c.segment
    ensures EndsVersioned(Shape(t, c))
  {
    V1Facts();
    if IsNumbered(c.segment) {
      EndsBy(c.base, c.segment);
    } else if IsBeta(c.segment) {
      EndsBy(if c.Under? then c.base else t, V1);
    } else {
      EndsBy(t, V1);
    }
  }

  lemma BareCut(t: string)
    ensures CutLast(t).Bare? <==> '/' !in t
  {
    var c := CutLast(t);
    if c.Under? { assert t[|c.base|] == '/'; }
  }

  lemma DefaultUrlTrimmed(t: string)
    requires TrimSlashes(t) == t
    ensures EndsVersioned(DefaultUrl(t)) <==> !IsNumbered(t)
  {
    DefaultShape(t);
    BareCut(t);
    if IsNumbered(t) {
      NumberedFacts(t);
      BareDoesNotEnd(t);
    } else {
      ShapeEnds(t, CutLast(t));
    }
  }

  /** The default URL ends in `/v<digits>/chat/completions` unless the whole trimmed base is `v<digits>`. */
  lemma DefaultUrlExact(baseUrl: string)
    ensures EndsVersioned(UpstreamUrl(baseUrl, None)) <==> !IsNumbered(TrimSlashes(baseUrl))
  {
    TrimmedTwice(baseUrl);
    DefaultUrlTrimmed(TrimSlashes(baseUrl));
  }

  /** A bare version as base. */
  lemma BareVersionExample()
    ensures UpstreamUrl(V1, None) == V1 + CHAT && !EndsVersioned(V1 + CHAT)
  {
    V1Facts();
    BareDoesNotEnd(V1);
    BareCut(V1);
    KeepsEnd(V1, V1);
    DefaultShape(V1);
    TrimmedTwice(V1);
  }

  // ---- A path of one's own.

  lemma {:induction false} LeadingSlashes(slashes: string, suffix: string, i: nat)
    requires Slashes(slashes) && i <= |slashes| && suffix != "" && suffix[0] != '/'
    ensures SkipFrom(IsSlash, slashes + suffix, i) == |slashes|
    decreases |slashes| - i
  {
    if i < |slashes| {
      assert (slashes + suffix)[i] == slashes[i];
      LeadingSlashes(slashes, suffix, i + 1);
    }
  }

  lemma SuffixTrimmed(slashes: string, suffix: string)
    requires Slashes(slashes) && !Blank(suffix) && suffix[0] != '/'
    ensures TrimStartBy(IsSlash, slashes + suffix) == suffix && !Blank(slashes + suffix)
  {
    LeadingSlashes(slashes, suffix, 0);
    assert (slashes + suffix)[|slashes|..] == suffix;
    if slashes == "" { assert slashes + suffix == suffix; } else { assert (slashes + suffix)[0] == '/'; }
  }

  lemma VersionedSegmentEnds(front: string, segment: string)
    requires IsVersionSegment(segment)
    ensures segment != "" && '/' !in segment
    ensures TrimSlashes(front + "/" + segment) == front + "/" + segment
  {
    if IsNumbered(segment) {
      NumberedFacts(segment);
    } else {
      BetaFacts(segment);
      var low := Lower(segment);
      assert forall i :: 0 <= i < |segment| ==> low[i] == LowerChar(segment[i]) && low[i] in "beta";
    }
    KeepsEnd(front + "/" + segment, segment);
  }

  /** A path suffix takes the place of the version segment; slashes around the joint do not matter. */
  lemma SuffixReplacesVersion(front: string, segment: string, after: string, slashes: string, suffix: string)
    requires IsVersionSegment(segment) && Slashes(after) && Slashes(slashes) && !Blank(suffix) && suffix[0] != '/'
    ensures UpstreamUrl(front + "/" + segment + after, Some(slashes + suffix)) == front + "/" + suffix
  {
    var t := front + "/" + segment;
    SuffixTrimmed(slashes, suffix);
    VersionedSegmentEnds(front, segment);
    SlashesAppended(t, after);
    CutUnder(front, segment);
  }

  /** Without a version segment it is put after the whole base. */
  lemma SuffixAppended(baseUrl: string, slashes: string, suffix: string)
    requires Slashes(slashes) && !Blank(suffix) && suffix[0] != '/'
    requires !IsVersionSegment(CutLast(TrimSlashes(baseUrl)).segment)
    ensures UpstreamUrl(baseUrl, Some(slashes + suffix)) == TrimSlashes(baseUrl) + "/" + suffix
  {
    SuffixTrimmed(slashes, suffix);
    TrimmedTwice(baseUrl);
  }

  /** A suffix of white space only is no suffix. */
  lemma BlankSuffixIgnored(baseUrl: string, suffix: string)
    requires forall i :: 0 <= i < |suffix| ==> IsWhitespace(suffix[i])
    ensures UpstreamUrl(baseUrl, Some(suffix)) == UpstreamUrl(baseUrl, None)
  {
    AllBlank(suffix);
  }

  lemma {:induction false} AllBlank(s: string)
    requires forall i :: 0 <= i < |s| ==> IsWhitespace(s[i])
    ensures Blank(s)
  {
    if s != "" { AllBlank(s[1..]); }
  }

  /** One of slashes only leaves the base without its version, and a slash. */
  lemma SlashesSuffix(baseUrl: string, slashes: string)
    requires Slashes(slashes) && slashes != ""
    ensures UpstreamUrl(baseUrl, Some(slashes)) == UnversionedBaseUrl(baseUrl) + "/"
  {
    assert slashes[0] == '/' && !Blank(slashes);
    assert SkipFrom(IsSlash, slashes, 0) == |slashes|;
    assert TrimStartBy(IsSlash, slashes) == "";
    assert UnversionedBaseUrl(baseUrl) + "/" + "" == UnversionedBaseUrl(baseUrl) + "/";
  }
}
