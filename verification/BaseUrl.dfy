/** Base-URL normalisation: the spellings of one endpoint that share a cache scope. */
module BaseUrl {
  import opened Wrappers
  import opened Search
  import opened Text

  const SCHEME_END := "://"

  function Stripped(u: string): string { TrimEndBy(IsSlash, Trim(u)) }

  datatype Parts = Parts(scheme: string, authority: string, path: string) {
    function Print(): string { scheme + (SCHEME_END + (authority + path)) }

    /** Parts that splitting a URL can give. */
    predicate Valid() {
      Find(scheme + SCHEME_END, SCHEME_END) == Some(|scheme|) && '/' !in authority && (path != "" ==> path[0] == '/')
    }

    /** The port that the scheme implies, as authority text. */
    function ImpliedPort(): string {
      if Lower(scheme) == "https" then ":443" else if Lower(scheme) == "http" then ":80" else ""
    }

    predicate HasImpliedPort() { ImpliedPort() != "" && EndsWith(Lower(authority), ImpliedPort()) }

    /** The implied port is not written twice. */
    predicate PortOnce() { ImpliedPort() == "" || !EndsWith(Lower(authority), ImpliedPort() + ImpliedPort()) }

    /** The authority without the implied port. */
    function Host(): string {
      if HasImpliedPort() then authority[..|authority| - |ImpliedPort()|] else authority
    }

    /** No blank at the end, and something in front of it: the path, or the host when there is no path. */
    predicate EndsCleanly() {
      if path != "" then !EndsInWhitespace(path) else Host() != "" && !EndsInWhitespace(Host())
    }

    function Canonical(): Parts {
      var host := Lower(authority);
      Parts(Lower(scheme), if HasImpliedPort() then host[..|host| - |ImpliedPort()|] else host, path)
    }
  }

  predicate EndsWith(s: string, suffix: string) {
    |suffix| <= |s| && s[|s| - |suffix|..] == suffix
  }

  /** Authority up to the first slash, then the path. */
  function AfterScheme(scheme: string, rest: string): (p: Parts)
    ensures p.scheme == scheme && p.authority + p.path == rest
    ensures '/' !in p.authority && (p.path != "" ==> p.path[0] == '/')
  {
    match Index(rest, '/')
    case None => Parts(scheme, rest, "")
    case Some(p) => Parts(scheme, rest[..p], rest[p..])
  }

  function Split(t: string): (r: Option<Parts>)
    ensures r.Some? ==> r.value.Valid() && r.value.Print() == t
    ensures r.None? <==> Find(t, SCHEME_END).None?
  {
    match Find(t, SCHEME_END)
    case None => None
    case Some(i) =>
      SchemeFound(t, i);
      Some(AfterScheme(t[..i], t[i + 3..]))
  }

  lemma SchemeFound(t: string, i: nat)
    requires Find(t, SCHEME_END) == Some(i)
    ensures Find(t[..i] + SCHEME_END, SCHEME_END) == Some(i)
    ensures t[..i] + (SCHEME_END + t[i + 3..]) == t
  {
    var head := t[..i] + SCHEME_END;
    assert t[..i + 3] == head && t == head + t[i + 3..];
    OccursInLonger(head, t[i + 3..], SCHEME_END, i);
    FindStable(head, t[i + 3..], SCHEME_END);
  }

  function Normalize(u: string): string { Normalized(Stripped(u)) }

  function Normalized(t: string): string { Rendered(t, Split(t)) }

  function Rendered(t: string, split: Option<Parts>): string {
    match split
    case None => Lower(t)
    case Some(parts) => parts.Canonical().Print()
  }

  // ---- Splitting undoes printing, also after canonicalisation.

  lemma AfterSchemePrint(scheme: string, authority: string, path: string)
    requires '/' !in authority && (path != "" ==> path[0] == '/')
    ensures AfterScheme(scheme, authority + path) == Parts(scheme, authority, path)
  {
    if path == "" {
      assert authority + path == authority;
    } else {
      assert authority + path == authority + ['/'] + path[1..];
      IndexUnique(authority, '/', path[1..]);
    }
  }

  lemma SplitAt(scheme: string, rest: string)
    requires Find(scheme + SCHEME_END, SCHEME_END) == Some(|scheme|)
    ensures Split(scheme + (SCHEME_END + rest)) == Some(AfterScheme(scheme, rest))
  {
    var head := scheme + SCHEME_END;
    var t := scheme + (SCHEME_END + rest);
    assert t == head + rest;
    FindStable(head, rest, SCHEME_END);
    assert t[..|scheme|] == scheme && t[|scheme| + 3..] == rest;
  }

  lemma SplitPrint(p: Parts)
    requires p.Valid()
    ensures Split(p.Print()) == Some(p)
  {
    SplitAt(p.scheme, p.authority + p.path);
    AfterSchemePrint(p.scheme, p.authority, p.path);
  }

  lemma LowerKeepsPunctuation(c: char)
    ensures LowerChar(c) == ':' <==> c == ':'
    ensures LowerChar(c) == '/' <==> c == '/'
    ensures IsWhitespace(LowerChar(c)) <==> IsWhitespace(c)
    ensures LowerChar(LowerChar(c)) == LowerChar(c)
  {
  }

  lemma SchemeEndAt(s: string, i: nat)
    ensures OccursAt(s, SCHEME_END, i) <==> i + 3 <= |s| && s[i] == ':' && s[i + 1] == '/' && s[i + 2] == '/'
  {
    if i + 3 <= |s| { assert s[i..i + 3] == [s[i], s[i + 1], s[i + 2]]; }
  }

  lemma LowerScheme(scheme: string)
    requires Find(scheme + SCHEME_END, SCHEME_END) == Some(|scheme|)
    ensures Find(Lower(scheme) + SCHEME_END, SCHEME_END) == Some(|scheme|)
  {
    var s, l := scheme + SCHEME_END, Lower(scheme) + SCHEME_END;
    SchemeEndAt(l, |scheme|);
    var i := Find(l, SCHEME_END).value;
    forall k: nat | k < |l| ensures (l[k] == ':' <==> s[k] == ':') && (l[k] == '/' <==> s[k] == '/') {
      if k < |scheme| { LowerKeepsPunctuation(scheme[k]); }
    }
    SchemeEndAt(l, i);
    SchemeEndAt(s, i);
  }

  lemma LowerTwice(s: string)
    ensures Lower(Lower(s)) == Lower(s)
    ensures '/' !in s ==> '/' !in Lower(s)
  {
    forall i: nat | i < |s| ensures Lower(Lower(s))[i] == Lower(s)[i] && (Lower(s)[i] == '/' <==> s[i] == '/') {
      LowerKeepsPunctuation(s[i]);
    }
  }

  lemma CanonicalValid(p: Parts)
    requires p.Valid()
    ensures p.Canonical().Valid()
    ensures p.Canonical().ImpliedPort() == p.ImpliedPort()
    ensures Lower(p.Canonical().scheme) == p.Canonical().scheme
    ensures Lower(p.Canonical().authority) == p.Canonical().authority
  {
    LowerScheme(p.scheme);
    LowerTwice(p.scheme);
    LowerTwice(p.authority);
    var host := Lower(p.authority);
    var a := p.Canonical().authority;
    assert a <= host;
    assert forall i :: 0 <= i < |a| ==> Lower(a)[i] == Lower(host)[i] == a[i];
  }

  /** A second pass keeps canonical parts exactly when no implied port is left. */
  lemma CanonicalAgain(p: Parts)
    requires p.Valid()
    ensures p.Canonical().Canonical() == p.Canonical() <==> !p.Canonical().HasImpliedPort()
    ensures p.Canonical().HasImpliedPort() ==> |p.Canonical().Canonical().Print()| < |p.Canonical().Print()|
  {
    CanonicalValid(p);
  }

  // ---- When is normalisation a fixed point?

  predicate EndsInWhitespace(s: string) { s != "" && IsWhitespace(s[|s| - 1]) }

  /** What trimming leaves ends cleanly, and does not write the port that the scheme implies twice. */
  predicate Settled(u: string) {
    match Split(Stripped(u))
    case None => !EndsInWhitespace(Stripped(u))
    case Some(p) => p.EndsCleanly() && p.PortOnce()
  }

  predicate CleanlyEnded(t: string, split: Option<Parts>) {
    match split case None => !EndsInWhitespace(t) case Some(p) => p.EndsCleanly()
  }

  lemma EndsWithTwice(s: string, port: string)
    requires EndsWith(s, port)
    ensures EndsWith(s[..|s| - |port|], port) <==> EndsWith(s, port + port)
  {
    var n := |s| - |port|;
    if 2 * |port| <= |s| {
      assert s[n - |port|..] == s[..n][n - |port|..] + s[n..];
      assert (port + port)[..|port|] == port;
      assert s[n - |port|..][..|port|] == s[..n][n - |port|..];
    }
  }

  lemma EndsWithOnce(s: string, port: string)
    requires EndsWith(s, port + port)
    ensures EndsWith(s, port)
  {
    assert (port + port)[|port|..] == port;
    assert s[|s| - 2 * |port|..][|port|..] == s[|s| - |port|..];
  }

  /** A port is left after one pass exactly when it was written twice. */
  lemma PortLeft(p: Parts)
    requires p.Valid()
    ensures p.Canonical().HasImpliedPort() <==> !p.PortOnce()
  {
    CanonicalValid(p);
    var (host, port) := (Lower(p.authority), p.ImpliedPort());
    if port != "" {
      if EndsWith(host, port) { EndsWithTwice(host, port); }
      if EndsWith(host, port + port) { EndsWithOnce(host, port); }
    }
  }

  lemma LowerEnd(s: string)
    ensures EndsInWhitespace(Lower(s)) <==> EndsInWhitespace(s)
  {
    if s != "" { LowerKeepsPunctuation(s[|s| - 1]); }
  }

  lemma CanonicalEnds(p: Parts)
    requires p.Valid()
    ensures var tail := p.Canonical().authority + p.Canonical().path;
            tail != "" && !EndsInWhitespace(tail) <==> p.EndsCleanly()
  {
    var c := p.Canonical();
    assert c.authority == Lower(p.Host());
    LowerEnd(p.Host());
    if p.path == "" { assert c.authority + c.path == c.authority; }
  }

  lemma TrimmedShape(u: string)
    ensures |Stripped(u)| <= |u|
    ensures Stripped(u) != "" ==> !IsSlash(Stripped(u)[|Stripped(u)| - 1]) && !IsWhitespace(Stripped(u)[0])
  {
    var t := Trim(u);
    assert Stripped(u) <= t;
  }

  /** Trimming changes nothing exactly on text without outer blanks and closing slashes. */
  lemma TrimmedFixed(r: string)
    requires r != "" ==> !IsWhitespace(r[0])
    ensures Stripped(r) == r <==> (r == "" || (!EndsInWhitespace(r) && r[|r| - 1] != '/'))
    ensures Stripped(r) != r ==> |Stripped(r)| < |r|
  {
    var t := Trim(r);
    assert Stripped(r) <= t;
    assert t <= r;
    if r != "" && !EndsInWhitespace(r) { assert TrimmedBy(IsWhitespace, r); }
    if Stripped(r) == r { TrimmedShape(r); }
  }

  lemma NormalizeShrinks(u: string)
    ensures |Normalize(u)| <= |Stripped(u)|
  {
  }

  /** The first character survives, up to case. */
  lemma NormalizeStart(u: string)
    ensures Normalize(u) != "" ==> !IsWhitespace(Normalize(u)[0])
  {
    var t := Stripped(u);
    TrimmedShape(u);
    match Split(t) {
      case None => if t != "" { LowerKeepsPunctuation(t[0]); }
      case Some(p) => if p.scheme != "" { LowerKeepsPunctuation(p.scheme[0]); }
    }
  }

  lemma LowerNoScheme(t: string)
    requires Find(t, SCHEME_END).None?
    ensures Find(Lower(t), SCHEME_END).None?
  {
    if Find(Lower(t), SCHEME_END).Some? {
      var i := Find(Lower(t), SCHEME_END).value;
      SchemeEndAt(Lower(t), i);
      SchemeEndAt(t, i);
      LowerKeepsPunctuation(t[i]);
      LowerKeepsPunctuation(t[i + 1]);
      LowerKeepsPunctuation(t[i + 2]);
    }
  }

  lemma NormalizedAgain(t: string)
    ensures Normalized(Normalized(t)) == Normalized(t) <==> (Split(t).Some? ==> Split(t).value.PortOnce())
  {
    match Split(t) {
      case None =>
        LowerNoScheme(t);
        LowerTwice(t);
      case Some(p) =>
        CanonicalValid(p);
        SplitPrint(p.Canonical());
        CanonicalAgain(p);
        PortLeft(p);
    }
  }

  /** Normalising twice is normalising once exactly on the settled URLs. */
  lemma NormalizeIdempotentExact(u: string)
    ensures Normalize(Normalize(u)) == Normalize(u) <==> Settled(u)
  {
    TrimmedShape(u);
    NormalizeStart(u);
    NormalizedStrips(Stripped(u), Normalize(u));
    NormalizedAgain(Stripped(u));
    NormalizeShrinks(Normalize(u));
  }

  lemma StrippedSubset(u: string, c: char)
    requires c in Stripped(u)
    ensures c in u
  {
    var t := TrimStartBy(IsWhitespace, u);
    assert Stripped(u) <= Trim(u) <= t;
    assert c in t;
  }

  lemma PartsPlain(p: Parts)
    requires forall c :: c in p.Print() ==> !IsWhitespace(c)
    ensures !EndsInWhitespace(p.path) && !EndsInWhitespace(p.Host())
  {
    assert forall c :: c in p.path || c in p.authority ==> c in p.authority + p.path;
    assert forall c :: c in p.authority + p.path ==> c in SCHEME_END + (p.authority + p.path);
    assert forall c :: c in p.path || c in p.authority ==> c in p.Print();
    assert forall c :: c in p.Host() ==> c in p.authority;
    if p.path != "" { assert p.path[|p.path| - 1] in p.path; }
    if p.Host() != "" { assert p.Host()[|p.Host()| - 1] in p.Host(); }
  }

  /** In particular on every URL without white space, with a host, and with at most one implied port. */
  lemma PlainUrlIdempotent(u: string)
    requires forall c :: c in u ==> !IsWhitespace(c)
    requires Split(Stripped(u)).Some? ==> Split(Stripped(u)).value.Host() != "" && Split(Stripped(u)).value.PortOnce()
    ensures Normalize(Normalize(u)) == Normalize(u)
  {
    var t := Stripped(u);
    forall c | c in t ensures !IsWhitespace(c) { StrippedSubset(u, c); }
    match Split(t) {
      case None => if t != "" { assert t[|t| - 1] in t; }
      case Some(p) => PartsPlain(p);
    }
    NormalizeIdempotentExact(u);
  }

  /** Trimming finds nothing at the end. */
  predicate SolidEnd(r: string) { r == "" || (!EndsInWhitespace(r) && r[|r| - 1] != '/') }

  lemma CanonicalSolid(p: Parts)
    requires p.Valid() && p.Print()[|p.Print()| - 1] != '/'
    ensures SolidEnd(p.Canonical().Print()) <==> p.EndsCleanly()
  {
    EndOfCanonical(p);
    CanonicalEnds(p);
  }

  lemma LowerSolid(t: string)
    requires t != "" ==> t[|t| - 1] != '/'
    ensures SolidEnd(Lower(t)) <==> !EndsInWhitespace(t)
  {
    EndOfLower(t);
  }

  lemma RenderedSolid(t: string, split: Option<Parts>)
    requires t != "" ==> t[|t| - 1] != '/'
    requires split.Some? ==> split.value.Valid() && split.value.Print() == t
    ensures SolidEnd(Rendered(t, split)) <==> CleanlyEnded(t, split)
  {
    if split.None? { LowerSolid(t); } else { CanonicalSolid(split.value); }
  }

  /** Trimming leaves the result alone exactly when it ends cleanly, and shortens it otherwise. */
  lemma NormalizedStrips(t: string, r: string)
    requires r == Normalized(t) && (t != "" ==> t[|t| - 1] != '/') && (r != "" ==> !IsWhitespace(r[0]))
    ensures Stripped(r) == r <==> CleanlyEnded(t, Split(t))
    ensures Stripped(r) != r ==> |Stripped(r)| < |r|
  {
    TrimmedFixed(r);
    RenderedSolid(t, Split(t));
  }

  /** The last character of printed parts is that of their tail, or the scheme's slash. */
  lemma LastOfPrint(c: Parts)
    ensures c.Print() != ""
    ensures c.authority + c.path == "" ==> c.Print()[|c.Print()| - 1] == '/'
    ensures c.authority + c.path != "" ==>
              c.Print()[|c.Print()| - 1] == (c.authority + c.path)[|c.authority + c.path| - 1]
  {
    if c.authority + c.path == "" { assert c.Print() == c.scheme + SCHEME_END; }
  }

  lemma CanonicalTail(p: Parts)
    requires p.Valid() && p.Print()[|p.Print()| - 1] != '/'
    ensures var tail := p.Canonical().authority + p.Canonical().path; tail != "" ==> tail[|tail| - 1] != '/'
  {
    var c := p.Canonical();
    CanonicalValid(p);
    if c.path == "" {
      assert c.authority + c.path == c.authority;
      if c.authority != "" { assert c.authority[|c.authority| - 1] in c.authority; }
    } else {
      LastOfPrint(p);
    }
  }

  lemma EndOfLower(t: string)
    requires t != "" ==> t[|t| - 1] != '/'
    ensures EndsInWhitespace(Lower(t)) <==> EndsInWhitespace(t)
    ensures Lower(t) != "" ==> Lower(t)[|t| - 1] != '/'
  {
    if t != "" { LowerKeepsPunctuation(t[|t| - 1]); }
  }

  lemma EndOfCanonical(p: Parts)
    requires p.Valid() && p.Print()[|p.Print()| - 1] != '/'
    ensures var (text, tail) := (p.Canonical().Print(), p.Canonical().authority + p.Canonical().path);
            && text != ""
            && if tail == "" then text[|text| - 1] == '/'
               else EndsInWhitespace(text) == EndsInWhitespace(tail) && text[|text| - 1] != '/'
  {
    LastOfPrint(p.Canonical());
    CanonicalTail(p);
  }

  // ---- Which spellings share a scope.

  /** Printed parts without outer blanks and closing slashes, and with something behind the scheme. */
  predicate Endpoint(p: Parts) {
    var text := p.Print();
    && p.Valid() && p.authority + p.path != ""
    && !IsWhitespace(text[0]) && !EndsInWhitespace(text) && text[|text| - 1] != '/'
  }

  lemma EndpointKept(p: Parts)
    requires Endpoint(p)
    ensures Normalize(p.Print()) == p.Canonical().Print()
  {
    TrimmedFixed(p.Print());
    SplitPrint(p);
  }

  /** The endpoint as normalised: `host` is its authority in lower case, without the implied port. */
  lemma NormalizeSpelled(p: Parts, host: string)
    requires Endpoint(p)
    ensures Lower(p.scheme) == "https" && Lower(p.authority) == host + ":443" ==>
              Normalize(p.Print()) == "https" + ("://" + (host + p.path))
    ensures Lower(p.scheme) == "http" && Lower(p.authority) == host + ":80" ==>
              Normalize(p.Print()) == "http" + ("://" + (host + p.path))
    ensures Lower(p.authority) == host && !(Lower(p.scheme) == "https" && EndsWith(host, ":443"))
            && !(Lower(p.scheme) == "http" && EndsWith(host, ":80")) ==>
              Normalize(p.Print()) == Lower(p.scheme) + ("://" + (host + p.path))
  {
    EndpointKept(p);
    var port := p.ImpliedPort();
    assert (host + port)[|host|..] == port && (host + port)[..|host|] == host;
  }

  /** Text without a scheme is put in lower case as a whole. */
  lemma NormalizeSchemeless(u: string)
    requires forall i :: !OccursAt(Stripped(u), "://", i)
    ensures Normalize(u) == Lower(Stripped(u))
  {
    assert Find(Stripped(u), SCHEME_END).None?;
  }

  lemma CanonicalPrintInjective(p: Parts, q: Parts)
    requires p.Valid() && q.Valid()
    ensures p.Canonical().Print() == q.Canonical().Print() <==> p.Canonical() == q.Canonical()
  {
    CanonicalValid(p);
    CanonicalValid(q);
    SplitPrint(p.Canonical());
    SplitPrint(q.Canonical());
  }

  /** Equal but for one implied port. */
  predicate SameAuthority(a: string, b: string, port: string) {
    || a == b
    || (port != "" && a == b + port && !EndsWith(b, port))
    || (port != "" && b == a + port && !EndsWith(a, port))
  }

  predicate SameEndpoint(p: Parts, q: Parts) {
    && Lower(p.scheme) == Lower(q.scheme) && p.path == q.path
    && SameAuthority(Lower(p.authority), Lower(q.authority), p.ImpliedPort())
  }

  function WithoutPort(a: string, port: string): string {
    if port != "" && EndsWith(a, port) then a[..|a| - |port|] else a
  }

  lemma WithoutPortExact(a: string, b: string, port: string)
    ensures WithoutPort(a, port) == WithoutPort(b, port) <==> SameAuthority(a, b, port)
  {
    if port != "" {
      if EndsWith(a, port) { assert a == a[..|a| - |port|] + port; }
      if EndsWith(b, port) { assert b == b[..|b| - |port|] + port; }
      assert (a + port)[|a|..] == port && (a + port)[..|a|] == a;
      assert (b + port)[|b|..] == port && (b + port)[..|b|] == b;
    }
  }

  lemma CanonicalSame(p: Parts, q: Parts)
    ensures p.Canonical() == q.Canonical() <==> SameEndpoint(p, q)
  {
    WithoutPortExact(Lower(p.authority), Lower(q.authority), p.ImpliedPort());
    assert p.Canonical().authority == WithoutPort(Lower(p.authority), p.ImpliedPort());
    assert q.Canonical().authority == WithoutPort(Lower(q.authority), q.ImpliedPort());
  }

  /** Two endpoints normalise alike exactly when they differ only in case of scheme and host, or an implied port. */
  lemma EndpointsShareExact(p: Parts, q: Parts)
    requires Endpoint(p) && Endpoint(q)
    ensures Normalize(p.Print()) == Normalize(q.Print()) <==> SameEndpoint(p, q)
  {
    EndpointKept(p);
    EndpointKept(q);
    CanonicalPrintInjective(p, q);
    CanonicalSame(p, q);
  }

  // ---- A port written twice takes two passes.

  lemma SchemeHttp()
    ensures Find("http" + SCHEME_END, SCHEME_END) == Some(4) && Lower("http") == "http"
  {
    var s := "http" + SCHEME_END;
    forall k: nat | k < 7 ensures OccursAt(s, SCHEME_END, k) <==> k == 4 { SchemeEndAt(s, k); }
    assert OccursAt(s, SCHEME_END, 4);
    var l := Lower("http");
    assert l[0] == 'h' && l[1] == 't' && l[2] == 't' && l[3] == 'p';
    assert l == "http";
  }

  function OnPort80(host: string): Parts { Parts("http", host + ":80", "") }

  lemma LowerAppended(host: string)
    requires Lower(host) == host
    ensures Lower(host + ":80") == host + ":80"
  {
    forall i: nat | i < |host| ensures LowerChar(host[i]) == host[i] { assert Lower(host)[i] == LowerChar(host[i]); }
  }

  lemma OnPort80Canonical(host: string)
    requires Lower(host) == host
    ensures OnPort80(host).Canonical() == Parts("http", host, "")
  {
    var a := host + ":80";
    LowerAppended(host);
    assert a[|host|..] == ":80" && a[..|host|] == host;
    SchemeHttp();
  }

  lemma OnPort80Endpoint(host: string)
    requires '/' !in host
    ensures Endpoint(OnPort80(host))
  {
    SchemeHttp();
    var p := OnPort80(host);
    assert p.authority + p.path == p.authority;
    assert p.Print() == "http://" + host + ":80";
  }

  lemma PortDropped(host: string)
    requires Lower(host) == host && '/' !in host
    ensures Normalize(OnPort80(host).Print()) == Parts("http", host, "").Print()
  {
    OnPort80Endpoint(host);
    OnPort80Canonical(host);
    EndpointKept(OnPort80(host));
  }

  /** Every lower-case host with the port written twice needs a second pass to lose the second one. */
  lemma PortTwiceExample(host: string)
    requires Lower(host) == host && '/' !in host
    ensures Normalize(OnPort80(host + ":80").Print()) == OnPort80(host).Print()
    ensures Normalize(OnPort80(host).Print()) == Parts("http", host, "").Print() != OnPort80(host).Print()
  {
    LowerAppended(host);
    PortDropped(host + ":80");
    PortDropped(host);
    assert |Parts("http", host, "").Print()| < |OnPort80(host).Print()|;
  }

  /** Such as this one. */
  lemma PrintedExample()
    ensures OnPort80("h" + ":80").Print() == "http://h:80:80" && OnPort80("h").Print() == "http://h:80"
    ensures Lower("h") == "h"
  {
    assert Lower("h")[0] == 'h';
  }
}
