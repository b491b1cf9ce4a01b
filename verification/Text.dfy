/** The string operations the sources call: trimming, ASCII case, lines, splitting, joining. */
module Text {
  import opened Wrappers
  import opened Search

  /** Rust's `char::is_whitespace` (the Unicode White_Space property). */
  predicate IsWhitespace(c: char) {
    var n := c as int;
    9 <= n <= 13 || n == 0x20 || n == 0x85 || n == 0xA0 || n == 0x1680 ||
    0x2000 <= n <= 0x200A || n == 0x2028 || n == 0x2029 || n == 0x202F || n == 0x205F || n == 0x3000
  }

  /** The 25 code points with the property. */
  lemma WhitespaceListed(c: char)
    ensures IsWhitespace(c) <==>
            || c in "\t\n\U{B}\U{C}\r \U{85}\U{A0}\U{1680}\U{2028}\U{2029}\U{202F}\U{205F}\U{3000}"
            || c in "\U{2000}\U{2001}\U{2002}\U{2003}\U{2004}\U{2005}\U{2006}\U{2007}\U{2008}\U{2009}\U{200A}"
  {
  }

  predicate IsSlash(c: char) { c == '/' }

  predicate IsCr(c: char) { c == '\r' }

  predicate IsDigit(c: char) { '0' <= c <= '9' }

  /** The first index at or after `i` whose character is not dropped. */
  function SkipFrom(drop: char -> bool, s: string, i: nat): (n: nat)
    requires i <= |s|
    ensures i <= n <= |s| && (n < |s| ==> !drop(s[n]))
    ensures forall k :: i <= k < n ==> drop(s[k])
    decreases |s| - i
  {
    if i < |s| && drop(s[i]) then SkipFrom(drop, s, i + 1) else i
  }

  /** The length up to `n` left once dropped characters are taken off the end. */
  function KeepTo(drop: char -> bool, s: string, n: nat): (m: nat)
    requires n <= |s|
    ensures m <= n && (m > 0 ==> !drop(s[m - 1]))
    ensures forall k :: m <= k < n ==> drop(s[k])
  {
    if n > 0 && drop(s[n - 1]) then KeepTo(drop, s, n - 1) else n
  }

  function TrimStartBy(drop: char -> bool, s: string): (r: string)
    ensures r != [] ==> !drop(r[0])
    ensures s == [] || !drop(s[0]) ==> r == s
  {
    s[SkipFrom(drop, s, 0)..]
  }

  function TrimEndBy(drop: char -> bool, s: string): (r: string)
    ensures r <= s
    ensures r != [] ==> !drop(r[|r| - 1])
    ensures s == [] || !drop(s[|s| - 1]) ==> r == s
  {
    s[..KeepTo(drop, s, |s|)]
  }

  function TrimBy(drop: char -> bool, s: string): (r: string)
    ensures r != [] ==> !drop(r[0]) && !drop(r[|r| - 1])
    ensures TrimmedBy(drop, s) ==> r == s
  {
    TrimEndBy(drop, TrimStartBy(drop, s))
  }

  predicate TrimmedBy(drop: char -> bool, s: string) {
    s != [] ==> !drop(s[0]) && !drop(s[|s| - 1])
  }

  function Trim(s: string): string { TrimBy(IsWhitespace, s) }

  predicate Trimmed(s: string) { TrimmedBy(IsWhitespace, s) }

  /** Nothing is left once trimmed. */
  predicate Blank(s: string) { s == "" || (IsWhitespace(s[0]) && Blank(s[1..])) }

  lemma {:induction false} BlankIsTrimmedAway(s: string)
    ensures Blank(s) <==> Trim(s) == ""
  {
    if s != "" {
      BlankIsTrimmedAway(s[1..]);
      if IsWhitespace(s[0]) { TrimStartDrops(s); }
    }
  }

  lemma TrimStartDrops(s: string)
    requires s != "" && IsWhitespace(s[0])
    ensures Trim(s) == Trim(s[1..])
  {
    SkipShift(IsWhitespace, s[0], s[1..], 0);
    assert [s[0]] + s[1..] == s;
    assert s[1 + SkipFrom(IsWhitespace, s[1..], 0)..] == s[1..][SkipFrom(IsWhitespace, s[1..], 0)..];
  }

  lemma {:induction false} SkipShift(drop: char -> bool, c: char, s: string, i: nat)
    requires i <= |s|
    ensures SkipFrom(drop, [c] + s, i + 1) == SkipFrom(drop, s, i) + 1
    decreases |s| - i
  {
    if i < |s| {
      assert ([c] + s)[i + 1] == s[i];
      SkipShift(drop, c, s, i + 1);
    }
  }

  function Repeated(c: char, n: nat): (s: string)
    ensures |s| == n && forall i :: 0 <= i < n ==> s[i] == c
  {
    if n == 0 then "" else [c] + Repeated(c, n - 1)
  }

  function LowerChar(c: char): char {
    if 'A' <= c <= 'Z' then (c as int + 32) as char else c
  }

  /** `to_ascii_lowercase`. */
  function Lower(s: string): (r: string)
    ensures |r| == |s| && forall i :: 0 <= i < |s| ==> r[i] == LowerChar(s[i])
  {
    seq(|s|, i requires 0 <= i < |s| => LowerChar(s[i]))
  }

  predicate EqIgnoreCase(a: string, b: string) { Lower(a) == Lower(b) }

  /** Rust's `str::lines`: a terminated line also loses one carriage return before its line feed. */
  function Lines(s: string): seq<string>
    decreases |s|
  {
    match Index(s, '\n')
    case None => if s == [] then [] else [s]
    case Some(i) => [StripCr(s[..i])] + Lines(s[i + 1..])
  }

  function StripCr(s: string): string {
    if s != [] && s[|s| - 1] == '\r' then s[..|s| - 1] else s
  }

  lemma LinesCons(a: string, b: string)
    requires '\n' !in a
    ensures Lines(a + "\n" + b) == [StripCr(a)] + Lines(b)
  {
    var s := a + "\n" + b;
    IndexUnique(a, '\n', b);
    assert s == a + ['\n'] + b;
    assert s[..|a|] == a && s[|a| + 1..] == b;
  }

  function Join(parts: seq<string>, sep: string): string {
    if parts == [] then ""
    else if |parts| == 1 then parts[0]
    else parts[0] + sep + Join(parts[1..], sep)
  }

  // ---- What these operations come to.

  /** The 26 letters, and nothing else. */
  lemma LowerExact(c: char, k: nat)
    requires k < 26
    ensures LowerChar("ABCDEFGHIJKLMNOPQRSTUVWXYZ"[k]) == "abcdefghijklmnopqrstuvwxyz"[k]
    ensures c !in "ABCDEFGHIJKLMNOPQRSTUVWXYZ" ==> LowerChar(c) == c
  {
    var upper := "ABCDEFGHIJKLMNOPQRSTUVWXYZ";
    assert 'A' <= c <= 'Z' ==> upper[c as nat - 65] == c;
  }

  /** White space is taken off both ends, and nothing else. */
  lemma TrimExact(s: string) returns (lo: nat, hi: nat)
    ensures lo <= hi <= |s| && Trim(s) == s[lo..hi] && Trimmed(s[lo..hi])
    ensures forall i :: 0 <= i < lo || hi <= i < |s| ==> IsWhitespace(s[i])
  {
    lo := SkipFrom(IsWhitespace, s, 0);
    hi := lo + KeepTo(IsWhitespace, s[lo..], |s| - lo);
    assert s[lo..][..hi - lo] == s[lo..hi];
    assert forall i :: hi <= i < |s| ==> s[i] == s[lo..][i - lo];
  }

  lemma {:induction false} JoinExact(parts: seq<string>, sep: string, part: string)
    ensures Join([], sep) == "" && Join([part], sep) == part
    ensures parts != [] ==> Join(parts + [part], sep) == Join(parts, sep) + sep + part
  {
    if |parts| == 1 {
      assert (parts + [part])[1..] == [part];
    } else if parts != [] {
      assert (parts + [part])[1..] == parts[1..] + [part];
      JoinExact(parts[1..], sep, part);
      var (a, b) := (parts[0] + sep, Join(parts[1..], sep));
      assert a + (b + sep + part) == a + b + sep + part;
    }
  }

  /** A last line without a line feed keeps its carriage return, and an empty one is no line. */
  lemma LinesExact(a: string, b: string)
    requires '\n' !in a
    ensures Lines(a) == if a == "" then [] else [a]
    ensures Lines(a + "\r" + "\n" + b) == [a] + Lines(b)
    ensures a == "" || a[|a| - 1] != '\r' ==> Lines(a + "\n" + b) == [a] + Lines(b)
  {
    LinesCons(a, b);
    LinesCons(a + "\r", b);
    assert (a + "\r")[..|a|] == a;
  }
}
