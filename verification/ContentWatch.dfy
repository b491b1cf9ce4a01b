/** Reducing HTML to prompt text: tags and raw-text elements out, white space collapsed, length cut. */
module ContentWatch {
  import opened Wrappers
  import opened Search
  import opened Text
  import opened RuntimeSdk

  const LIMIT := 8000
  const SCRIPT := "<script"
  const STYLE := "<style"
  const END_SCRIPT := "</script"
  const END_STYLE := "</style"

  /** Space, tab, line feed, form feed, carriage return. */
  predicate IsSpace(c: char) {
    var n := c as int;
    n == 32 || n == 9 || n == 10 || n == 12 || n == 13
  }

  predicate NotSpace(c: char) { !IsSpace(c) }

  predicate StartsWithAsciiCi(s: string, i: nat, needle: string) {
    i + |needle| <= |s| && Lower(s[i..i + |needle|]) == needle
  }

  predicate TagNameBoundary(s: string, i: nat) {
    i >= |s| || s[i] == '>' || s[i] == '/' || IsSpace(s[i])
  }

  predicate TagAt(s: string, i: nat, needle: string) {
    StartsWithAsciiCi(s, i, needle) && TagNameBoundary(s, i + |needle|)
  }

  // ---- Skipping markup.

  /** `indexOf`. */
  function IndexOf(s: string, c: char, from: nat): (r: Option<nat>)
    requires from <= |s|
    ensures r.Some? ==> from <= r.value < |s| && s[r.value] == c
    decreases |s| - from
  {
    if from == |s| then None else if s[from] == c then Some(from) else IndexOf(s, c, from + 1)
  }

  /** Just after the next `>`, or the end. */
  function AfterGt(s: string, from: nat): (n: nat)
    requires from <= |s|
    ensures from <= n <= |s|
  {
    match IndexOf(s, '>', from) case None => |s| case Some(k) => k + 1
  }

  /** The first index from `i` up to `n` that passes. */
  function First(p: nat -> bool, i: nat, n: nat): (r: Option<nat>)
    requires i <= n
    ensures r.Some? ==> i <= r.value < n
    decreases n - i
  {
    if i == n then None else if p(i) then Some(i) else First(p, i + 1, n)
  }

  function ClosesAt(s: string, prefix: string): nat -> bool { (i: nat) => TagAt(s, i, prefix) }

  /** Just after the `>` that ends a closing tag found at `hit`, or the end. */
  function AfterHit(s: string, hit: Option<nat>, width: nat): (n: nat)
    requires hit.Some? ==> hit.value <= |s|
    ensures (hit.Some? ==> hit.value <= n) && n <= |s|
  {
    match hit
    case None => |s|
    case Some(k) => if k + width <= |s| then AfterGt(s, k + width) else |s|
  }

  /** Just after the first closing tag at or after `from`, or the end. */
  function AfterClosing(s: string, from: nat, prefix: string): (n: nat)
    requires from <= |s|
    ensures from <= n <= |s|
  {
    AfterHit(s, First(ClosesAt(s, prefix), from, |s|), |prefix|)
  }

  method FindClosingRawTextTag(s: string, from: nat, prefix: string) returns (n: nat)
    requires from <= |s|
    ensures n == AfterClosing(s, from, prefix)
  {
    var closes := ClosesAt(s, prefix);
    for i := from to |s|
      invariant First(closes, i, |s|) == First(closes, from, |s|)
    {
      if TagAt(s, i, prefix) { return AfterGt(s, i + |prefix|); }
    }
    n := |s|;
  }

  /** What a `<` starts: a raw-text element, by its closing prefix, or any other tag. */
  datatype Markup = Element(end: string) | AnyTag

  function MarkupAt(s: string, i: nat): Markup {
    if TagAt(s, i, SCRIPT) then Element(END_SCRIPT)
    else if TagAt(s, i, STYLE) then Element(END_STYLE)
    else AnyTag
  }

  predicate Closed(s: string, i: nat)
    requires i < |s|
  {
    IndexOf(s, '>', i + 1).Some?
  }

  function After(s: string, i: nat, m: Markup): (n: nat)
    requires i < |s|
    ensures i < n <= |s|
  {
    var open := AfterGt(s, i + 1);
    if m.AnyTag? then open else if Closed(s, i) then AfterClosing(s, open, m.end) else |s|
  }

  /** Where the text goes on after the `<` at `i`. */
  function AfterMarkup(s: string, i: nat): nat {
    if i < |s| then After(s, i, MarkupAt(s, i)) else |s|
  }

  /** Where each place would go on, were it the start of markup. */
  function Jumps(s: string): (next: seq<nat>)
    ensures Forward(next, |s|) && forall i :: 0 <= i < |s| ==> next[i] == AfterMarkup(s, i)
  {
    seq(|s|, i requires 0 <= i < |s| => AfterMarkup(s, i))
  }

  predicate Forward(next: seq<nat>, n: nat) {
    |next| == n && forall i :: 0 <= i < n ==> i < next[i] <= n
  }

  /** The text left from `i` on, each markup a space. */
  function Bare(next: seq<nat>, s: string, i: nat): string
    requires Forward(next, |s|) && i <= |s|
    decreases |s| - i
  {
    if i == |s| then ""
    else if s[i] != '<' then [s[i]] + Bare(next, s, i + 1)
    else " " + Bare(next, s, next[i])
  }

  function Unmarked(s: string): string { Bare(Jumps(s), s, 0) }

  // ---- Collapsing white space.

  function Spaced(out: string, pendingSpace: bool): string { if pendingSpace then out + " " else out }

  function Collapsing(s: string, out: string, pendingSpace: bool): string
    decreases |s|
  {
    if s == "" then out
    else if IsSpace(s[0]) then Collapsing(s[1..], out, out != "")
    else Collapsing(s[1..], Spaced(out, pendingSpace) + [s[0]], false)
  }

  function TrimJs(s: string): string { TrimBy(IsJsWhitespace, s) }

  function Collapsed(s: string): string { TrimJs(Collapsing(s, "", false)) }

  method CollapseWhitespace(s: string) returns (r: string)
    ensures r == Collapsed(s)
  {
    var out, pendingSpace := "", false;
    assert s[0..] == s;
    for i := 0 to |s|
      invariant Collapsing(s[i..], out, pendingSpace) == Collapsing(s, "", false)
    {
      assert s[i..][1..] == s[i + 1..];
      if IsSpace(s[i]) {
        pendingSpace := |out| > 0;
        continue;
      }
      if pendingSpace { out := out + " "; }
      out := out + [s[i]];
      pendingSpace := false;
    }
    r := TrimJs(out);
  }

  function CutTo(s: string): string { if |s| > LIMIT then s[..LIMIT] else s }

  /** The prompt text before the cut. */
  function Prose(s: string): string { Collapsed(Unmarked(s)) }

  method StripHtmlForPrompt(input: string) returns (r: string)
    ensures r == CutTo(Prose(input))
  {
    var out := "";
    var i := 0;
    ghost var jumps := Jumps(input);
    ghost var whole := Bare(jumps, input, 0);
    assert "" + whole == whole;
    while i < |input|
      invariant i <= |input|
      invariant out + Bare(jumps, input, i) == whole
      decreases |input| - i
    {
      BareStep(jumps, input, i, out);
      if input[i] != '<' {
        out := out + [input[i]];
        i := i + 1;
        continue;
      }
      out := out + " ";
      i := SkipMarkup(input, i);
    }
    assert out + "" == out;
    var collapsed := CollapseWhitespace(out);
    r := CutTo(collapsed);
  }

  /** The rest of the loop body, from the `<` at `i`. */
  method SkipMarkup(input: string, i: nat) returns (next: nat)
    requires i < |input|
    ensures next == AfterMarkup(input, i)
  {
    var openEnd := AfterGt(input, i + 1);
    if TagAt(input, i, SCRIPT) {
      if !Closed(input, i) { return |input|; }
      next := FindClosingRawTextTag(input, openEnd, END_SCRIPT);
      return;
    }
    if TagAt(input, i, STYLE) {
      if !Closed(input, i) { return |input|; }
      next := FindClosingRawTextTag(input, openEnd, END_STYLE);
      return;
    }
    next := openEnd;
  }

  lemma BareStep(next: seq<nat>, s: string, i: nat, out: string)
    requires Forward(next, |s|) && i < |s|
    ensures out + Bare(next, s, i) ==
      if s[i] != '<' then out + [s[i]] + Bare(next, s, i + 1) else out + " " + Bare(next, s, next[i])
  {
    if s[i] != '<' { Regroup(out, [s[i]], Bare(next, s, i + 1)); } else { Regroup(out, " ", Bare(next, s, next[i])); }
  }

  lemma Regroup(a: string, b: string, c: string)
    ensures a + (b + c) == a + b + c
  {
  }

  // ---- Where markup ends.

  lemma {:induction false} IndexOfExact(s: string, c: char, from: nat, k: nat)
    requires from <= |s|
    ensures IndexOf(s, c, from) == Some(k) <==> from <= k < |s| && s[k] == c && c !in s[from..k]
    ensures IndexOf(s, c, from).None? <==> c !in s[from..]
    decreases |s| - from
  {
    if from < |s| && s[from] != c {
      IndexOfExact(s, c, from + 1, k);
      assert s[from..] == [s[from]] + s[from + 1..];
      assert from < k <= |s| ==> s[from..k] == [s[from]] + s[from + 1..k];
    }
  }

  lemma {:induction false} FirstExact(p: nat -> bool, i: nat, n: nat, k: nat)
    requires i <= n
    ensures First(p, i, n) == Some(k) <==> i <= k < n && p(k) && forall j :: i <= j < k ==> !p(j)
    ensures First(p, i, n).None? <==> forall j :: i <= j < n ==> !p(j)
    decreases n - i
  {
    if i < n && !p(i) { FirstExact(p, i + 1, n, k); }
  }

  /** The tag's text at `i` in any case, and then the end of the text, white space, `/` or `>`. */
  predicate NamedAt(s: string, i: nat, tag: string) {
    && i + |tag| <= |s| && Lower(s[i..i + |tag|]) == tag
    && (i + |tag| == |s| || s[i + |tag|] in [' ', '\t', '\n', '\U{C}', '\r', '/', '>'])
  }

  /** `n` is just after the first `>` from `from` on, or the end when there is none. */
  predicate EndsAfterGt(s: string, from: nat, n: nat)
    requires from <= |s|
  {
    if '>' in s[from..] then from < n <= |s| && s[n - 1] == '>' && '>' !in s[from..n - 1] else n == |s|
  }

  predicate FirstNamed(s: string, open: nat, tag: string, k: nat) {
    open <= k < |s| && NamedAt(s, k, tag) && forall j :: open <= j < k ==> !NamedAt(s, j, tag)
  }

  /** `n` is where the first closing tag from `open` on ends, or the end when there is none. */
  ghost predicate EndsAfterTag(s: string, open: nat, tag: string, n: nat) {
    if exists k :: open <= k < |s| && NamedAt(s, k, tag)
    then exists k: nat :: FirstNamed(s, open, tag, k) && EndsAfterGt(s, k + |tag|, n)
    else n == |s|
  }

  /** A raw-text element whose opening tag goes on at `from` ends with its closing tag, if the opening tag ends. */
  ghost predicate EndsElement(s: string, from: nat, tag: string, n: nat)
    requires from <= |s|
  {
    if '>' in s[from..]
    then exists open: nat :: EndsAfterGt(s, from, open) && EndsAfterTag(s, open, tag, n)
    else n == |s|
  }

  lemma NamedExact(s: string, i: nat, tag: string)
    ensures TagAt(s, i, tag) <==> NamedAt(s, i, tag)
  {
  }

  lemma AfterGtExact(s: string, from: nat, n: nat)
    requires from <= |s|
    ensures AfterGt(s, from) == n <==> EndsAfterGt(s, from, n)
  {
    IndexOfExact(s, '>', from, if n > 0 then n - 1 else 0);
    if IndexOf(s, '>', from).Some? { IndexOfExact(s, '>', from, IndexOf(s, '>', from).value); }
  }

  lemma HitExact(s: string, open: nat, tag: string, k: nat)
    requires open <= |s|
    ensures First(ClosesAt(s, tag), open, |s|) == Some(k) <==> FirstNamed(s, open, tag, k)
    ensures First(ClosesAt(s, tag), open, |s|).None? <==> forall j :: open <= j < |s| ==> !NamedAt(s, j, tag)
  {
    var closes := ClosesAt(s, tag);
    forall j: nat ensures closes(j) <==> NamedAt(s, j, tag) { NamedExact(s, j, tag); }
    FirstExact(closes, open, |s|, k);
  }

  lemma AfterClosingExact(s: string, open: nat, tag: string, n: nat)
    requires open <= |s|
    ensures AfterClosing(s, open, tag) == n <==> EndsAfterTag(s, open, tag, n)
  {
    var hit := First(ClosesAt(s, tag), open, |s|);
    if hit.Some? {
      HitExact(s, open, tag, hit.value);
      AfterGtExact(s, hit.value + |tag|, n);
      FirstNamedEnds(s, open, tag, hit.value, n);
    } else {
      HitExact(s, open, tag, 0);
    }
  }

  lemma FirstNamedEnds(s: string, open: nat, tag: string, k: nat, n: nat)
    requires FirstNamed(s, open, tag, k)
    ensures EndsAfterTag(s, open, tag, n) <==> EndsAfterGt(s, k + |tag|, n)
  {
    forall j: nat | FirstNamed(s, open, tag, j) ensures j == k {}
  }

  lemma ElementExact(s: string, from: nat, tag: string, n: nat)
    requires from <= |s|
    ensures (if IndexOf(s, '>', from).Some? then AfterClosing(s, AfterGt(s, from), tag) else |s|) == n
            <==> EndsElement(s, from, tag, n)
  {
    var open := AfterGt(s, from);
    IndexOfExact(s, '>', from, 0);
    AfterClosingExact(s, open, tag, n);
    forall m: nat ensures EndsAfterGt(s, from, m) <==> m == open { AfterGtExact(s, from, m); }
  }

  /** Any `<` is skipped up to the next `>`, and a script or style element up to the end of its closing tag. */
  lemma AfterMarkupExact(s: string, i: nat, n: nat)
    requires i < |s|
    ensures AfterMarkup(s, i) == n <==>
            if NamedAt(s, i, "<script") then EndsElement(s, i + 1, "</script", n)
            else if NamedAt(s, i, "<style") then EndsElement(s, i + 1, "</style", n)
            else EndsAfterGt(s, i + 1, n)
  {
    NamedExact(s, i, "<script");
    NamedExact(s, i, "<style");
    AfterGtExact(s, i + 1, n);
    ElementExact(s, i + 1, "</script", n);
    ElementExact(s, i + 1, "</style", n);
  }

  // ---- No angle bracket is left.

  lemma {:induction false} BareHasNoLt(next: seq<nat>, s: string, i: nat)
    requires Forward(next, |s|) && i <= |s|
    ensures '<' !in Bare(next, s, i)
    decreases |s| - i
  {
    if i < |s| {
      if s[i] != '<' { BareHasNoLt(next, s, i + 1); } else { BareHasNoLt(next, s, next[i]); }
    }
  }

  lemma {:induction false} CollapsingKeepsOut(s: string, out: string, pendingSpace: bool, c: char)
    requires c != ' ' && c !in s && c !in out
    ensures c !in Collapsing(s, out, pendingSpace)
    decreases |s|
  {
    if s != "" {
      assert s[0] in s && forall x :: x in s[1..] ==> x in s;
      CollapsingKeepsOut(s[1..], if IsSpace(s[0]) then out else Spaced(out, pendingSpace) + [s[0]],
                         IsSpace(s[0]) && out != "", c);
    }
  }

  lemma TrimIsSlice(s: string) returns (lo: nat, hi: nat)
    ensures lo <= hi <= |s| && TrimJs(s) == s[lo..hi]
  {
    lo := SkipFrom(IsJsWhitespace, s, 0);
    hi := lo + KeepTo(IsJsWhitespace, s[lo..], |s| - lo);
    assert s[lo..][..hi - lo] == s[lo..hi];
  }

  lemma ProseHasNoLt(s: string)
    ensures '<' !in Prose(s)
  {
    BareHasNoLt(Jumps(s), s, 0);
    CollapsingKeepsOut(Unmarked(s), "", false, '<');
    var lo, hi := TrimIsSlice(Collapsing(Unmarked(s), "", false));
  }

  // ---- Collapsing is splitting into words and joining them.

  /** The pieces between white space characters, empty ones included. */
  function Split(s: string): seq<string>
    decreases |s|
  {
    var n := SkipFrom(NotSpace, s, 0);
    if n == |s| then [s] else [s[..n]] + Split(s[n + 1..])
  }

  function NonEmpty(parts: seq<string>): seq<string> {
    if parts == [] then [] else (if parts[0] == "" then [] else [parts[0]]) + NonEmpty(parts[1..])
  }

  function Words(s: string): seq<string> { NonEmpty(Split(s)) }

  /** Words put after text, a space between. */
  function Glue(out: string, words: seq<string>): string
    decreases |words|
  {
    if words == [] then out else Glue(Glued(out, words[0]), words[1..])
  }

  function Glued(out: string, word: string): string {
    if word == "" then out else if out == "" then word else out + " " + word
  }

  /** Inside a word, the first `n` characters are taken as they are. */
  lemma {:induction false} InsideWord(s: string, n: nat, out: string)
    requires n <= |s| && forall i :: 0 <= i < n ==> !IsSpace(s[i])
    ensures Collapsing(s, out, false) == Collapsing(s[n..], out + s[..n], false)
    decreases n
  {
    if n == 0 {
      assert s[0..] == s && out + s[..0] == out;
    } else {
      InsideWord(s[1..], n - 1, out + [s[0]]);
      assert s[1..][n - 1..] == s[n..];
      assert out + [s[0]] + s[1..][..n - 1] == out + s[..n];
    }
  }

  lemma SpacedWord(out: string, w: string)
    requires w != ""
    ensures Spaced(out, out != "") + [w[0]] + w[1..] == Glued(out, w)
  {
    assert [w[0]] + w[1..] == w;
    if out == "" { assert "" + w == w; } else { assert out + " " + [w[0]] + w[1..] == out + " " + ([w[0]] + w[1..]); }
  }

  lemma WordTaken(s: string, n: nat, out: string)
    requires 0 < n <= |s| && forall i :: 0 <= i < n ==> !IsSpace(s[i])
    ensures Collapsing(s, out, out != "") == Collapsing(s[n..], Glued(out, s[..n]), false)
  {
    InsideWord(s[1..], n - 1, Spaced(out, out != "") + [s[0]]);
    assert s[1..][n - 1..] == s[n..] && s[1..][..n - 1] == s[..n][1..];
    SpacedWord(out, s[..n]);
  }

  lemma NonEmptyCons(out: string, part: string, parts: seq<string>)
    ensures Glue(out, NonEmpty([part] + parts)) == Glue(Glued(out, part), NonEmpty(parts))
  {
    assert ([part] + parts)[1..] == parts;
    if part == "" {
      assert [] + NonEmpty(parts) == NonEmpty(parts);
    } else {
      assert ([part] + NonEmpty(parts))[1..] == NonEmpty(parts);
    }
  }

  /** One piece, up to white space or the end. */
  lemma PieceTaken(s: string, n: nat, out: string)
    requires n <= |s| && (n < |s| ==> IsSpace(s[n])) && forall i :: 0 <= i < n ==> !IsSpace(s[i])
    ensures var next := Glued(out, s[..n]);
            Collapsing(s, out, out != "") == if n == |s| then next else Collapsing(s[n + 1..], next, next != "")
  {
    if n == 0 { assert s[0..] == s; } else { WordTaken(s, n, out); }
    if n < |s| { assert s[n..][1..] == s[n + 1..]; }
  }

  lemma {:induction false} CollapsingWords(s: string, out: string)
    ensures Collapsing(s, out, out != "") == Glue(out, NonEmpty(Split(s)))
    decreases |s|
  {
    var n := SkipFrom(NotSpace, s, 0);
    PieceTaken(s, n, out);
    if n == |s| {
      assert s[..n] == s && [s] + [] == [s];
      NonEmptyCons(out, s, []);
    } else {
      NonEmptyCons(out, s[..n], Split(s[n + 1..]));
      CollapsingWords(s[n + 1..], Glued(out, s[..n]));
    }
  }

  lemma {:induction false} GlueIsJoin(out: string, words: seq<string>)
    requires out != "" && "" !in words
    ensures Glue(out, words) == Join([out] + words, " ")
    decreases |words|
  {
    assert ([out] + words)[1..] == words;
    if words != [] {
      var next := out + " " + words[0];
      GlueIsJoin(next, words[1..]);
      JoinMerge(out, words[0], words[1..]);
      assert [words[0]] + words[1..] == words;
    }
  }

  lemma JoinMerge(a: string, b: string, rest: seq<string>)
    ensures Join([a] + ([b] + rest), " ") == Join([a + " " + b] + rest, " ")
  {
    assert ([a] + ([b] + rest))[1..] == [b] + rest;
    assert ([b] + rest)[1..] == rest && ([a + " " + b] + rest)[1..] == rest;
    if rest != [] { assert a + " " + (b + " " + Join(rest, " ")) == a + " " + b + " " + Join(rest, " "); }
  }

  lemma {:induction false} NonEmptyHasNone(parts: seq<string>)
    ensures "" !in NonEmpty(parts)
  {
    if parts != [] { NonEmptyHasNone(parts[1..]); }
  }

  /** Collapsing joins the words by single spaces, then trims by JavaScript's wider set of white space. */
  lemma CollapseExact(s: string)
    ensures Collapsed(s) == TrimJs(Join(Words(s), " "))
    ensures Collapsed(s) == Join(Words(s), " ") <==> TrimmedBy(IsJsWhitespace, Join(Words(s), " "))
  {
    var ws := Words(s);
    CollapsingWords(s, "");
    NonEmptyHasNone(Split(s));
    if ws != [] {
      assert ws[0] in ws;
      GlueIsJoin(ws[0], ws[1..]);
      assert [ws[0]] + ws[1..] == ws;
    }
  }

  // ---- Stripping twice.

  /** Every white space character is a lone space. */
  predicate Tidy(s: string) {
    forall i :: 0 <= i < |s| && IsSpace(s[i]) ==> s[i] == ' ' && (i + 1 < |s| ==> !IsSpace(s[i + 1]))
  }

  lemma {:induction false} CollapsingTidy(s: string, out: string, pendingSpace: bool)
    requires Tidy(out) && TrimmedBy(IsSpace, out) && (pendingSpace ==> out != "")
    ensures Tidy(Collapsing(s, out, pendingSpace))
    decreases |s|
  {
    if s != "" {
      if IsSpace(s[0]) {
        CollapsingTidy(s[1..], out, out != "");
      } else {
        CollapsingTidy(s[1..], Spaced(out, pendingSpace) + [s[0]], false);
      }
    }
  }

  /** Tidy text with no white space at its ends is left as it is; `i` characters have been taken. */
  lemma {:induction false} TidyKept(s: string, i: nat)
    requires Tidy(s) && TrimmedBy(IsSpace, s) && i <= |s|
    ensures if i > 0 && IsSpace(s[i - 1]) then Collapsing(s[i..], s[..i - 1], true) == s
            else Collapsing(s[i..], s[..i], false) == s
    decreases |s| - i
  {
    if i == |s| {
      assert s[..i] == s;
    } else {
      TidyKept(s, i + 1);
      assert s[i..][1..] == s[i + 1..];
      if i > 0 && IsSpace(s[i - 1]) {
        assert s[..i - 1] + " " + [s[i]] == s[..i + 1];
      } else if !IsSpace(s[i]) {
        assert s[..i] + [s[i]] == s[..i + 1];
      }
    }
  }

  lemma JsCovers(c: char)
    ensures IsSpace(c) ==> IsJsWhitespace(c)
  {
  }

  lemma TidyFixed(s: string)
    requires Tidy(s) && TrimmedBy(IsJsWhitespace, s)
    ensures Collapsed(s) == s
  {
    if s != "" {
      JsCovers(s[0]);
      JsCovers(s[|s| - 1]);
    }
    TidyKept(s, 0);
    assert s[0..] == s && s[..0] == "";
  }

  lemma {:induction false} BareWithoutLt(next: seq<nat>, s: string, i: nat)
    requires Forward(next, |s|) && i <= |s| && '<' !in s
    ensures Bare(next, s, i) == s[i..]
    decreases |s| - i
  {
    if i < |s| {
      BareWithoutLt(next, s, i + 1);
      assert s[i] in s && [s[i]] + s[i + 1..] == s[i..];
    }
  }

  lemma UnmarkedWithoutLt(s: string)
    requires '<' !in s
    ensures Unmarked(s) == s
  {
    BareWithoutLt(Jumps(s), s, 0);
    assert s[0..] == s;
  }

  lemma TidySlice(text: string, lo: nat, hi: nat)
    requires Tidy(text) && lo <= hi <= |text|
    ensures Tidy(text[lo..hi])
  {
    assert forall i :: 0 <= i < hi - lo ==> text[lo..hi][i] == text[lo + i];
  }

  lemma TrimTidy(text: string)
    requires Tidy(text)
    ensures Tidy(TrimJs(text))
  {
    var lo, hi := TrimIsSlice(text);
    TidySlice(text, lo, hi);
  }

  lemma ProseTidy(s: string)
    ensures Tidy(Prose(s)) && TrimmedBy(IsJsWhitespace, Prose(s))
  {
    CollapsingTidy(Unmarked(s), "", false);
    TrimTidy(Collapsing(Unmarked(s), "", false));
  }

  /** Before the cut, stripping is idempotent, and what it leaves holds no `<`. */
  lemma ProseIdempotent(s: string)
    ensures Prose(Prose(s)) == Prose(s) && '<' !in Prose(s)
  {
    ProseHasNoLt(s);
    ProseTidy(s);
    UnmarkedWithoutLt(Prose(s));
    TidyFixed(Prose(s));
  }

  lemma ProseShrinks(s: string)
    requires '<' !in s
    ensures |Prose(s)| <= |s|
  {
    UnmarkedWithoutLt(s);
    CollapsingShrinks(s, "", false);
    var lo, hi := TrimIsSlice(Collapsing(s, "", false));
  }

  lemma CutTidy(c: string)
    requires |c| > LIMIT && Tidy(c) && TrimmedBy(IsJsWhitespace, c) && '<' !in c
    requires !IsJsWhitespace(c[LIMIT - 1])
    ensures Prose(c[..LIMIT]) == c[..LIMIT]
  {
    var r := c[..LIMIT];
    assert forall x :: x in r ==> x in c;
    UnmarkedWithoutLt(r);
    TidyFixed(r);
  }

  /** With the cut, stripping is idempotent unless the cut falls just after white space. */
  lemma StripIdempotentExact(s: string)
    ensures var (c, r) := (Prose(s), CutTo(Prose(s)));
            && '<' !in r && |r| <= LIMIT
            && (CutTo(Prose(r)) == r <==> !(|c| > LIMIT && IsJsWhitespace(c[LIMIT - 1])))
  {
    var (c, r) := (Prose(s), CutTo(Prose(s)));
    ProseIdempotent(s);
    ProseTidy(s);
    CutProse(c, r);
  }

  lemma CutProse(c: string, r: string)
    requires r == CutTo(c) && Prose(c) == c && Tidy(c) && TrimmedBy(IsJsWhitespace, c) && '<' !in c
    ensures '<' !in r && (CutTo(Prose(r)) == r <==> !(|c| > LIMIT && IsJsWhitespace(c[LIMIT - 1])))
  {
    assert forall x :: x in r ==> x in c;
    if |c| > LIMIT {
      if IsJsWhitespace(c[LIMIT - 1]) {
        ProseTidy(r);
        ProseShrinks(r);
        CutEnds(Prose(r), r);
      } else {
        CutTidy(c);
      }
    }
  }

  lemma {:induction false} CollapsingShrinks(s: string, out: string, pendingSpace: bool)
    ensures |Collapsing(s, out, pendingSpace)| <= |out| + (if pendingSpace then 1 else 0) + |s|
    decreases |s|
  {
    if s != "" {
      if IsSpace(s[0]) {
        CollapsingShrinks(s[1..], out, out != "");
      } else {
        CollapsingShrinks(s[1..], Spaced(out, pendingSpace) + [s[0]], false);
      }
    }
  }

  /** Trimmed text cannot be cut text that ends in white space, whatever the cut does to it. */
  lemma CutEnds(p: string, r: string)
    requires |r| == LIMIT && IsJsWhitespace(r[LIMIT - 1])
    requires TrimmedBy(IsJsWhitespace, p) && |p| <= LIMIT
    ensures CutTo(p) != r
  {
  }

  lemma RepeatedTidy(n: nat, tail: string)
    requires n > 0 && Tidy(tail) && '<' !in tail
    ensures Tidy(Repeated('a', n) + tail) && '<' !in Repeated('a', n) + tail
  {
    var (a, s) := (Repeated('a', n), Repeated('a', n) + tail);
    assert forall i :: 0 <= i < n ==> s[i] == a[i] == 'a';
    assert forall i :: n <= i < |s| ==> s[i] == tail[i - n];
  }

  /** 7999 letters, a space and a letter: the cut leaves the space at the end, and the next pass drops it. */
  lemma CutExample()
    ensures var (text, letters) := (Repeated('a', LIMIT - 1) + " b", Repeated('a', LIMIT - 1));
            && CutTo(Prose(text)) == letters + " "
            && CutTo(Prose(letters + " ")) != letters + " "
  {
    var (text, letters) := (Repeated('a', LIMIT - 1) + " b", Repeated('a', LIMIT - 1));
    RepeatedTidy(LIMIT - 1, " b");
    UnmarkedWithoutLt(text);
    TidyFixed(text);
    assert text[..LIMIT] == letters + " ";
    assert text[LIMIT - 1] == ' ';
    StripIdempotentExact(text);
  }
}
