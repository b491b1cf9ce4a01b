/** Stripping printed markup: text stays, every tag and every raw-text element becomes one space. */
module HtmlNodes {
  import opened Wrappers
  import opened Search
  import opened Text
  import opened ContentWatch

  /** A raw-text element: its start tag, what is inside, its end tag, both tags without their `>`. */
  datatype Node = Plain(text: string)
                | Tag(tag: string)
                | Raw(name: string, end: string, open: string, inside: string, close: string)

  predicate IsRawName(name: string, end: string) {
    (name == SCRIPT && end == END_SCRIPT) || (name == STYLE && end == END_STYLE)
  }

  predicate WellFormed(n: Node) {
    match n
    case Plain(text) => '<' !in text
    case Tag(tag) =>
      tag != "" && tag[0] == '<' && '>' !in tag && !TagAt(tag + ">", 0, SCRIPT) && !TagAt(tag + ">", 0, STYLE)
    case Raw(name, end, open, inside, close) =>
      && IsRawName(name, end)
      && '>' !in open && TagAt(open + ">", 0, name)
      && '>' !in close && |close| >= |end| && TagAt(close + ">", 0, end)
      && forall k :: 0 <= k < |inside| ==> !TagAt(inside + (close + ">"), k, end)
  }

  function Print(n: Node): string {
    match n
    case Plain(text) => text
    case Tag(tag) => tag + ">"
    case Raw(_, _, open, inside, close) => (open + ">") + (inside + (close + ">"))
  }

  function Left(n: Node): string { if n.Plain? then n.text else " " }

  // ---- Only what lies ahead matters.

  lemma TagAtShift(a: string, x: string, i: nat, needle: string)
    ensures TagAt(a + x, |a| + i, needle) <==> TagAt(x, i, needle)
  {
    if i + |needle| <= |x| { assert (a + x)[|a| + i..|a| + i + |needle|] == x[i..i + |needle|]; }
  }

  function Moved(d: nat, hit: Option<nat>): Option<nat> { match hit case None => None case Some(k) => Some(d + k) }

  lemma {:induction false} IndexOfShift(a: string, x: string, c: char, from: nat)
    requires from <= |x|
    ensures IndexOf(a + x, c, |a| + from) == Moved(|a|, IndexOf(x, c, from))
    decreases |x| - from
  {
    if from < |x| {
      assert (a + x)[|a| + from] == x[from];
      IndexOfShift(a, x, c, from + 1);
    }
  }

  lemma AfterGtShift(a: string, x: string, from: nat)
    requires from <= |x|
    ensures AfterGt(a + x, |a| + from) == |a| + AfterGt(x, from)
  {
    IndexOfShift(a, x, '>', from);
  }

  ghost predicate Shifted(p: nat -> bool, q: nat -> bool, d: nat, n: nat) {
    forall k: nat :: k < n ==> p(d + k) == q(k)
  }

  lemma {:induction false} FirstShift(p: nat -> bool, q: nat -> bool, d: nat, i: nat, n: nat)
    requires i <= n && Shifted(p, q, d, n)
    ensures First(p, d + i, d + n) == Moved(d, First(q, i, n))
    decreases n - i
  {
    if i < n { FirstShift(p, q, d, i + 1, n); }
  }

  lemma ClosesAtShiftOne(p: nat -> bool, q: nat -> bool, a: string, x: string, k: nat, end: string)
    requires p == ClosesAt(a + x, end) && q == ClosesAt(x, end)
    ensures p(|a| + k) == q(k)
  {
    TagAtShift(a, x, k, end);
  }

  lemma ClosesAtShift(p: nat -> bool, q: nat -> bool, a: string, x: string, end: string)
    requires p == ClosesAt(a + x, end) && q == ClosesAt(x, end)
    ensures Shifted(p, q, |a|, |x|)
  {
    forall k: nat | k < |x| ensures p(|a| + k) == q(k) { ClosesAtShiftOne(p, q, a, x, k, end); }
  }

  lemma FirstClosingShift(a: string, x: string, from: nat, end: string)
    requires from <= |x|
    ensures First(ClosesAt(a + x, end), |a| + from, |a + x|) == Moved(|a|, First(ClosesAt(x, end), from, |x|))
  {
    var (p, q) := (ClosesAt(a + x, end), ClosesAt(x, end));
    ClosesAtShift(p, q, a, x, end);
    FirstShift(p, q, |a|, from, |x|);
  }

  lemma AfterHitShift(a: string, x: string, hit: Option<nat>, width: nat)
    requires hit.Some? ==> hit.value <= |x|
    ensures AfterHit(a + x, Moved(|a|, hit), width) == |a| + AfterHit(x, hit, width)
  {
    if hit.Some? && hit.value + width <= |x| { AfterGtShift(a, x, hit.value + width); }
  }

  lemma AfterClosingShift(a: string, x: string, from: nat, end: string)
    requires from <= |x|
    ensures AfterClosing(a + x, |a| + from, end) == |a| + AfterClosing(x, from, end)
  {
    FirstClosingShift(a, x, from, end);
    AfterHitShift(a, x, First(ClosesAt(x, end), from, |x|), |end|);
  }

  lemma MarkupAtShift(a: string, x: string, i: nat)
    ensures MarkupAt(a + x, |a| + i) == MarkupAt(x, i)
  {
    TagAtShift(a, x, i, SCRIPT);
    TagAtShift(a, x, i, STYLE);
  }

  lemma ClosedShift(a: string, x: string, i: nat)
    requires i < |x|
    ensures Closed(a + x, |a| + i) == Closed(x, i)
  {
    IndexOfShift(a, x, '>', i + 1);
  }

  lemma AfterShift(a: string, x: string, i: nat, m: Markup)
    requires i < |x|
    ensures After(a + x, |a| + i, m) == |a| + After(x, i, m)
  {
    AfterGtShift(a, x, i + 1);
    if m.Element? {
      ClosedShift(a, x, i);
      AfterClosingShift(a, x, AfterGt(x, i + 1), m.end);
    }
  }

  lemma AfterMarkupShift(a: string, x: string, i: nat)
    requires i < |x|
    ensures AfterMarkup(a + x, |a| + i) == |a| + AfterMarkup(x, i)
  {
    MarkupAtShift(a, x, i);
    AfterShift(a, x, i, MarkupAt(x, i));
  }

  lemma JumpsShift(a: string, x: string)
    ensures forall i :: 0 <= i < |x| ==> Jumps(a + x)[|a| + i] == |a| + Jumps(x)[i]
  {
    forall i: nat | i < |x| ensures Jumps(a + x)[|a| + i] == |a| + Jumps(x)[i] { AfterMarkupShift(a, x, i); }
  }

  lemma {:induction false} BareAhead(sn: seq<nat>, s: string, d: nat, xn: seq<nat>, x: string, i: nat)
    requires Forward(sn, |s|) && Forward(xn, |x|) && |s| == d + |x| && i <= |x|
    requires forall k :: 0 <= k < |x| ==> s[d + k] == x[k] && sn[d + k] == d + xn[k]
    ensures Bare(sn, s, d + i) == Bare(xn, x, i)
    decreases |x| - i
  {
    if i < |x| {
      assert s[d + i] == x[i] && sn[d + i] == d + xn[i];
      if x[i] != '<' { BareAhead(sn, s, d, xn, x, i + 1); } else { BareAhead(sn, s, d, xn, x, xn[i]); }
    }
  }

  lemma BareShift(a: string, x: string)
    ensures Bare(Jumps(a + x), a + x, |a|) == Unmarked(x)
  {
    JumpsShift(a, x);
    BareAhead(Jumps(a + x), a + x, |a|, Jumps(x), x, 0);
  }

  // ---- One node.

  /** Whether a tag stands at a place before a `>` does not depend on what follows that `>`. */
  lemma TagAtLocal(y: string, rest: string, k: nat, needle: string)
    requires y != "" && y[|y| - 1] == '>' && k < |y| && '>' !in needle
    ensures TagAt(y + rest, k, needle) <==> TagAt(y, k, needle)
  {
    var (s, j) := (y + rest, k + |needle|);
    if j < |y| {
      assert s[k..j] == y[k..j];
    } else {
      if j <= |s| { NoGtInside(s, k, needle, |y| - 1); }
      if j == |y| { NoGtInside(y, k, needle, |y| - 1); }
    }
  }

  lemma NoGtInside(s: string, k: nat, needle: string, g: nat)
    requires k <= g < k + |needle| <= |s| && s[g] == '>' && '>' !in needle
    ensures !TagAt(s, k, needle)
  {
    var low := Lower(s[k..k + |needle|]);
    assert low[g - k] == LowerChar('>') == '>';
    assert '>' in low;
  }

  lemma {:induction false} IndexOfIs(s: string, c: char, from: nat, k: nat)
    requires from <= k < |s| && s[k] == c && forall j: nat :: from <= j < k ==> s[j] != c
    ensures IndexOf(s, c, from) == Some(k)
    decreases k - from
  {
    if from < k { IndexOfIs(s, c, from + 1, k); }
  }

  lemma OneCharTaken(c: char, x: string)
    requires c != '<'
    ensures Unmarked([c] + x) == [c] + Unmarked(x)
  {
    BareShift([c], x);
  }

  lemma {:induction false} PlainTaken(text: string, rest: string)
    requires '<' !in text
    ensures Unmarked(text + rest) == text + Unmarked(rest)
  {
    if text == "" {
      assert text + rest == rest;
    } else {
      var (c, x) := (text[0], text[1..] + rest);
      assert text + rest == [c] + x && c in text;
      assert forall d :: d in text[1..] ==> d in text;
      PlainTaken(text[1..], rest);
      OneCharTaken(c, x);
      assert [c] + (text[1..] + Unmarked(rest)) == text + Unmarked(rest);
    }
  }

  /** Markup that is jumped over whole leaves a space. */
  lemma JumpTaken(markup: string, rest: string)
    requires markup != "" && markup[0] == '<' && AfterMarkup(markup + rest, 0) == |markup|
    ensures Unmarked(markup + rest) == " " + Unmarked(rest)
  {
    var s := markup + rest;
    assert s[0] == '<' && Jumps(s)[0] == |markup|;
    BareShift(markup, rest);
  }

  /** Where a start tag's `>` is. */
  lemma StartTagEnds(open: string, rest: string)
    requires open != "" && '>' !in open
    ensures IndexOf((open + ">") + rest, '>', 1) == Some(|open|)
  {
    var s := (open + ">") + rest;
    assert forall j: nat :: 1 <= j < |open| ==> s[j] == open[j] && s[j] in open;
    IndexOfIs(s, '>', 1, |open|);
  }

  lemma TagJumped(tag: string, rest: string)
    requires WellFormed(Tag(tag))
    ensures AfterMarkup((tag + ">") + rest, 0) == |tag + ">"|
  {
    TagAtLocal(tag + ">", rest, 0, SCRIPT);
    TagAtLocal(tag + ">", rest, 0, STYLE);
    StartTagEnds(tag, rest);
  }

  lemma {:induction false} FirstIs(p: nat -> bool, i: nat, k: nat, n: nat)
    requires i <= k < n && p(k) && forall j: nat :: i <= j < k ==> !p(j)
    ensures First(p, i, n) == Some(k)
    decreases n - i
  {
    if i < k { FirstIs(p, i + 1, k, n); }
  }

  lemma EndTagAt(end: string, inside: string, close: string, rest: string)
    requires '>' !in end && TagAt(close + ">", 0, end)
    requires forall k :: 0 <= k < |inside| ==> !TagAt(inside + (close + ">"), k, end)
    ensures var x := (inside + (close + ">")) + rest; First(ClosesAt(x, end), 0, |x|) == Some(|inside|)
  {
    var y := inside + (close + ">");
    var x := y + rest;
    var p := ClosesAt(x, end);
    assert y[|y| - 1] == '>';
    forall k: nat | k < |inside| ensures !p(k) { TagAtLocal(y, rest, k, end); }
    TagAtShift(inside, close + ">", 0, end);
    TagAtLocal(y, rest, |inside|, end);
    FirstIs(p, 0, |inside|, |x|);
  }

  lemma InsideClose(before: string, close: string, rest: string, j: nat)
    requires |before| <= j <= |before| + |close|
    ensures var x := (before + (close + ">")) + rest;
            j < |x| && x[j] == if j < |before| + |close| then close[j - |before|] else '>'
  {
  }

  lemma EndTagEnds(before: string, close: string, width: nat, rest: string)
    requires width <= |close| && '>' !in close
    ensures var x := (before + (close + ">")) + rest;
            |before| + width <= |x| && IndexOf(x, '>', |before| + width) == Some(|before| + |close|)
  {
    var x := (before + (close + ">")) + rest;
    forall j: nat | |before| + width <= j < |before| + |close| ensures x[j] != '>' {
      InsideClose(before, close, rest, j);
    }
    InsideClose(before, close, rest, |before| + |close|);
    IndexOfIs(x, '>', |before| + width, |before| + |close|);
  }

  /** The end tag that counts is the one the element was printed with. */
  lemma EndTagFound(end: string, inside: string, close: string, rest: string)
    requires '>' !in end && '>' !in close && |close| >= |end| && TagAt(close + ">", 0, end)
    requires forall k :: 0 <= k < |inside| ==> !TagAt(inside + (close + ">"), k, end)
    ensures var x := (inside + (close + ">")) + rest; AfterClosing(x, 0, end) == |inside + (close + ">")|
  {
    EndTagAt(end, inside, close, rest);
    EndTagEnds(inside, close, |end|, rest);
  }

  lemma ThirdLetter(s: string, needle: string)
    requires |needle| > 2
    ensures TagAt(s, 0, needle) ==> |s| > 2 && LowerChar(s[2]) == needle[2]
  {
    if |needle| <= |s| { assert Lower(s[0..|needle|])[2] == LowerChar(s[2]); }
  }

  lemma NamesDiffer(s: string)
    ensures !(TagAt(s, 0, SCRIPT) && TagAt(s, 0, STYLE))
  {
    ThirdLetter(s, SCRIPT);
    ThirdLetter(s, STYLE);
  }

  lemma OpensWith(open: string, name: string, end: string)
    requires '>' !in open && IsRawName(name, end) && TagAt(open + ">", 0, name)
    ensures open != "" && open[0] == '<' && '>' !in name && '>' !in end
  {
    var o := open + ">";
    assert Lower(o[0..|name|])[0] == LowerChar(o[0]) == '<';
    assert o[0] == '<';
  }

  lemma RawMarkup(open: string, name: string, end: string, x: string)
    requires '>' !in open && IsRawName(name, end) && TagAt(open + ">", 0, name)
    ensures MarkupAt((open + ">") + x, 0) == Element(end)
  {
    OpensWith(open, name, end);
    TagAtLocal(open + ">", x, 0, name);
    NamesDiffer((open + ">") + x);
  }

  lemma ElementJumped(o: string, x: string, end: string)
    requires MarkupAt(o + x, 0) == Element(end) && o != "" && IndexOf(o + x, '>', 1) == Some(|o| - 1)
    ensures AfterMarkup(o + x, 0) == |o| + AfterClosing(x, 0, end)
  {
    AfterClosingShift(o, x, 0, end);
  }

  lemma RawLanding(o: string, name: string, end: string, y: string, rest: string)
    requires o != "" && o[|o| - 1] == '>' && '>' !in o[..|o| - 1] && IsRawName(name, end) && TagAt(o, 0, name)
    requires AfterClosing(y + rest, 0, end) == |y|
    ensures AfterMarkup(o + (y + rest), 0) == |o| + |y| && o[0] == '<'
  {
    var open := o[..|o| - 1];
    assert o == open + ">";
    OpensWith(open, name, end);
    RawMarkup(open, name, end, y + rest);
    StartTagEnds(open, y + rest);
    ElementJumped(o, y + rest, end);
  }

  lemma PutBack(o: string, y: string, rest: string)
    ensures (o + y) + rest == o + (y + rest)
  {
  }

  lemma RawJumped(n: Node, rest: string)
    requires WellFormed(n) && n.Raw?
    ensures Print(n)[0] == '<' && AfterMarkup(Print(n) + rest, 0) == |Print(n)|
  {
    var (o, y) := (n.open + ">", n.inside + (n.close + ">"));
    OpensWith(n.open, n.name, n.end);
    EndTagFound(n.end, n.inside, n.close, rest);
    assert o[..|o| - 1] == n.open;
    RawLanding(o, n.name, n.end, y, rest);
    PutBack(o, y, rest);
  }

  // ---- Any sequence of nodes.

  function PrintAll(nodes: seq<Node>): string { if nodes == [] then "" else Print(nodes[0]) + PrintAll(nodes[1..]) }

  function LeftOfAll(nodes: seq<Node>): string { if nodes == [] then "" else Left(nodes[0]) + LeftOfAll(nodes[1..]) }

  lemma NodeJumped(n: Node, rest: string)
    requires WellFormed(n) && !n.Plain?
    ensures Print(n) != "" && Print(n)[0] == '<' && AfterMarkup(Print(n) + rest, 0) == |Print(n)|
  {
    if n.Tag? { TagJumped(n.tag, rest); } else { RawJumped(n, rest); }
  }

  lemma NodeTaken(n: Node, rest: string)
    requires WellFormed(n)
    ensures Unmarked(Print(n) + rest) == Left(n) + Unmarked(rest)
  {
    if n.Plain? {
      PlainTaken(n.text, rest);
    } else {
      NodeJumped(n, rest);
      JumpTaken(Print(n), rest);
    }
  }

  /** Of printed markup, stripping leaves the text, and one space for each tag and each raw-text element. */
  lemma {:induction false} MarkupStripped(nodes: seq<Node>)
    requires forall i :: 0 <= i < |nodes| ==> WellFormed(nodes[i])
    ensures Unmarked(PrintAll(nodes)) == LeftOfAll(nodes)
    decreases |nodes|
  {
    if nodes != [] {
      MarkupStripped(nodes[1..]);
      NodeTaken(nodes[0], PrintAll(nodes[1..]));
    }
  }

  /** The prompt gets the words of that text. */
  lemma PromptOfMarkup(nodes: seq<Node>)
    requires forall i :: 0 <= i < |nodes| ==> WellFormed(nodes[i])
    ensures Prose(PrintAll(nodes)) == TrimJs(Join(Words(LeftOfAll(nodes)), " "))
  {
    MarkupStripped(nodes);
    CollapseExact(LeftOfAll(nodes));
  }
}
