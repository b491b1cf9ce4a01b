/** Decimal numerals. */
module Decimal {
  import opened Text

  predicate AllDigits(s: string) { forall i :: 0 <= i < |s| ==> IsDigit(s[i]) }

  function DigitChar(d: nat): (c: char)
    requires d < 10
    ensures IsDigit(c) && DigitValue(c) == d
  {
    (d + 48) as char
  }

  function DigitValue(c: char): (d: nat)
    requires IsDigit(c)
    ensures d < 10
  {
    c as nat - 48
  }

  /** The number a run of digits stands for. */
  function Value(s: string): nat
    requires AllDigits(s)
  {
    if s == "" then 0 else 10 * Value(s[..|s| - 1]) + DigitValue(s[|s| - 1])
  }

  /** `to_string` on an unsigned integer. */
  function Numeral(n: nat): (s: string)
    ensures s != "" && AllDigits(s)
  {
    if n < 10 then [DigitChar(n)] else Numeral(n / 10) + [DigitChar(n % 10)]
  }

  lemma {:induction false} NumeralValue(n: nat)
    ensures Value(Numeral(n)) == n
  {
    if n >= 10 {
      NumeralValue(n / 10);
      assert Numeral(n)[..|Numeral(n)| - 1] == Numeral(n / 10);
    } else {
      assert Numeral(n)[..0] == "";
    }
  }
}

/** Printing a count with thousands separators. */
module Thousands {
  import opened Text
  import opened Decimal

  /** A comma goes before every further whole number of groups of three. */
  function Grouped(s: string): string {
    if s == "" then "" else Before(s[0], |s| - 1) + Grouped(s[1..])
  }

  /** What a digit with `left` digits to its right contributes. */
  function Before(c: char, left: nat): string {
    if left > 0 && left % 3 == 0 then [c, ','] else [c]
  }

  function Reversed(s: string): (r: string)
    ensures |r| == |s| && forall i :: 0 <= i < |s| ==> r[i] == s[|s| - 1 - i]
  {
    seq(|s|, i requires 0 <= i < |s| => s[|s| - 1 - i])
  }

  lemma ReversedPush(s: string, c: char)
    ensures Reversed(s + [c]) == [c] + Reversed(s)
    ensures Reversed(s + "," + [c]) == [c, ','] + Reversed(s)
  {
  }

  /** The digits are pushed last to first, and the text is turned round at the end. */
  method FmtNum(n: nat) returns (r: string)
    ensures r == Grouped(Numeral(n))
  {
    var s := Numeral(n);
    var result := "";
    for i := 0 to |s|
      invariant Reversed(result) == Grouped(s[|s| - i..])
    {
      ghost var was := result;
      ReversedPush(was, s[|s| - 1 - i]);
      assert s[|s| - i - 1..][1..] == s[|s| - i..];
      if i > 0 && i % 3 == 0 { result := result + ","; }
      result := result + [s[|s| - 1 - i]];
    }
    assert s[0..] == s;
    r := Reversed(result);
  }

  function WithoutCommas(s: string): string {
    if s == "" then "" else (if s[0] == ',' then "" else [s[0]]) + WithoutCommas(s[1..])
  }

  lemma WithoutCommasBefore(c: char, left: nat, s: string)
    requires c != ','
    ensures WithoutCommas(Before(c, left) + s) == [c] + WithoutCommas(s)
  {
    var t := Before(c, left) + s;
    if left > 0 && left % 3 == 0 {
      assert t[1..] == [','] + s;
      assert t[1..][1..] == s;
      assert WithoutCommas(t[1..]) == WithoutCommas(s);
    } else {
      assert t[1..] == s;
    }
  }

  lemma {:induction false} GroupedDigits(s: string)
    requires ',' !in s
    ensures WithoutCommas(Grouped(s)) == s
  {
    if s != "" {
      GroupedDigits(s[1..]);
      WithoutCommasBefore(s[0], |s| - 1, Grouped(s[1..]));
    }
  }

  lemma {:induction false} GroupedLength(s: string)
    ensures |Grouped(s)| == if s == "" then 0 else |s| + (|s| - 1) / 3
  {
    if s != "" { GroupedLength(s[1..]); }
  }

  lemma FromTheRight(a: string, b: string, k: nat)
    requires k < |a + b|
    ensures (a + b)[|a + b| - 1 - k] == if k < |b| then b[|b| - 1 - k] else a[|a + b| - 1 - k]
  {
  }

  lemma CommaAtJoint(left: nat)
    ensures (if left == 0 then 0 else left + (left - 1) / 3) % 4 == 3 <==> left > 0 && left % 3 == 0
  {
  }

  lemma BeforeFromRight(c: char, left: nat, g: string, k: nat)
    requires c != ',' && |g| <= k < |Before(c, left) + g|
    requires |g| % 4 == 3 <==> left > 0 && left % 3 == 0
    ensures var r := Before(c, left) + g; r[|r| - 1 - k] == ',' <==> k % 4 == 3
  {
  }

  /** Counted from the right, exactly every fourth character is a comma. */
  lemma {:induction false} CommaPlaces(s: string, k: nat)
    requires ',' !in s && k < |Grouped(s)|
    ensures Grouped(s)[|Grouped(s)| - 1 - k] == ',' <==> k % 4 == 3
  {
    var (t, g) := (s[1..], Grouped(s[1..]));
    FromTheRight(Before(s[0], |t|), g, k);
    if k < |g| {
      CommaPlaces(t, k);
    } else {
      GroupedLength(t);
      CommaAtJoint(|t|);
      BeforeFromRight(s[0], |t|, g, k);
    }
  }

  /** A printed count reads back as the count, and its commas stand exactly between groups of three. */
  lemma FmtNumExact(n: nat)
    ensures var r := Grouped(Numeral(n));
            && WithoutCommas(r) == Numeral(n) && Value(Numeral(n)) == n
            && forall k: nat :: k < |r| ==> (r[|r| - 1 - k] == ',' <==> k % 4 == 3)
  {
    GroupedDigits(Numeral(n));
    NumeralValue(n);
    var r := Grouped(Numeral(n));
    forall k: nat | k < |r| ensures r[|r| - 1 - k] == ',' <==> k % 4 == 3 { CommaPlaces(Numeral(n), k); }
  }
}
