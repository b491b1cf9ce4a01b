/** Parsing a duration such as `1d12h`. */
module Durations {
  import opened Text
  import opened Decimal

  const I64_MAX := 0x7FFF_FFFF_FFFF_FFFF

  /** `Overflow`: a product or the sum leaves the 64-bit range, where the source has no error path. */
  datatype Outcome = Parsed(secs: nat) | Refused | Overflow

  predicate IsUnit(c: char) { c == 'd' || c == 'h' || c == 'm' || c == 's' }

  function Factor(unit: char): (f: nat)
    ensures f >= 1
  {
    if unit == 'd' then 86400 else if unit == 'h' then 3600 else if unit == 'm' then 60 else 1
  }

  predicate Reads(digits: string) { digits != "" && AllDigits(digits) && Value(digits) <= I64_MAX }

  /** The state machine from a total and a run of digits not yet used. */
  function Scan(s: string, total: nat, numBuf: string): Outcome
    requires AllDigits(numBuf)
    decreases |s|
  {
    if s == "" then Finish(total, numBuf)
    else if IsDigit(s[0]) then Scan(s[1..], total, numBuf + [s[0]])
    else if !IsUnit(s[0]) || !Reads(numBuf) then Refused
    else
      var n := Value(numBuf) * Factor(s[0]);
      if n > I64_MAX || total + n > I64_MAX then Overflow else Scan(s[1..], total + n, "")
  }

  function Finish(total: nat, numBuf: string): Outcome
    requires AllDigits(numBuf)
  {
    if numBuf == "" then if total == 0 then Refused else Parsed(total)
    else if !Reads(numBuf) then Refused
    else if total + Value(numBuf) > I64_MAX then Overflow
    else if total + Value(numBuf) == 0 then Refused
    else Parsed(total + Value(numBuf))
  }

  method ParseDurationSecs(s: string) returns (r: Outcome)
    ensures r == Scan(s, 0, "")
  {
    var total: nat := 0;
    var numBuf := "";
    assert s[0..] == s;
    for i := 0 to |s|
      invariant AllDigits(numBuf)
      invariant Scan(s[i..], total, numBuf) == Scan(s, 0, "")
    {
      assert s[i..][1..] == s[i + 1..];
      var ch := s[i];
      if IsDigit(ch) {
        numBuf := numBuf + [ch];
      } else if IsUnit(ch) {
        if !Reads(numBuf) { return Refused; }
        var n := Value(numBuf) * Factor(ch);
        numBuf := "";
        if n > I64_MAX || total + n > I64_MAX { return Overflow; }
        total := total + n;
      } else {
        return Refused;
      }
    }
    r := Finish(total, numBuf);
  }

  // ---- The grammar: numerals with units, then perhaps a bare numeral.

  datatype Component = Component(digits: string, unit: char)

  predicate WellFormed(parts: seq<Component>, tail: string) {
    AllDigits(tail) && forall i :: 0 <= i < |parts| ==> WellFormedPart(parts[i])
  }

  predicate WellFormedPart(c: Component) { c.digits != "" && AllDigits(c.digits) && IsUnit(c.unit) }

  function Print(parts: seq<Component>, tail: string): string {
    if parts == [] then tail else parts[0].digits + ([parts[0].unit] + Print(parts[1..], tail))
  }

  /** The weighted sum of the units, a bare tail counting as seconds. */
  function Total(parts: seq<Component>, tail: string): nat
    requires WellFormed(parts, tail)
  {
    if parts == [] then Value(tail)
    else Value(parts[0].digits) * Factor(parts[0].unit) + Total(parts[1..], tail)
  }

  lemma {:induction false} ScanDigits(d: string, rest: string, total: nat, numBuf: string)
    requires AllDigits(d) && AllDigits(numBuf)
    ensures AllDigits(numBuf + d) && Scan(d + rest, total, numBuf) == Scan(rest, total, numBuf + d)
    decreases |d|
  {
    if d == "" {
      assert d + rest == rest && numBuf + d == numBuf;
    } else {
      ScanDigits(d[1..], rest, total, numBuf + [d[0]]);
      assert (d + rest)[1..] == d[1..] + rest;
      assert numBuf + [d[0]] + d[1..] == numBuf + d;
    }
  }

  lemma AtLeastOnce(n: nat, f: nat)
    requires f >= 1
    ensures n * f >= n
  {
    if f > 1 { AtLeastOnce(n, f - 1); }
  }

  lemma {:induction false} ScanPrinted(parts: seq<Component>, tail: string, total: nat)
    requires WellFormed(parts, tail) && total <= I64_MAX
    ensures var (r, sum) := (Scan(Print(parts, tail), total, ""), total + Total(parts, tail));
            if 0 < sum <= I64_MAX then r == Parsed(sum) else !r.Parsed?
    decreases |parts|
  {
    if parts == [] {
      ScanDigits(tail, "", total, "");
      assert tail + "" == tail && "" + tail == tail;
    } else {
      var (c, rest) := (parts[0], Print(parts[1..], tail));
      ScanDigits(c.digits, [c.unit] + rest, total, "");
      assert "" + c.digits == c.digits && ([c.unit] + rest)[1..] == rest;
      var n := Value(c.digits) * Factor(c.unit);
      AtLeastOnce(Value(c.digits), Factor(c.unit));
      if n <= I64_MAX && total + n <= I64_MAX { ScanPrinted(parts[1..], tail, total + n); }
    }
  }

  lemma DigitStep(numBuf: string, s: string)
    requires s != ""
    ensures numBuf + [s[0]] + s[1..] == numBuf + s
  {
  }

  lemma UnitStep(numBuf: string, s: string, more: seq<Component>, tail: string) returns (parts: seq<Component>)
    requires s != "" && WellFormedPart(Component(numBuf, s[0]))
    requires WellFormed(more, tail) && Print(more, tail) == "" + s[1..]
    ensures WellFormed(parts, tail) && Print(parts, tail) == numBuf + s
    ensures Total(parts, tail) == Value(numBuf) * Factor(s[0]) + Total(more, tail)
  {
    parts := [Component(numBuf, s[0])] + more;
    assert parts[1..] == more;
    assert [s[0]] + ("" + s[1..]) == s;
  }

  lemma {:induction false} ScanAccepted(s: string, total: nat, numBuf: string)
    returns (parts: seq<Component>, tail: string)
    requires AllDigits(numBuf) && Scan(s, total, numBuf).Parsed?
    ensures WellFormed(parts, tail) && Print(parts, tail) == numBuf + s
    ensures Scan(s, total, numBuf) == Parsed(total + Total(parts, tail))
    decreases |s|
  {
    if s == "" {
      parts, tail := [], numBuf;
      assert numBuf + s == numBuf;
    } else if IsDigit(s[0]) {
      parts, tail := ScanAccepted(s[1..], total, numBuf + [s[0]]);
      DigitStep(numBuf, s);
    } else {
      parts, tail := ScanAccepted(s[1..], total + Value(numBuf) * Factor(s[0]), "");
      parts := UnitStep(numBuf, s, parts, tail);
    }
  }

  /** A text is accepted with a value exactly when it is such a sequence with that sum, positive and in range. */
  lemma DurationExact(s: string, secs: nat)
    ensures Scan(s, 0, "") == Parsed(secs) <==>
            0 < secs <= I64_MAX &&
            exists parts, tail :: WellFormed(parts, tail) && Print(parts, tail) == s && Total(parts, tail) == secs
  {
    if Scan(s, 0, "") == Parsed(secs) {
      var parts, tail := ScanAccepted(s, 0, "");
      assert "" + s == s;
      ScanPrinted(parts, tail, 0);
    }
    if 0 < secs <= I64_MAX {
      forall parts, tail | WellFormed(parts, tail) && Print(parts, tail) == s && Total(parts, tail) == secs
        ensures Scan(s, 0, "") == Parsed(secs)
      {
        ScanPrinted(parts, tail, 0);
      }
    }
  }

  // ---- Clock times and the alphabet.

  lemma PrintCons(c: Component, parts: seq<Component>)
    ensures Print([c] + parts, "") == c.digits + ([c.unit] + Print(parts, ""))
    ensures WellFormedPart(c) && WellFormed(parts, "") ==>
              WellFormed([c] + parts, "")
              && Total([c] + parts, "") == Value(c.digits) * Factor(c.unit) + Total(parts, "")
  {
    assert ([c] + parts)[1..] == parts;
  }

  /** The four components of a clock time, as a list, with what is printed of them and their sum. */
  lemma ClockParts(d: string, h: string, m: string, s: string) returns (parts: seq<Component>)
    requires WellFormedPart(Component(d, 'd')) && WellFormedPart(Component(h, 'h'))
    requires WellFormedPart(Component(m, 'm')) && WellFormedPart(Component(s, 's'))
    ensures WellFormed(parts, "") && Print(parts, "") == d + ("d" + (h + ("h" + (m + ("m" + (s + "s"))))))
    ensures Total(parts, "") == Value(d) * 86400 + Value(h) * 3600 + Value(m) * 60 + Value(s)
  {
    parts := [];
    PrintCons(Component(s, 's'), parts);
    parts := [Component(s, 's')] + parts;
    assert Print(parts, "") == s + "s" by { assert ['s'] + "" == "s"; }
    PrintCons(Component(m, 'm'), parts);
    parts := [Component(m, 'm')] + parts;
    PrintCons(Component(h, 'h'), parts);
    parts := [Component(h, 'h')] + parts;
    PrintCons(Component(d, 'd'), parts);
    parts := [Component(d, 'd')] + parts;
  }

  function ClockText(d: string, h: string, m: string, s: string): string {
    d + ("d" + (h + ("h" + (m + ("m" + (s + "s"))))))
  }

  lemma ClockScan(d: string, h: string, m: string, s: string)
    requires WellFormedPart(Component(d, 'd')) && WellFormedPart(Component(h, 'h'))
    requires WellFormedPart(Component(m, 'm')) && WellFormedPart(Component(s, 's'))
    ensures var secs := Value(d) * 86400 + Value(h) * 3600 + Value(m) * 60 + Value(s);
            var r := Scan(ClockText(d, h, m, s), 0, "");
            if 0 < secs <= I64_MAX then r == Parsed(secs) else !r.Parsed?
  {
    var parts := ClockParts(d, h, m, s);
    ScanPrinted(parts, "", 0);
  }

  lemma NumeralPart(n: nat, unit: char)
    requires IsUnit(unit)
    ensures WellFormedPart(Component(Numeral(n), unit)) && Value(Numeral(n)) == n
  {
    NumeralValue(n);
  }

  /** 24 hours a day, 60 minutes an hour, 60 seconds a minute. */
  lemma ClockTime(d: nat, h: nat, m: nat, s: nat)
    ensures var r := Scan(ClockText(Numeral(d), Numeral(h), Numeral(m), Numeral(s)), 0, "");
            var secs := ((d * 24 + h) * 60 + m) * 60 + s;
            if 0 < secs <= I64_MAX then r == Parsed(secs) else !r.Parsed?
  {
    NumeralPart(d, 'd');
    NumeralPart(h, 'h');
    NumeralPart(m, 'm');
    NumeralPart(s, 's');
    ClockScan(Numeral(d), Numeral(h), Numeral(m), Numeral(s));
  }

  /** A bare numeral is a number of seconds. */
  lemma BareSeconds(s: nat)
    ensures if 0 < s <= I64_MAX then Scan(Numeral(s), 0, "") == Parsed(s) else !Scan(Numeral(s), 0, "").Parsed?
  {
    NumeralValue(s);
    ScanPrinted([], Numeral(s), 0);
  }

  /** Nothing but digits and the four units is ever accepted. */
  lemma {:induction false} AcceptedAlphabet(s: string, total: nat, numBuf: string)
    requires AllDigits(numBuf) && Scan(s, total, numBuf).Parsed?
    ensures forall i :: 0 <= i < |s| ==> s[i] in "0123456789dhms"
    decreases |s|
  {
    if s != "" {
      if IsDigit(s[0]) {
        assert s[0] in "0123456789dhms";
        AcceptedAlphabet(s[1..], total, numBuf + [s[0]]);
      } else {
        AcceptedAlphabet(s[1..], total + Value(numBuf) * Factor(s[0]), "");
      }
      assert forall i :: 0 < i < |s| ==> s[i] == s[1..][i - 1];
    }
  }

  // ---- When the sum leaves the 64-bit range.

  predicate AllRead(parts: seq<Component>) { forall i :: 0 <= i < |parts| ==> Reads(parts[i].digits) }

  /** A start of the text whose numerals all fit, but whose sum does not; a bare tail must end the text. */
  predicate TooLarge(s: string, parts: seq<Component>, tail: string, rest: string) {
    && WellFormed(parts, tail) && AllRead(parts) && s == Print(parts, tail) + rest
    && (tail == "" || (rest == "" && Reads(tail)))
    && Total(parts, tail) > I64_MAX
  }

  lemma PrintThen(c: Component, more: seq<Component>, tail: string, rest: string)
    ensures Print([c] + more, tail) + rest == c.digits + ([c.unit] + (Print(more, tail) + rest))
  {
    assert ([c] + more)[1..] == more;
  }

  lemma {:induction false} ScanTooLarge(parts: seq<Component>, tail: string, rest: string, total: nat)
    requires WellFormed(parts, tail) && AllRead(parts) && (tail == "" || (rest == "" && Reads(tail)))
    requires total <= I64_MAX < total + Total(parts, tail)
    ensures Scan(Print(parts, tail) + rest, total, "") == Overflow
    decreases |parts|
  {
    if parts == [] {
      ScanDigits(tail, "", total, "");
      assert "" + tail == tail;
    } else {
      var (c, more) := (parts[0], parts[1..]);
      var later := Print(more, tail) + rest;
      assert parts == [c] + more;
      PrintThen(c, more, tail, rest);
      ScanDigits(c.digits, [c.unit] + later, total, "");
      assert "" + c.digits == c.digits && ([c.unit] + later)[1..] == later;
      var n := Value(c.digits) * Factor(c.unit);
      if total + n <= I64_MAX { ScanTooLarge(more, tail, rest, total + n); }
    }
  }

  lemma OverflowHere(numBuf: string, s: string) returns (parts: seq<Component>)
    requires s != "" && WellFormedPart(Component(numBuf, s[0])) && Reads(numBuf)
    ensures WellFormed(parts, "") && AllRead(parts) && Print(parts, "") + s[1..] == numBuf + s
    ensures Total(parts, "") == Value(numBuf) * Factor(s[0])
  {
    var c := Component(numBuf, s[0]);
    parts := [c] + [];
    PrintThen(c, [], "", s[1..]);
    assert parts[1..] == [] && [s[0]] + ("" + s[1..]) == s;
  }

  lemma OverflowLater(numBuf: string, s: string, more: seq<Component>, tail: string, rest: string)
    returns (parts: seq<Component>)
    requires s != "" && WellFormedPart(Component(numBuf, s[0])) && Reads(numBuf)
    requires WellFormed(more, tail) && AllRead(more) && Print(more, tail) + rest == "" + s[1..]
    ensures WellFormed(parts, tail) && AllRead(parts) && Print(parts, tail) + rest == numBuf + s
    ensures Total(parts, tail) == Value(numBuf) * Factor(s[0]) + Total(more, tail)
  {
    var c := Component(numBuf, s[0]);
    parts := [c] + more;
    PrintThen(c, more, tail, rest);
    assert parts[1..] == more && [s[0]] + ("" + s[1..]) == s;
  }

  lemma {:induction false} ScanOverflowed(s: string, total: nat, numBuf: string)
    returns (parts: seq<Component>, tail: string, rest: string)
    requires AllDigits(numBuf) && total <= I64_MAX && Scan(s, total, numBuf) == Overflow
    ensures WellFormed(parts, tail) && AllRead(parts) && Print(parts, tail) + rest == numBuf + s
    ensures tail == "" || (rest == "" && Reads(tail))
    ensures total + Total(parts, tail) > I64_MAX
    decreases |s|
  {
    if s == "" {
      parts, tail, rest := [], numBuf, "";
    } else if IsDigit(s[0]) {
      parts, tail, rest := ScanOverflowed(s[1..], total, numBuf + [s[0]]);
      DigitStep(numBuf, s);
    } else {
      var n := Value(numBuf) * Factor(s[0]);
      if total + n > I64_MAX {
        parts := OverflowHere(numBuf, s);
        tail, rest := "", s[1..];
      } else {
        parts, tail, rest := ScanOverflowed(s[1..], total + n, "");
        parts := OverflowLater(numBuf, s, parts, tail, rest);
      }
    }
  }

  /** The sum overflows exactly on texts that start too large, whatever follows. */
  lemma OverflowExact(s: string)
    ensures Scan(s, 0, "") == Overflow <==> exists parts, tail, rest :: TooLarge(s, parts, tail, rest)
  {
    if Scan(s, 0, "") == Overflow {
      var parts, tail, rest := ScanOverflowed(s, 0, "");
      assert "" + s == s;
      assert TooLarge(s, parts, tail, rest);
    }
    forall parts, tail, rest | TooLarge(s, parts, tail, rest) ensures Scan(s, 0, "") == Overflow {
      ScanTooLarge(parts, tail, rest, 0);
    }
  }
}
