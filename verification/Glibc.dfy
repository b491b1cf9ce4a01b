/** The glibc preflight of a downloaded binary. */
module Glibc {
  import opened Wrappers
  import opened Search
  import opened Binary

  /** `GLIBC_`. */
  const MARKER: Bytes := [71, 76, 73, 66, 67, 95]

  const DOT: byte := 46

  predicate IsDigit(b: byte) { 48 <= b <= 57 }

  datatype Version = Version(major: nat, minor: nat, patch: nat) {
    predicate AtLeast(other: Version) {
      major > other.major ||
      (major == other.major && (minor > other.minor || (minor == other.minor && patch >= other.patch)))
    }
  }

  function Decimal(digits: Bytes): nat
    requires forall i :: 0 <= i < |digits| ==> IsDigit(digits[i])
  {
    if digits == [] then 0
    else
      var last := digits[|digits| - 1];
      assert IsDigit(last);
      10 * Decimal(digits[..|digits| - 1]) + (last - 48) as nat
  }

  /** `str::parse::<u32>` on text without a sign. */
  function ParseU32(part: Bytes): Option<nat> {
    if part != [] && (forall i :: 0 <= i < |part| ==> IsDigit(part[i])) && Decimal(part) < 0x1_0000_0000
    then Some(Decimal(part)) else None
  }

  /** The parts between dots. */
  function Parts(token: Bytes): (r: seq<Bytes>)
    ensures r != []
    decreases |token|
  {
    match Index(token, DOT)
    case None => [token]
    case Some(i) => [token[..i]] + Parts(token[i + 1..])
  }

  /** Major and minor must parse; a patch that does not parse counts as 0. */
  function ParseToken(token: Bytes): Option<Version> {
    var parts := Parts(token);
    if |parts| < 2 then None
    else match (ParseU32(parts[0]), ParseU32(parts[1]))
      case (Some(major), Some(minor)) =>
        Some(Version(major, minor, if |parts| > 2 && ParseU32(parts[2]).Some? then ParseU32(parts[2]).value else 0))
      case _ => None
  }

  // ---- What a token reads as.

  const U32: nat := 0x1_0000_0000

  /** A number in decimal digits. */
  function Digits(n: nat): (r: Bytes)
    ensures r != [] && forall i :: 0 <= i < |r| ==> IsDigit(r[i])
  {
    if n < 10 then [(n + 48) as byte] else Digits(n / 10) + [(n % 10 + 48) as byte]
  }

  lemma {:induction false} DigitsRead(n: nat)
    ensures DOT !in Digits(n) && Decimal(Digits(n)) == n
    ensures ParseU32(Digits(n)) == if n < U32 then Some(n) else None
  {
    var d := Digits(n);
    if n >= 10 {
      DigitsRead(n / 10);
      assert d[..|d| - 1] == Digits(n / 10);
    } else {
      assert d[..0] == [];
    }
  }

  lemma PartsCons(part: Bytes, rest: Bytes)
    requires DOT !in part
    ensures Parts(part + ([DOT] + rest)) == [part] + Parts(rest) && Parts(part) == [part]
  {
    var token := part + [DOT] + rest;
    IndexUnique(part, DOT, rest);
    assert token == part + ([DOT] + rest) && token[..|part|] == part && token[|part| + 1..] == rest;
  }

  /** A version printed with two parts reads back, unless a part has no 32 bits; one part is none. */
  lemma ReadsTwo(a: nat, b: nat)
    ensures ParseToken(Digits(a) + ([46] + Digits(b))) == if a < U32 && b < U32 then Some(Version(a, b, 0)) else None
    ensures ParseToken(Digits(a)) == None
  {
    DigitsRead(a);
    DigitsRead(b);
    PartsCons(Digits(a), Digits(b));
    PartsCons(Digits(b), []);
  }

  /** A missing major or minor number is no version. */
  lemma ReadsNone(n: nat)
    ensures ParseToken([46] + Digits(n)) == None && ParseToken(Digits(n) + [46]) == None && ParseToken([]) == None
  {
    DigitsRead(n);
    PartsCons([], Digits(n));
    assert [] + ([DOT] + Digits(n)) == [DOT] + Digits(n);
    PartsCons(Digits(n), []);
    assert Digits(n) + ([DOT] + []) == Digits(n) + [DOT];
    PartsCons([], []);
  }

  /** So does one with three or more: a third part too large counts as 0, and later parts do not count. */
  lemma ReadsThree(a: nat, b: nat, c: nat, more: Bytes)
    requires more == [] || more[0] == 46
    ensures ParseToken(Digits(a) + ([46] + (Digits(b) + ([46] + (Digits(c) + more)))))
         == if a < U32 && b < U32 then Some(Version(a, b, if c < U32 then c else 0)) else None
  {
    DigitsRead(a);
    DigitsRead(b);
    DigitsRead(c);
    var third := Digits(c) + more;
    PartsCons(Digits(a), Digits(b) + ([DOT] + third));
    PartsCons(Digits(b), third);
    ThirdPart(c, more);
    ThreeParts(Digits(a) + ([DOT] + (Digits(b) + ([DOT] + third))), Digits(a), Digits(b), Parts(third));
  }

  lemma ThreeParts(token: Bytes, major: Bytes, minor: Bytes, more: seq<Bytes>)
    requires Parts(token) == [major] + ([minor] + more) && more != []
    ensures ParseToken(token) == match (ParseU32(major), ParseU32(minor))
              case (Some(a), Some(b)) =>
                Some(Version(a, b, if ParseU32(more[0]).Some? then ParseU32(more[0]).value else 0))
              case _ => None
  {
    assert Parts(token)[0] == major && Parts(token)[1] == minor && Parts(token)[2] == more[0];
  }

  lemma ThirdPart(c: nat, more: Bytes)
    requires more == [] || more[0] == DOT
    ensures Parts(Digits(c) + more)[0] == Digits(c)
  {
    DigitsRead(c);
    if more == [] {
      assert Digits(c) + more == Digits(c);
      PartsCons(Digits(c), []);
    } else {
      assert more == [DOT] + more[1..];
      PartsCons(Digits(c), more[1..]);
    }
  }

  /** On 32-bit parts the order of versions is that of numbers with these parts as digits. */
  lemma AtLeastExact(v: Version, w: Version)
    requires v.minor < U32 && v.patch < U32 && w.minor < U32 && w.patch < U32
    ensures v.AtLeast(w) <==> (v.major * U32 + v.minor) * U32 + v.patch >= (w.major * U32 + w.minor) * U32 + w.patch
  {
    var (x, y) := (v.major * U32 + v.minor, w.major * U32 + w.minor);
    assert x > y ==> x * U32 + v.patch > y * U32 + w.patch;
    assert y > x ==> y * U32 + w.patch > x * U32 + v.patch;
  }

  predicate InToken(b: byte) { IsDigit(b) || b == DOT }

  function TokenEnd(bytes: Bytes, from: nat): (end: nat)
    requires from <= |bytes|
    ensures from <= end <= |bytes| && (end < |bytes| ==> !InToken(bytes[end]))
    ensures forall i :: from <= i < end ==> InToken(bytes[i])
    decreases |bytes| - from
  {
    if from < |bytes| && InToken(bytes[from]) then TokenEnd(bytes, from + 1) else from
  }

  type Parser = Bytes -> Option<Version>

  /** What `parse` makes of the token behind the marker at `pos`. */
  function VersionAfter(parse: Parser, bytes: Bytes, pos: nat): Option<Version>
    requires OccursAt(bytes, MARKER, pos)
  {
    parse(bytes[pos + 6..TokenEnd(bytes, pos + 6)])
  }

  lemma MarkerAt(bytes: Bytes, pos: nat, d: nat)
    requires OccursAt(bytes, MARKER, pos) && d < 6
    ensures bytes[pos + d] == MARKER[d]
  {
    assert bytes[pos..pos + 6][d] == bytes[pos + d];
  }

  /** The marker cannot overlap itself, so resuming behind it skips no occurrence. */
  lemma NoOverlap(bytes: Bytes, pos: nat, q: nat)
    requires OccursAt(bytes, MARKER, pos) && OccursAt(bytes, MARKER, q)
    ensures q <= pos || q >= pos + 6
  {
    MarkerAt(bytes, q, 0);
    if pos <= q < pos + 6 { MarkerAt(bytes, pos, q - pos); }
  }

  function Higher(highest: Option<Version>, version: Option<Version>): Option<Version> {
    if version.Some? && (highest.None? || !highest.value.AtLeast(version.value)) then version else highest
  }

  function VersionAt(parse: Parser, bytes: Bytes, pos: nat): Option<Version> {
    if OccursAt(bytes, MARKER, pos) then VersionAfter(parse, bytes, pos) else None
  }

  /** A marker's token goes as far as its digits and dots do, wherever it stands in the binary. */
  lemma TokenRead(parse: Parser, before: Bytes, token: Bytes, after: Bytes)
    requires forall i :: 0 <= i < |token| ==> 48 <= token[i] <= 57 || token[i] == 46
    requires after == [] || !(48 <= after[0] <= 57 || after[0] == 46)
    ensures VersionAt(parse, before + [71, 76, 73, 66, 67, 95] + token + after, |before|) == parse(token)
  {
    var bytes := before + MARKER + token + after;
    var from := |before| + 6;
    assert bytes[|before|..from] == MARKER;
    assert forall i :: from <= i < from + |token| ==> bytes[i] == token[i - from];
    TokenEndIs(bytes, from, from + |token|);
    assert bytes[from..from + |token|] == token;
  }

  lemma {:induction false} TokenEndIs(bytes: Bytes, from: nat, end: nat)
    requires from <= end <= |bytes| && (end < |bytes| ==> !InToken(bytes[end]))
    requires forall i :: from <= i < end ==> InToken(bytes[i])
    ensures TokenEnd(bytes, from) == end
    decreases end - from
  {
    if from < end { TokenEndIs(bytes, from + 1, end); }
  }

  /** At every position, the version that a marker there asks for. */
  function Requirements(parse: Parser, bytes: Bytes): (vs: seq<Option<Version>>)
    ensures |vs| == |bytes| && forall i :: 0 <= i < |vs| ==> vs[i] == VersionAt(parse, bytes, i)
  {
    seq(|bytes|, i requires 0 <= i < |bytes| => VersionAt(parse, bytes, i))
  }

  /** The maximum, looking at one position after the other. */
  function Best(vs: seq<Option<Version>>): Option<Version> {
    if vs == [] then None else Higher(Best(vs[..|vs| - 1]), vs[|vs| - 1])
  }

  /** The maximum of all versions asked for; absent exactly when none is. */
  predicate IsHighest(vs: seq<Option<Version>>, highest: Option<Version>) {
    match highest
    case None => forall i :: 0 <= i < |vs| ==> vs[i] == None
    case Some(top) => highest in vs && forall i :: 0 <= i < |vs| && vs[i].Some? ==> top.AtLeast(vs[i].value)
  }

  lemma {:induction false} BestIsHighest(vs: seq<Option<Version>>)
    ensures IsHighest(vs, Best(vs))
  {
    if vs != [] {
      BestIsHighest(vs[..|vs| - 1]);
      assert vs[..|vs| - 1] + [vs[|vs| - 1]] == vs;
    }
  }

  lemma {:induction false} NothingNew(vs: seq<Option<Version>>, from: nat, to: nat)
    requires from <= to <= |vs| && forall q :: from <= q < to ==> vs[q] == None
    ensures Best(vs[..to]) == Best(vs[..from])
  {
    if from < to {
      NothingNew(vs, from, to - 1);
      assert vs[..to][..to - 1] == vs[..to - 1];
    }
  }

  /** The first marker at or after the offset. */
  ghost predicate FirstMarker(bytes: Bytes, offset: nat, pos: nat) {
    offset <= pos && OccursAt(bytes, MARKER, pos) && forall q: nat :: offset <= q < pos ==> !OccursAt(bytes, MARKER, q)
  }

  ghost predicate NoMarkerFrom(bytes: Bytes, offset: nat) {
    forall q: nat :: offset <= q ==> !OccursAt(bytes, MARKER, q)
  }

  /** From an offset to behind the next marker only the version at that marker is new. */
  predicate OneNew(vs: seq<Option<Version>>, offset: nat, pos: nat) {
    offset <= pos && pos + 6 <= |vs| && forall q :: offset <= q < pos + 6 && q != pos ==> vs[q] == None
  }

  lemma BestStep(vs: seq<Option<Version>>, offset: nat, pos: nat)
    requires OneNew(vs, offset, pos)
    ensures Best(vs[..pos + 6]) == Higher(Best(vs[..offset]), vs[pos])
  {
    NothingNew(vs, offset, pos);
    assert vs[..pos + 1][..pos] == vs[..pos];
    NothingNew(vs, pos + 1, pos + 6);
  }

  lemma OneMarker(parse: Parser, bytes: Bytes, offset: nat, pos: nat)
    requires FirstMarker(bytes, offset, pos)
    ensures OneNew(Requirements(parse, bytes), offset, pos)
  {
    forall q: nat | offset <= q < pos + 6 && q != pos ensures !OccursAt(bytes, MARKER, q) {
      if OccursAt(bytes, MARKER, q) { NoOverlap(bytes, pos, q); }
    }
  }

  /** What the rest of the search means for the versions asked for. */
  lemma NextVersion(parse: Parser, bytes: Bytes, offset: nat)
    requires offset <= |bytes|
    ensures match Find(bytes[offset..], MARKER)
            case Some(found) =>
              var pos := offset + found;
              && OneNew(Requirements(parse, bytes), offset, pos)
              && Requirements(parse, bytes)[pos] == parse(bytes[pos + 6..TokenEnd(bytes, pos + 6)])
            case None => forall q :: offset <= q < |bytes| ==> Requirements(parse, bytes)[q] == None
  {
    NextMarker(bytes, offset);
    match Find(bytes[offset..], MARKER) {
      case Some(found) => OneMarker(parse, bytes, offset, offset + found);
      case None =>
    }
  }

  /** The next marker from the offset on: where its token starts, and what the token says. */
  method ReadNext(parse: Parser, bytes: Bytes, offset: nat) returns (start: Option<nat>, version: Option<Version>)
    requires offset <= |bytes|
    ensures start.None? ==> forall q :: offset <= q < |bytes| ==> Requirements(parse, bytes)[q] == None
    ensures start.Some? ==> offset + 6 <= start.value <= |bytes|
                            && OneNew(Requirements(parse, bytes), offset, start.value - 6)
                            && version == Requirements(parse, bytes)[start.value - 6]
  {
    var found := Find(bytes[offset..], MARKER);
    NextVersion(parse, bytes, offset);
    if found.None? { return None, None; }
    var from := offset + found.value + 6;
    var end := ScanToken(bytes, from);
    return Some(from), parse(bytes[from..end]);
  }

  /** The scan, for any reading of the tokens. */
  method ScanVersions(parse: Parser, bytes: Bytes) returns (highest: Option<Version>)
    ensures IsHighest(Requirements(parse, bytes), highest)
  {
    var offset: nat := 0;
    highest := None;
    ghost var vs := Requirements(parse, bytes);
    while true
      invariant offset <= |bytes| && highest == Best(vs[..offset])
      decreases |bytes| - offset
    {
      var start, version := ReadNext(parse, bytes, offset);
      if start.None? {
        NothingNew(vs, offset, |bytes|);
        break;
      }
      BestStep(vs, offset, start.value - 6);
      if version.Some? && (highest.None? || !highest.value.AtLeast(version.value)) {
        highest := version;
      }
      offset := start.value;
    }
    assert vs[..|bytes|] == vs;
    BestIsHighest(vs);
  }

  method HighestRequiredGlibc(bytes: Bytes) returns (highest: Option<Version>)
    ensures IsHighest(Requirements(ParseToken, bytes), highest)
  {
    highest := ScanVersions(ParseToken, bytes);
  }

  method ScanToken(bytes: Bytes, start: nat) returns (end: nat)
    requires start <= |bytes|
    ensures end == TokenEnd(bytes, start)
  {
    end := start;
    while end < |bytes| && InToken(bytes[end])
      invariant start <= end <= |bytes| && TokenEnd(bytes, end) == TokenEnd(bytes, start)
    {
      end := end + 1;
    }
  }

  /** Searching the rest of the bytes finds the next marker of the whole. */
  lemma NextMarker(bytes: Bytes, offset: nat)
    requires offset <= |bytes|
    ensures match Find(bytes[offset..], MARKER)
            case Some(found) => FirstMarker(bytes, offset, offset + found)
            case None => NoMarkerFrom(bytes, offset)
  {
    forall q: nat | offset <= q ensures OccursAt(bytes[offset..], MARKER, q - offset) <==> OccursAt(bytes, MARKER, q) {
      OccursInSuffix(bytes, MARKER, offset, q - offset);
    }
    if Find(bytes[offset..], MARKER).Some? {
      OccursInSuffix(bytes, MARKER, offset, Find(bytes[offset..], MARKER).value);
    }
  }

  /** `host` is what the system reports; a host that reports nothing satisfies no requirement. */
  method PreflightDownloadedBinary(linux: bool, checkDisabled: bool, host: Option<Version>, bytes: Bytes)
    returns (ok: bool)
    ensures ok == Runnable(linux, checkDisabled, host, bytes)
  {
    if !linux || checkDisabled { return true; }
    var required := HighestRequiredGlibc(bytes);
    if required.None? { return true; }
    ok := host.Some? && host.value.AtLeast(required.value);
  }

  /** On a checked Linux host: the host's version is at least every version asked for in the binary. */
  predicate Runnable(linux: bool, checkDisabled: bool, host: Option<Version>, bytes: Bytes) {
    !linux || checkDisabled ||
    forall i :: 0 <= i < |bytes| && Requirements(ParseToken, bytes)[i].Some? ==>
      host.Some? && host.value.AtLeast(Requirements(ParseToken, bytes)[i].value)
  }

  /** Unchecked hosts run anything; a checked one must be at least every version behind a marker, wherever it stands. */
  lemma RunnableExact(linux: bool, checkDisabled: bool, host: Option<Version>, bytes: Bytes)
    ensures !linux || checkDisabled ==> Runnable(linux, checkDisabled, host, bytes)
    ensures linux && !checkDisabled ==>
              (Runnable(linux, checkDisabled, host, bytes) <==>
               forall pos: nat, v ::
                 VersionAt(ParseToken, bytes, pos) == Some(v) ==> host.Some? && host.value.AtLeast(v))
  {
    var vs := Requirements(ParseToken, bytes);
    forall pos: nat, v | VersionAt(ParseToken, bytes, pos) == Some(v) ensures pos < |vs| && vs[pos] == Some(v) {}
    forall i: nat | i < |vs| && vs[i].Some? ensures VersionAt(ParseToken, bytes, i) == Some(vs[i].value) {}
  }
}
