/** The SHA-256 manifest of a release: parsing, the printed form, and hexadecimal digests. */
module ChecksumManifest {
  import opened Wrappers
  import opened Search
  import opened Text
  import opened Binary
  import Fnv

  /** `hex_bytes`: two lower-case digits a byte. */
  function HexText(bytes: Bytes): string {
    if bytes == [] then "" else Fnv.Hex(2, bytes[0] as nat) + HexText(bytes[1..])
  }

  method HexBytes(bytes: Bytes) returns (out: string)
    ensures out == HexText(bytes)
  {
    out := "";
    for i := 0 to |bytes|
      invariant out + HexText(bytes[i..]) == HexText(bytes)
    {
      assert bytes[i..][0] == bytes[i] && bytes[i..][1..] == bytes[i + 1..];
      out := out + Fnv.Hex(2, bytes[i] as nat);
    }
  }

  function Unhex(text: string): seq<nat> {
    if |text| < 2 then [] else [Fnv.Unhex(text[..2])] + Unhex(text[2..])
  }

  /** Decoding undoes encoding, so different bytes have different texts. */
  lemma {:induction false} HexRoundTrip(bytes: Bytes)
    ensures |HexText(bytes)| == 2 * |bytes|
    ensures Unhex(HexText(bytes)) == seq(|bytes|, i requires 0 <= i < |bytes| => bytes[i] as nat)
  {
    if bytes != [] {
      HexRoundTrip(bytes[1..]);
      assert Fnv.Pow(16, 2) == 256;
      Fnv.HexUndone(2, bytes[0] as nat);
      assert HexText(bytes)[..2] == Fnv.Hex(2, bytes[0] as nat) && HexText(bytes)[2..] == HexText(bytes[1..]);
    }
  }

  lemma HexInjective(a: Bytes, b: Bytes)
    ensures HexText(a) == HexText(b) <==> a == b
  {
    HexRoundTrip(a);
    HexRoundTrip(b);
    if HexText(a) == HexText(b) {
      forall i | 0 <= i < |a| ensures a[i] == b[i] {
        assert Unhex(HexText(a))[i] == Unhex(HexText(b))[i];
      }
    }
  }

  predicate IsHexDigit(c: char) { '0' <= c <= '9' || 'a' <= c <= 'f' || 'A' <= c <= 'F' }

  /** Length in UTF-8. */
  function Width(c: char): nat {
    if c as int < 0x80 then 1 else if c as int < 0x800 then 2 else if c as int < 0x1_0000 then 3 else 4
  }

  function ByteLen(s: string): nat { if s == "" then 0 else Width(s[0]) + ByteLen(s[1..]) }

  /** The number of leading characters that fill exactly `n` bytes, if a character ends there. */
  function CharsAt(s: string, n: nat): (r: Option<nat>)
    ensures r.Some? ==> r.value <= |s|
  {
    if n == 0 then Some(0)
    else if s == "" || Width(s[0]) > n then None
    else match CharsAt(s[1..], n - Width(s[0])) case None => None case Some(k) => Some(k + 1)
  }

  /** What one line is. Splitting inside a character panics. */
  datatype LineKind = BlankLine | Malformed | SplitsCharacter | Checksum(name: string, hash: string)

  function AssetName(rest: string): string {
    var name := TrimStartBy(IsWhitespace, rest);
    if name != "" && name[0] == '*' then name[1..] else name
  }

  /** The 64 bytes of a hash and what follows them. */
  function ReadParts(hash: string, rest: string): LineKind {
    if (exists i :: 0 <= i < |hash| && !IsHexDigit(hash[i])) || rest == "" || !IsWhitespace(rest[0]) then Malformed
    else if AssetName(rest) == "" then Malformed
    else Checksum(AssetName(rest), Lower(hash))
  }

  function ReadTrimmed(trimmed: string): LineKind {
    if trimmed == "" then BlankLine
    else if ByteLen(trimmed) < 66 then Malformed
    else match CharsAt(trimmed, 64)
      case None => SplitsCharacter
      case Some(k) => ReadParts(trimmed[..k], trimmed[k..])
  }

  function ReadLine(line: string): LineKind { ReadTrimmed(Trim(line)) }

  /** The table, or the number of the line that stops the parse by an error or a panic. */
  datatype Outcome = Table(checksums: map<string, string>) | Rejected(line: nat) | Panicked(line: nat)

  function ReadLines(kinds: seq<LineKind>, index: nat, table: map<string, string>): Outcome
    decreases |kinds|
  {
    if kinds == [] then Table(table)
    else match kinds[0]
      case BlankLine => ReadLines(kinds[1..], index + 1, table)
      case Malformed => Rejected(index + 1)
      case SplitsCharacter => Panicked(index + 1)
      case Checksum(name, hash) => ReadLines(kinds[1..], index + 1, table[name := hash])
  }

  function Kinds(lines: seq<string>): (r: seq<LineKind>)
    ensures |r| == |lines| && forall i :: 0 <= i < |r| ==> r[i] == ReadLine(lines[i])
  {
    seq(|lines|, i requires 0 <= i < |lines| => ReadLine(lines[i]))
  }

  function Parse(text: string): Outcome { ReadLines(Kinds(Lines(text)), 0, map[]) }

  method ParseChecksumManifest(text: string) returns (r: Outcome)
    ensures r == Parse(text)
  {
    var checksums: map<string, string> := map[];
    var lines := Lines(text);
    ghost var kinds := Kinds(lines);
    for i := 0 to |lines|
      invariant ReadLines(kinds[i..], i, checksums) == Parse(text)
    {
      assert kinds[i..][0] == kinds[i] && kinds[i..][1..] == kinds[i + 1..];
      match ReadLine(lines[i]) {
        case BlankLine => continue;
        case Malformed => return Rejected(i + 1);
        case SplitsCharacter => return Panicked(i + 1);
        case Checksum(name, hash) => checksums := checksums[name := hash];
      }
    }
    r := Table(checksums);
  }

  // ---- When a manifest is accepted, and what it then says.

  predicate Good(k: LineKind) { k.BlankLine? || k.Checksum? }

  /** The hash on the last line that names an asset. */
  function LastHash(kinds: seq<LineKind>, name: string): Option<string> {
    if kinds == [] then None
    else
      var last := kinds[|kinds| - 1];
      if last.Checksum? && last.name == name then Some(last.hash) else LastHash(kinds[..|kinds| - 1], name)
  }

  lemma {:induction false} LastHashCons(k: LineKind, kinds: seq<LineKind>, name: string)
    ensures LastHash([k] + kinds, name)
         == if LastHash(kinds, name).Some? then LastHash(kinds, name)
            else if k.Checksum? && k.name == name then Some(k.hash) else None
    decreases |kinds|
  {
    var all := [k] + kinds;
    if kinds == [] {
      assert all == [k] && all[..0] == [];
    } else {
      LastHashCons(k, kinds[..|kinds| - 1], name);
      assert all[..|all| - 1] == [k] + kinds[..|kinds| - 1];
    }
  }

  /** The parse succeeds exactly when every non-blank line is well formed; else it names the first bad line. */
  lemma {:induction false} AcceptedExact(kinds: seq<LineKind>, index: nat, table: map<string, string>)
    ensures ReadLines(kinds, index, table).Table? <==> forall i :: 0 <= i < |kinds| ==> Good(kinds[i])
    ensures !ReadLines(kinds, index, table).Table? ==>
              var n := ReadLines(kinds, index, table).line - index - 1;
              0 <= n < |kinds| && !Good(kinds[n]) && forall i :: 0 <= i < n ==> Good(kinds[i])
    decreases |kinds|
  {
    if kinds != [] && Good(kinds[0]) {
      var next := if kinds[0].Checksum? then table[kinds[0].name := kinds[0].hash] else table;
      AcceptedExact(kinds[1..], index + 1, next);
      assert forall i :: 0 < i < |kinds| ==> kinds[i] == kinds[1..][i - 1];
    }
  }

  // ---- When it panics instead of failing.

  /** The first bad kind of line decides between an error and a panic. */
  lemma StopKind(kinds: seq<LineKind>, index: nat, table: map<string, string>, n: nat)
    requires n < |kinds| && !Good(kinds[n]) && forall i :: 0 <= i < n ==> Good(kinds[i])
    ensures ReadLines(kinds, index, table)
         == if kinds[n].SplitsCharacter? then Panicked(index + n + 1) else Rejected(index + n + 1)
    decreases n
  {
    if n > 0 {
      assert Good(kinds[0]);
      var next := if kinds[0].Checksum? then table[kinds[0].name := kinds[0].hash] else table;
      StopKind(kinds[1..], index + 1, next, n - 1);
    }
  }

  lemma {:induction false} PrefixBytes(s: string, k: nat)
    requires k <= |s|
    ensures k <= ByteLen(s[..k]) <= ByteLen(s)
  {
    if k > 0 {
      PrefixBytes(s[1..], k - 1);
      assert s[..k][1..] == s[1..][..k - 1];
    }
  }

  /** `CharsAt` finds the prefix of that many bytes, and there is at most one. */
  lemma {:induction false} CharsAtExact(s: string, n: nat, k: nat)
    ensures CharsAt(s, n) == Some(k) <==> k <= |s| && ByteLen(s[..k]) == n
    decreases |s|
  {
    if n == 0 {
      if k <= |s| { PrefixBytes(s, k); }
      if k == 0 { assert s[..0] == ""; }
    } else if s != "" && k > 0 {
      if k <= |s| { assert s[..k][1..] == s[1..][..k - 1]; }
      if Width(s[0]) <= n { CharsAtExact(s[1..], n - Width(s[0]), k - 1); }
    }
  }

  /** Long enough to hold a hash, but no character ends after 64 bytes. */
  predicate CutsCharacter(trimmed: string) {
    ByteLen(trimmed) >= 66 && forall k :: 0 <= k <= |trimmed| ==> ByteLen(trimmed[..k]) != 64
  }

  lemma SplitsExact(t: string)
    ensures ReadTrimmed(t).SplitsCharacter? <==> CutsCharacter(t)
  {
    forall k: nat ensures CharsAt(t, 64) == Some(k) <==> k <= |t| && ByteLen(t[..k]) == 64 { CharsAtExact(t, 64, k); }
    if CharsAt(t, 64).Some? { assert ByteLen(t[..CharsAt(t, 64).value]) == 64; }
  }

  /** The first line that is not good. */
  predicate FirstBad(kinds: seq<LineKind>, n: int) {
    0 <= n < |kinds| && !Good(kinds[n]) && forall i :: 0 <= i < n ==> Good(kinds[i])
  }

  predicate SplitsFirst(kinds: seq<LineKind>, n: int) { FirstBad(kinds, n) && kinds[n].SplitsCharacter? }

  lemma StopExact(kinds: seq<LineKind>)
    ensures ReadLines(kinds, 0, map[]).Panicked? <==> exists n :: SplitsFirst(kinds, n)
    ensures forall n :: SplitsFirst(kinds, n) ==> ReadLines(kinds, 0, map[]) == Panicked(n + 1)
  {
    var r := ReadLines(kinds, 0, map[]);
    forall n | SplitsFirst(kinds, n) ensures r == Panicked(n + 1) { StopKind(kinds, 0, map[], n); }
    if r.Panicked? {
      AcceptedExact(kinds, 0, map[]);
      StopKind(kinds, 0, map[], r.line - 1);
      assert SplitsFirst(kinds, r.line - 1);
    }
  }

  /** Line `n` is the first bad one, and has a character across its 64th byte. */
  predicate PanicsAt(lines: seq<string>, n: int) { FirstBad(Kinds(lines), n) && CutsCharacter(Trim(lines[n])) }

  lemma PanicsAtKind(lines: seq<string>, n: int)
    ensures PanicsAt(lines, n) <==> SplitsFirst(Kinds(lines), n)
  {
    if FirstBad(Kinds(lines), n) { SplitsExact(Trim(lines[n])); }
  }

  /** The first bad line has a character across its 64th byte. */
  predicate CutsInsideCharacter(lines: seq<string>) { exists n :: 0 <= n < |lines| && PanicsAt(lines, n) }

  /** The parse panics exactly on such text. */
  lemma PanicExact(text: string)
    ensures Parse(text).Panicked? <==> CutsInsideCharacter(Lines(text))
  {
    var lines := Lines(text);
    StopExact(Kinds(lines));
    if n :| 0 <= n < |lines| && PanicsAt(lines, n) { PanicsAtKind(lines, n); }
    if n :| SplitsFirst(Kinds(lines), n) { PanicsAtKind(lines, n); }
  }

  /** Every other malformed line is an error that names it. */
  lemma StopsAtFirstBad(text: string, n: int)
    requires FirstBad(Kinds(Lines(text)), n)
    ensures Parse(text) == if CutsCharacter(Trim(Lines(text)[n])) then Panicked(n + 1) else Rejected(n + 1)
  {
    StopKind(Kinds(Lines(text)), 0, map[], n);
    SplitsExact(Trim(Lines(text)[n]));
  }

  lemma {:induction false} RepeatedBytes(n: nat, rest: string, k: nat)
    requires k <= n + |rest|
    ensures ByteLen((Repeated('a', n) + rest)[..k]) == if k <= n then k else n + ByteLen(rest[..k - n])
  {
    var s := Repeated('a', n) + rest;
    if n == 0 {
      assert s == rest;
    } else if k > 0 {
      assert s[1..] == Repeated('a', n - 1) + rest;
      assert s[..k][1..] == s[1..][..k - 1];
      RepeatedBytes(n - 1, rest, k - 1);
    }
  }

  /** 63 letters and then a two-byte character: the one line of this manifest panics the parser. */
  lemma PanicExample()
    ensures Parse(Repeated('a', 63) + "\U{E9}bc") == Panicked(1)
  {
    var rest := "\U{E9}bc";
    var t := Repeated('a', 63) + rest;
    assert TrimmedBy(IsWhitespace, t);
    assert '\n' !in t;
    assert Lines(t) == [t];
    assert rest[..1][1..] == "" && rest[..2][1..] == rest[1..2] && rest[1..2][1..] == "" && rest[..3] == rest;
    assert rest[1..][1..][1..] == "";
    forall k: nat | k <= |t| ensures ByteLen(t[..k]) != 64 { RepeatedBytes(63, rest, k); }
    RepeatedBytes(63, rest, |t|);
    assert t[..|t|] == t;
    SplitsExact(t);
    StopKind(Kinds(Lines(t)), 0, map[], 0);
  }

  /** An accepted manifest maps each name to the hash on its last line, and nothing else. */
  lemma {:induction false} TableExact(kinds: seq<LineKind>, index: nat, table: map<string, string>, name: string)
    requires ReadLines(kinds, index, table).Table?
    ensures var got := ReadLines(kinds, index, table).checksums;
            match LastHash(kinds, name)
            case Some(hash) => name in got && got[name] == hash
            case None => (name in got <==> name in table) && (name in table ==> got[name] == table[name])
    decreases |kinds|
  {
    if kinds != [] {
      var next := if kinds[0].Checksum? then table[kinds[0].name := kinds[0].hash] else table;
      TableExact(kinds[1..], index + 1, next, name);
      assert kinds == [kinds[0]] + kinds[1..];
      LastHashCons(kinds[0], kinds[1..], name);
    }
  }

  // ---- Printing: hash, two spaces, name.

  datatype Item = Item(hash: string, name: string) {
    function Line(): string { hash + "  " + name }

    predicate IsHash() { |hash| == 64 && forall i :: 0 <= i < 64 ==> IsHexDigit(hash[i]) }
  }

  /** Names that survive: no outer whitespace and no leading star. */
  predicate PlainName(name: string) { name != "" && Trimmed(name) && name[0] != '*' }

  function Print(items: seq<Item>): string {
    if items == [] then "" else items[0].Line() + "\n" + Print(items[1..])
  }

  lemma {:induction false} HashBytes(hash: string, rest: string)
    requires forall i :: 0 <= i < |hash| ==> IsHexDigit(hash[i])
    ensures CharsAt(hash + rest, |hash|) == Some(|hash|)
    ensures ByteLen(hash + rest) == |hash| + ByteLen(rest)
  {
    if hash == "" {
      assert hash + rest == rest;
    } else {
      HashBytes(hash[1..], rest);
      assert (hash + rest)[1..] == hash[1..] + rest;
    }
  }

  lemma {:induction false} ByteLenAtLeast(s: string)
    ensures ByteLen(s) >= |s|
  {
    if s != "" { ByteLenAtLeast(s[1..]); }
  }

  /** Trimming a printed line only ever touches the end of the name. */
  lemma TrimLine(item: Item)
    requires item.IsHash() && item.name != "" && !IsWhitespace(item.name[|item.name| - 1])
    ensures Trim(item.Line()) == item.Line()
  {
    assert item.Line()[0] == item.hash[0] && item.Line()[|item.Line()| - 1] == item.name[|item.name| - 1];
    assert TrimmedBy(IsWhitespace, item.Line());
  }

  lemma NameAfterSpaces(name: string)
    ensures PlainName(name) ==> AssetName("  " + name) == name
    ensures AssetName("  " + name) == name && name != "" ==> !IsWhitespace(name[0]) && name[0] != '*'
  {
    var s := "  " + name;
    var n := SkipFrom(IsWhitespace, s, 0);
    assert IsWhitespace(s[0]) && IsWhitespace(s[1]);
    assert n >= 2;
    assert s[n..] == name[n - 2..];
    if name != "" { assert s[2] == name[0]; }
  }

  /** A line with something behind its hash splits into exactly these two parts. */
  lemma HashSplitsOff(item: Item)
    requires item.IsHash() && item.name != ""
    ensures ReadTrimmed(item.Line()) == ReadParts(item.hash, "  " + item.name)
  {
    var rest := "  " + item.name;
    assert item.Line() == item.hash + rest;
    HashBytes(item.hash, rest);
    ByteLenAtLeast(rest);
    assert (item.hash + rest)[..64] == item.hash && (item.hash + rest)[64..] == rest;
  }

  lemma PartsExact(item: Item)
    requires item.IsHash() && item.name != ""
    ensures ReadParts(item.hash, "  " + item.name) == Checksum(item.name, Lower(item.hash))
            <==> !IsWhitespace(item.name[0]) && item.name[0] != '*' && AssetName("  " + item.name) == item.name
  {
    NameAfterSpaces(item.name);
  }

  lemma GoodEnd(item: Item)
    requires item.IsHash() && item.name != "" && !IsWhitespace(item.name[|item.name| - 1])
    ensures ReadLine(item.Line()) == Checksum(item.name, Lower(item.hash)) <==> PlainName(item.name)
  {
    TrimLine(item);
    HashSplitsOff(item);
    PartsExact(item);
    NameAfterSpaces(item.name);
  }

  lemma BadEnd(item: Item)
    requires item.name == "" || IsWhitespace(item.name[|item.name| - 1])
    ensures ReadLine(item.Line()) != Checksum(item.name, Lower(item.hash))
  {
    var trimmed := Trim(item.Line());
    if ReadTrimmed(trimmed).Checksum? { ReadNameTrimmed(trimmed); }
  }

  /** A printed line reads back as its own entry exactly for the plain names. */
  lemma PrintedLineExact(item: Item)
    requires item.IsHash()
    ensures ReadLine(item.Line()) == Checksum(item.name, Lower(item.hash)) <==> PlainName(item.name)
  {
    if item.name != "" && !IsWhitespace(item.name[|item.name| - 1]) { GoodEnd(item); } else { BadEnd(item); }
  }

  /** No name that is read off a trimmed line ends in whitespace, and none is empty. */
  lemma ReadNameTrimmed(trimmed: string)
    requires Trimmed(trimmed) && ReadTrimmed(trimmed).Checksum?
    ensures var name := ReadTrimmed(trimmed).name; name != "" && !IsWhitespace(name[|name| - 1])
  {
    var rest := trimmed[CharsAt(trimmed, 64).value..];
    NameIsSuffix(rest);
    var name := AssetName(rest);
    assert name[|name| - 1] == rest[|rest| - 1] == trimmed[|trimmed| - 1];
  }

  lemma NameIsSuffix(rest: string)
    ensures |AssetName(rest)| <= |rest| && AssetName(rest) == rest[|rest| - |AssetName(rest)|..]
  {
  }

  // ---- What any line reads as.

  /** 64 hexadecimal digits, white space up to `g`, and a name, from which one leading star is taken. */
  predicate LineIs(t: string, g: nat, name: string, hash: string) {
    && 64 < g < |t| && hash == Lower(t[..64])
    && (forall i :: 0 <= i < 64 ==> t[i] in "0123456789abcdefABCDEF")
    && (forall i :: 64 <= i < g ==> IsWhitespace(t[i])) && !IsWhitespace(t[g])
    && name == (if t[g] == '*' then t[g + 1..] else t[g..]) && name != ""
  }

  lemma HexDigitsOnly(t: string, k: nat)
    requires k <= |t|
    ensures (forall i :: 0 <= i < k ==> IsHexDigit(t[i])) <==>
            forall i :: 0 <= i < k ==> t[i] in "0123456789abcdefABCDEF"
  {
    forall c: char ensures IsHexDigit(c) <==> c in "0123456789abcdefABCDEF" {}
  }

  lemma NameRead(rest: string, g: nat)
    requires 0 < g <= |rest| && forall i :: 0 <= i < g ==> IsWhitespace(rest[i])
    requires g < |rest| ==> !IsWhitespace(rest[g])
    ensures AssetName(rest) == if g == |rest| then "" else if rest[g] == '*' then rest[g + 1..] else rest[g..]
  {
    assert SkipFrom(IsWhitespace, rest, 0) == g;
  }

  lemma HashFills(t: string, k: nat)
    requires k <= |t| && forall i :: 0 <= i < k ==> IsHexDigit(t[i])
    ensures ByteLen(t[..k]) == k && CharsAt(t, k) == Some(k) && ByteLen(t) == k + ByteLen(t[k..])
  {
    HashBytes(t[..k], t[k..]);
    HashBytes(t[..k], "");
    assert t[..k] + t[k..] == t && t[..k] + "" == t[..k];
  }

  lemma LineRead(t: string, g: nat, name: string, hash: string)
    requires LineIs(t, g, name, hash)
    ensures ReadTrimmed(t) == Checksum(name, hash)
  {
    HexDigitsOnly(t, 64);
    HashFills(t, 64);
    ByteLenAtLeast(t[64..]);
    NameRead(t[64..], g - 64);
  }

  lemma LineRead64(t: string, k: nat)
    requires CharsAt(t, 64) == Some(k) && k <= |t| && forall i :: 0 <= i < k ==> IsHexDigit(t[i])
    ensures k == 64
  {
    CharsAtExact(t, 64, k);
    HashFills(t, k);
  }

  lemma LineGap(t: string, name: string, hash: string) returns (g: nat)
    requires ReadTrimmed(t) == Checksum(name, hash)
    ensures LineIs(t, g, name, hash)
  {
    var k := CharsAt(t, 64).value;
    var n := SkipFrom(IsWhitespace, t[k..], 0);
    g := k + n;
    assert forall i :: 0 <= i < k ==> t[i] == t[..k][i];
    LineRead64(t, k);
    HexDigitsOnly(t, 64);
    NameRead(t[64..], n);
  }

  /** Any line: blank when nothing is left of it, a checksum exactly with that shape, and otherwise malformed. */
  lemma LineExact(line: string, name: string, hash: string)
    ensures ReadLine(line) == Checksum(name, hash) <==> exists g :: LineIs(Trim(line), g, name, hash)
    ensures ReadLine(line).BlankLine? <==> Blank(line)
  {
    var t := Trim(line);
    BlankIsTrimmedAway(line);
    forall g | LineIs(t, g, name, hash) ensures ReadTrimmed(t) == Checksum(name, hash) { LineRead(t, g, name, hash); }
    if ReadTrimmed(t) == Checksum(name, hash) { var g := LineGap(t, name, hash); }
  }

  /** Bits of a code point that `n` bytes of UTF-8 can carry: 7 in one, 5n + 1 in more (section 3 of RFC 3629). */
  function Payload(n: nat): nat { if n <= 1 then 7 else 5 * n + 1 }

  lemma PowersOfTwo()
    ensures Fnv.Pow(2, 7) == 0x80 && Fnv.Pow(2, 11) == 0x800
    ensures Fnv.Pow(2, 16) == 0x1_0000 && Fnv.Pow(2, 21) == 0x20_0000
  {
    assert Fnv.Pow(2, 5) == 32 && Fnv.Pow(2, 7) == 128;
    Fnv.PowAdd(2, 5, 5);
    Fnv.PowAdd(2, 7, 5);
    Fnv.PowAdd(2, 5, 6);
    Fnv.PowAdd(2, 10, 6);
    Fnv.PowAdd(2, 16, 5);
    assert Fnv.Pow(2, 6) == 64;
    assert Fnv.Pow(2, 12) == 2 * Fnv.Pow(2, 11);
  }

  /** A character takes the fewest bytes that can carry its code point. */
  lemma WidthExact(c: char)
    ensures 1 <= Width(c) <= 4 && c as nat < Fnv.Pow(2, Payload(Width(c)))
    ensures forall n :: 1 <= n < Width(c) ==> c as nat >= Fnv.Pow(2, Payload(n))
  {
    PowersOfTwo();
  }

  predicate Printable(items: seq<Item>) {
    && (forall i :: 0 <= i < |items| ==> items[i].IsHash() && PlainName(items[i].name) && '\n' !in items[i].name)
    && (forall i, j :: 0 <= i < j < |items| ==> items[i].name != items[j].name)
  }

  function Entries(items: seq<Item>): seq<LineKind> {
    if items == [] then [] else [Checksum(items[0].name, Lower(items[0].hash))] + Entries(items[1..])
  }

  lemma OneLine(item: Item)
    requires item.IsHash() && PlainName(item.name) && '\n' !in item.name
    ensures '\n' !in item.Line() && StripCr(item.Line()) == item.Line()
  {
    assert item.Line()[|item.Line()| - 1] == item.name[|item.name| - 1];
  }

  lemma FirstKind(raw: string, rest: string)
    requires '\n' !in raw && StripCr(raw) == raw
    ensures Kinds(Lines(raw + "\n" + rest)) == [ReadLine(raw)] + Kinds(Lines(rest))
  {
    LinesCons(raw, rest);
  }

  lemma {:induction false} PrintedKinds(items: seq<Item>)
    requires Printable(items)
    ensures Kinds(Lines(Print(items))) == Entries(items)
  {
    if items != [] {
      OneLine(items[0]);
      FirstKind(items[0].Line(), Print(items[1..]));
      assert ReadLine(items[0].Line()) == Checksum(items[0].name, Lower(items[0].hash)) by {
        PrintedLineExact(items[0]);
      }
      PrintedKinds(items[1..]);
    }
  }

  lemma {:induction false} EntriesLookup(items: seq<Item>, name: string)
    requires forall i, j :: 0 <= i < j < |items| ==> items[i].name != items[j].name
    ensures forall i :: 0 <= i < |items| && items[i].name == name ==>
              LastHash(Entries(items), name) == Some(Lower(items[i].hash))
    ensures LastHash(Entries(items), name).Some? ==> exists i :: 0 <= i < |items| && items[i].name == name
  {
    if items != [] {
      EntriesLookup(items[1..], name);
      LastHashCons(Checksum(items[0].name, Lower(items[0].hash)), Entries(items[1..]), name);
      assert forall i :: 0 < i < |items| ==> items[i] == items[1..][i - 1];
    }
  }

  lemma {:induction false} EntriesGood(items: seq<Item>)
    ensures forall i :: 0 <= i < |Entries(items)| ==> Good(Entries(items)[i])
  {
    if items != [] { EntriesGood(items[1..]); }
  }

  /** Parsing a printed manifest gives back each name with its hash in lower case, and no other name. */
  lemma ManifestRoundTrip(items: seq<Item>, name: string)
    requires Printable(items)
    ensures Parse(Print(items)).Table?
    ensures forall i :: 0 <= i < |items| && items[i].name == name ==>
              name in Parse(Print(items)).checksums && Parse(Print(items)).checksums[name] == Lower(items[i].hash)
    ensures name in Parse(Print(items)).checksums ==> exists i :: 0 <= i < |items| && items[i].name == name
  {
    PrintedKinds(items);
    EntriesGood(items);
    AcceptedExact(Entries(items), 0, map[]);
    TableExact(Entries(items), 0, map[], name);
    EntriesLookup(items, name);
  }

  /** The table holds an item's hash under its name, and nothing under other names. */
  ghost predicate Holds(table: map<string, string>, items: seq<Item>) {
    && (forall item :: item in items ==> item.name in table && table[item.name] == Lower(item.hash))
    && (forall name :: name in table ==> exists item :: item in items && item.name == name)
  }

  lemma ParsedHolds(items: seq<Item>)
    requires Printable(items)
    ensures Parse(Print(items)).Table? && Holds(Parse(Print(items)).checksums, items)
  {
    ManifestRoundTrip(items, "");
    var table := Parse(Print(items)).checksums;
    forall item | item in items ensures item.name in table && table[item.name] == Lower(item.hash) {
      ManifestRoundTrip(items, item.name);
    }
    forall name | name in table ensures exists item :: item in items && item.name == name {
      ManifestRoundTrip(items, name);
      var i :| 0 <= i < |items| && items[i].name == name;
      assert items[i] in items;
    }
  }

  lemma SameTable(s: map<string, string>, t: map<string, string>, a: seq<Item>, b: seq<Item>)
    requires Holds(s, a) && Holds(t, b) && forall item :: item in a <==> item in b
    ensures s == t
  {
    assert forall name :: name in s <==> name in t;
    assert forall name :: name in s ==> s[name] == t[name];
  }

  /** The order of the lines does not matter. */
  lemma OrderIrrelevant(a: seq<Item>, b: seq<Item>)
    requires Printable(a) && Printable(b) && forall item :: item in a <==> item in b
    ensures Parse(Print(a)) == Parse(Print(b))
  {
    ParsedHolds(a);
    ParsedHolds(b);
    SameTable(Parse(Print(a)).checksums, Parse(Print(b)).checksums, a, b);
  }
}
