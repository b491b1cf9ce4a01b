/** FNV-1a over 64-bit words, and the hexadecimal text of its digest. */
module Fnv {
  import opened Binary

  const WORD: nat := 0x1_0000_0000_0000_0000
  const OFFSET: nat := 0xcbf29ce484222325
  const PRIME: nat := 0x00000100000001b3
  /** PRIME * PRIME_INVERSE is 1 modulo 2^64. */
  const PRIME_INVERSE: nat := 0xce965057aff6957b

  function Pow(base: nat, n: nat): (p: nat)
    requires base > 0
    ensures p > 0
  {
    if n == 0 then 1 else base * Pow(base, n - 1)
  }

  lemma {:induction false} PowAdd(base: nat, m: nat, n: nat)
    requires base > 0
    ensures Pow(base, m + n) == Pow(base, m) * Pow(base, n)
  {
    if m > 0 {
      PowAdd(base, m - 1, n);
      assert base * (Pow(base, m - 1) * Pow(base, n)) == (base * Pow(base, m - 1)) * Pow(base, n);
    }
  }

  /** Bitwise exclusive or of two `width`-bit words. */
  function Xor(a: nat, b: nat, width: nat): (r: nat)
    ensures r < Pow(2, width)
  {
    if width == 0 then 0 else (if a % 2 == b % 2 then 0 else 1) + 2 * Xor(a / 2, b / 2, width - 1)
  }

  function Step(hash: nat, b: byte): (r: nat)
    ensures r < WORD
  {
    (Xor(hash, b as nat, 64) * PRIME) % WORD
  }

  function HashFrom(hash: nat, bytes: seq<byte>): (r: nat)
    requires hash < WORD
    ensures r < WORD
    decreases |bytes|
  {
    if bytes == [] then hash else HashFrom(Step(hash, bytes[0]), bytes[1..])
  }

  function Hash(bytes: seq<byte>): nat { HashFrom(OFFSET, bytes) }

  /** `{hash:016x}`. */
  function Hex(digits: nat, n: nat): (s: string)
    ensures |s| == digits && forall c :: c in s ==> '0' <= c <= '9' || 'a' <= c <= 'f'
  {
    if digits == 0 then "" else Hex(digits - 1, n / 16) + [HexDigit(n % 16)]
  }

  function HexDigit(d: nat): (c: char)
    requires d < 16
    ensures '0' <= c <= '9' || 'a' <= c <= 'f'
  {
    if d < 10 then '0' + d as char else 'a' + (d - 10) as char
  }

  method FnvHex(bytes: seq<byte>) returns (text: string)
    ensures text == Hex(16, Hash(bytes))
  {
    var hash: nat := OFFSET;
    for i := 0 to |bytes|
      invariant hash < WORD && HashFrom(hash, bytes[i..]) == Hash(bytes)
    {
      assert bytes[i..][1..] == bytes[i + 1..];
      hash := Xor(hash, bytes[i] as nat, 64);
      hash := (hash * PRIME) % WORD;
    }
    text := Hex(16, hash);
  }

  // ---- Each step is a permutation of the state.

  lemma Halves(bit: nat, rest: nat)
    requires bit < 2
    ensures (bit + 2 * rest) % 2 == bit && (bit + 2 * rest) / 2 == rest
  {
  }

  lemma {:induction false} XorUndone(a: nat, b: nat, width: nat)
    requires a < Pow(2, width)
    ensures Xor(Xor(a, b, width), b, width) == a
  {
    if width > 0 {
      XorUndone(a / 2, b / 2, width - 1);
      Halves(if a % 2 == b % 2 then 0 else 1, Xor(a / 2, b / 2, width - 1));
    }
  }

  lemma {:induction false} XorSameState(a: nat, b: nat, c: nat, width: nat)
    requires b < Pow(2, width) && c < Pow(2, width)
    ensures Xor(a, b, width) == Xor(a, c, width) ==> b == c
  {
    if width > 0 {
      XorSameState(a / 2, b / 2, c / 2, width - 1);
      Halves(if a % 2 == b % 2 then 0 else 1, Xor(a / 2, b / 2, width - 1));
      Halves(if a % 2 == c % 2 then 0 else 1, Xor(a / 2, c / 2, width - 1));
    }
  }

  lemma Residue(n: nat, k: int)
    requires n < WORD
    ensures (n + k * WORD) % WORD == n
  {
  }

  lemma InverseAlgebra(n: int, p: int, i: int, w: int, k: int, q: int)
    requires p * i == 1 + k * w
    ensures (n * p - q * w) * i == n + (n * k - q * i) * w
  {
    assert (n * p - q * w) * i == n * (p * i) - (q * i) * w;
    assert n * (1 + k * w) == n + (n * k) * w;
  }

  /** Multiplying by the prime can be undone, so it loses nothing. */
  lemma TimesPrimeUndone(n: nat)
    requires n < WORD
    ensures ((n * PRIME) % WORD * PRIME_INVERSE) % WORD == n
  {
    var q := n * PRIME / WORD;
    var k := PRIME * PRIME_INVERSE / WORD;
    assert (n * PRIME) % WORD == n * PRIME - q * WORD;
    InverseAlgebra(n, PRIME, PRIME_INVERSE, WORD, k, q);
    Residue(n, n * k - q * PRIME_INVERSE);
  }

  lemma WordIsPow2()
    ensures Pow(2, 64) == WORD
  {
    assert Pow(2, 8) == 0x100;
    PowAdd(2, 8, 8);
    PowAdd(2, 16, 16);
    PowAdd(2, 32, 32);
  }

  lemma StepPermutes(h: nat, k: nat, b: byte)
    requires h < WORD && k < WORD
    ensures Step(h, b) == Step(k, b) <==> h == k
  {
    WordIsPow2();
    TimesPrimeUndone(Xor(h, b as nat, 64));
    TimesPrimeUndone(Xor(k, b as nat, 64));
    XorUndone(h, b as nat, 64);
    XorUndone(k, b as nat, 64);
  }

  /** Different bytes send one state to different states. */
  lemma StepSeparates(h: nat, b: byte, c: byte)
    requires h < WORD && b != c
    ensures Step(h, b) != Step(h, c)
  {
    WordIsPow2();
    TimesPrimeUndone(Xor(h, b as nat, 64));
    TimesPrimeUndone(Xor(h, c as nat, 64));
    XorSameState(h, b as nat, c as nat, 64);
  }

  lemma {:induction false} HashFromAppend(hash: nat, a: seq<byte>, b: seq<byte>)
    requires hash < WORD
    ensures HashFrom(hash, a + b) == HashFrom(HashFrom(hash, a), b)
    decreases |a|
  {
    if a == [] {
      assert a + b == b;
    } else {
      assert (a + b)[1..] == a[1..] + b;
      HashFromAppend(Step(hash, a[0]), a[1..], b);
    }
  }

  lemma {:induction false} TailPermutes(h: nat, k: nat, tail: seq<byte>)
    requires h < WORD && k < WORD
    ensures HashFrom(h, tail) == HashFrom(k, tail) <==> h == k
    decreases |tail|
  {
    if tail != [] {
      StepPermutes(h, k, tail[0]);
      TailPermutes(Step(h, tail[0]), Step(k, tail[0]), tail[1..]);
    }
  }

  /** A common suffix cancels. */
  lemma SuffixCancels(a: seq<byte>, b: seq<byte>, tail: seq<byte>)
    ensures Hash(a + tail) == Hash(b + tail) <==> Hash(a) == Hash(b)
  {
    HashFromAppend(OFFSET, a, tail);
    HashFromAppend(OFFSET, b, tail);
    TailPermutes(Hash(a), Hash(b), tail);
  }

  /** Two inputs that differ in exactly one byte never share a digest. */
  lemma OneByteApart(a: seq<byte>, b: seq<byte>, i: nat)
    requires |a| == |b| && i < |a| && a[i] != b[i] && forall j :: 0 <= j < |a| && j != i ==> a[j] == b[j]
    ensures Hash(a) != Hash(b)
  {
    var head, tail := a[..i], a[i + 1..];
    assert a == (head + [a[i]]) + tail && b == (head + [b[i]]) + tail;
    SuffixCancels(head + [a[i]], head + [b[i]], tail);
    HashFromAppend(OFFSET, head, [a[i]]);
    HashFromAppend(OFFSET, head, [b[i]]);
    StepSeparates(Hash(head), a[i], b[i]);
    LastStep(Hash(head), a[i]);
    LastStep(Hash(head), b[i]);
  }

  lemma LastStep(h: nat, b: byte)
    requires h < WORD
    ensures HashFrom(h, [b]) == Step(h, b)
  {
    assert [b][1..] == [];
  }

  // ---- The digest text names the digest.

  function HexValue(c: char): nat {
    if '0' <= c <= '9' then (c - '0') as nat else if 'a' <= c <= 'f' then (c - 'a') as nat + 10 else 0
  }

  function Unhex(s: string): nat {
    if s == "" then 0 else 16 * Unhex(s[..|s| - 1]) + HexValue(s[|s| - 1])
  }

  lemma {:induction false} HexUndone(digits: nat, n: nat)
    requires n < Pow(16, digits)
    ensures Unhex(Hex(digits, n)) == n
  {
    if digits > 0 {
      HexUndone(digits - 1, n / 16);
      var s := Hex(digits, n);
      assert s[..|s| - 1] == Hex(digits - 1, n / 16);
    }
  }

  /** Sixteen hexadecimal digits tell every two digests apart. */
  lemma DigestTextInjective(a: seq<byte>, b: seq<byte>)
    ensures Hex(16, Hash(a)) == Hex(16, Hash(b)) <==> Hash(a) == Hash(b)
  {
    assert Pow(16, 4) == 0x1_0000;
    PowAdd(16, 4, 4);
    PowAdd(16, 8, 8);
    HexUndone(16, Hash(a));
    HexUndone(16, Hash(b));
  }

  /** The digit of each value, and the place of each digit. */
  lemma HexSpelled(digits: nat, n: nat, d: nat)
    requires d < 16
    ensures Hex(digits + 1, 16 * n + d) == Hex(digits, n) + ["0123456789abcdef"[d]]
  {
  }

  // ---- Known digests.

  lemma {:induction false} XorZero(a: nat, width: nat)
    requires a < Pow(2, width)
    ensures Xor(a, 0, width) == a
  {
    if width > 0 { XorZero(a / 2, width - 1); }
  }

  lemma XorBit(a: nat, b: nat, width: nat, rest: nat)
    requires width > 0 && Xor(a / 2, b / 2, width - 1) == rest
    ensures Xor(a, b, width) == (if a % 2 == b % 2 then 0 else 1) + 2 * rest
  {
  }

  lemma OffsetXor(a: nat, b: nat)
    requires a == 0xcbf29ce484222325 && b == 97
    ensures Xor(a, b, 64) == 0xcbf29ce484222344
  {
    WordIsPow2();
    PowAdd(2, 57, 7);
    assert Pow(2, 7) == 128;
    XorZero(a / 128, 57);
    XorBit(a / 64, b / 64, 58, a / 128);
    XorBit(a / 32, b / 32, 59, Xor(a / 64, b / 64, 58));
    XorBit(a / 16, b / 16, 60, Xor(a / 32, b / 32, 59));
    XorBit(a / 8, b / 8, 61, Xor(a / 16, b / 16, 60));
    XorBit(a / 4, b / 4, 62, Xor(a / 8, b / 8, 61));
    XorBit(a / 2, b / 2, 63, Xor(a / 4, b / 4, 62));
    XorBit(a, b, 64, Xor(a / 2, b / 2, 63));
  }

  lemma HashOne(hash: nat, b: byte)
    requires hash < WORD
    ensures HashFrom(hash, [b]) == Step(hash, b)
  {
    assert [b][1..] == [];
    assert HashFrom(Step(hash, b), []) == Step(hash, b);
  }

  /** The published digests of no bytes and of the letter `a`. */
  lemma KnownDigests(a: byte)
    requires a == 97
    ensures Hash([]) == 0xcbf29ce484222325 && Hash([a]) == 0xaf63dc4c8601ec8c
  {
    OffsetXor(OFFSET, a as nat);
    HashOne(OFFSET, a);
  }
}
