/** Failure-aware results shared by every module. */
module Wrappers {
  datatype Option<+T> = None | Some(value: T)

  datatype Result<+T, +E> = Ok(value: T) | Err(error: E)
}

/** Bytes, shared by the modules that read raw data. */
module Binary {
  newtype byte = x: int | 0 <= x < 256

  type Bytes = seq<byte>
}

/** Searching and flattening sequences: `windows(n).position`, `find`, `indexOf`, `concat`. */
module Search {
  import opened Wrappers

  predicate OccursAt<T(==)>(s: seq<T>, needle: seq<T>, i: int) {
    0 <= i && i + |needle| <= |s| && s[i..i + |needle|] == needle
  }

  /** The first position at or after `from` where `needle` occurs. */
  function FindFrom<T(==)>(s: seq<T>, needle: seq<T>, from: nat): (r: Option<nat>)
    requires from <= |s|
    ensures r.Some? ==> from <= r.value && OccursAt(s, needle, r.value)
    ensures forall k :: from <= k && OccursAt(s, needle, k) ==> r.Some? && r.value <= k
    decreases |s| - from
  {
    if from + |needle| > |s| then None
    else if OccursAt(s, needle, from) then Some(from)
    else FindFrom(s, needle, from + 1)
  }

  function Find<T(==)>(s: seq<T>, needle: seq<T>): (r: Option<nat>)
    ensures r.Some? ==> OccursAt(s, needle, r.value)
    ensures forall k :: OccursAt(s, needle, k) ==> r.Some? && r.value <= k
  {
    FindFrom(s, needle, 0)
  }

  /** The first position of an element. */
  function Index<T(==)>(s: seq<T>, x: T): (r: Option<nat>)
    ensures r.Some? ==> r.value < |s| && s[r.value] == x && x !in s[..r.value]
    ensures r.None? <==> x !in s
  {
    if s == [] then None
    else if s[0] == x then Some(0)
    else
      match Index(s[1..], x)
      case None => None
      case Some(i) => assert s[..i + 1] == [s[0]] + s[1..][..i]; Some(i + 1)
  }

  lemma IndexUnique<T>(a: seq<T>, x: T, b: seq<T>)
    requires x !in a
    ensures Index(a + [x] + b, x) == Some(|a|)
  {
    var s := a + [x] + b;
    assert s[|a|] == x;
    assert s[..|a|] == a;
  }

  function Flatten<T>(parts: seq<seq<T>>): seq<T> {
    if parts == [] then [] else parts[0] + Flatten(parts[1..])
  }

  lemma FlattenCons<T>(part: seq<T>, parts: seq<seq<T>>)
    ensures Flatten([part] + parts) == part + Flatten(parts)
  {
    assert ([part] + parts)[1..] == parts;
  }

  lemma {:induction false} FlattenAppend<T>(a: seq<seq<T>>, b: seq<seq<T>>)
    ensures Flatten(a + b) == Flatten(a) + Flatten(b)
  {
    if a == [] {
      assert a + b == b;
    } else {
      assert (a + b)[1..] == a[1..] + b;
      FlattenAppend(a[1..], b);
    }
  }

  /** An occurrence survives in every longer sequence, and in every suffix that contains it. */
  lemma OccursInLonger<T>(a: seq<T>, b: seq<T>, needle: seq<T>, i: int)
    ensures OccursAt(a, needle, i) ==> OccursAt(a + b, needle, i)
    ensures OccursAt(a + b, needle, i) && i + |needle| <= |a| ==> OccursAt(a, needle, i)
  {
    if 0 <= i && i + |needle| <= |a| {
      assert (a + b)[i..i + |needle|] == a[i..i + |needle|];
    }
  }

  lemma OccursInSuffix<T>(s: seq<T>, needle: seq<T>, k: nat, i: int)
    requires k <= |s| && 0 <= i
    ensures OccursAt(s[k..], needle, i) <==> OccursAt(s, needle, k + i)
  {
    if k + i + |needle| <= |s| {
      assert s[k..][i..i + |needle|] == s[k + i..k + i + |needle|];
    }
  }

  /** Appending cannot move a first occurrence that is already there. */
  lemma FindStable<T>(a: seq<T>, b: seq<T>, needle: seq<T>)
    ensures Find(a, needle).Some? ==> Find(a + b, needle) == Find(a, needle)
    ensures Find(a, needle).None? && Find(a + b, needle).Some? ==> Find(a + b, needle).value + |needle| > |a|
  {
    forall i ensures OccursAt(a, needle, i) ==> OccursAt(a + b, needle, i)
             ensures OccursAt(a + b, needle, i) && i + |needle| <= |a| ==> OccursAt(a, needle, i) {
      OccursInLonger(a, b, needle, i);
    }
  }

  lemma NoneInSuffix<T>(s: seq<T>, needle: seq<T>, k: nat)
    requires k <= |s| && Find(s, needle).None?
    ensures Find(s[k..], needle).None?
  {
    if Find(s[k..], needle).Some? {
      OccursInSuffix(s, needle, k, Find(s[k..], needle).value);
    }
  }
}
