/** `BTreeMap` with keys made of strings: entries kept strictly sorted by key. */
module OrderedMap {
  import opened Wrappers

  /** The components of a key, compared one after the other. */
  type Key = seq<string>

  /** Code-point order, which is the byte order of UTF-8. */
  predicate StringLess(a: string, b: string)
    decreases |b|
  {
    b != "" && (a == "" || a[0] < b[0] || (a[0] == b[0] && StringLess(a[1..], b[1..])))
  }

  predicate KeyLess(a: Key, b: Key)
    decreases |b|
  {
    b != [] && (a == [] || StringLess(a[0], b[0]) || (a[0] == b[0] && KeyLess(a[1..], b[1..])))
  }

  lemma {:induction false} StringTotal(a: string, b: string)
    ensures !(StringLess(a, b) && a == b)
    ensures StringLess(a, b) || a == b || StringLess(b, a)
    decreases |b|
  {
    if a != "" && b != "" && a[0] == b[0] {
      StringTotal(a[1..], b[1..]);
      if a[1..] == b[1..] { assert a == [a[0]] + a[1..] == [b[0]] + b[1..] == b; }
    }
  }

  lemma {:induction false} StringTransitive(a: string, b: string, c: string)
    ensures StringLess(a, b) && StringLess(b, c) ==> StringLess(a, c)
    decreases |b|
  {
    if a != "" && b != "" && c != "" { StringTransitive(a[1..], b[1..], c[1..]); }
  }

  lemma {:induction false} KeyTotal(a: Key, b: Key)
    ensures !(KeyLess(a, b) && a == b)
    ensures KeyLess(a, b) || a == b || KeyLess(b, a)
    decreases |b|
  {
    if a != [] && b != [] {
      StringTotal(a[0], b[0]);
      if a[0] == b[0] {
        KeyTotal(a[1..], b[1..]);
        if a[1..] == b[1..] { assert a == [a[0]] + a[1..] == [b[0]] + b[1..] == b; }
      }
    }
  }

  lemma {:induction false} KeyTransitive(a: Key, b: Key, c: Key)
    ensures KeyLess(a, b) && KeyLess(b, c) ==> KeyLess(a, c)
    decreases |b|
  {
    if a != [] && b != [] && c != [] {
      StringTransitive(a[0], b[0], c[0]);
      KeyTransitive(a[1..], b[1..], c[1..]);
    }
  }

  /** The order is lexicographic: a first difference decides, and a prefix comes first. */
  lemma {:induction false} StringLessExact(a: string, b: string, i: nat)
    requires i <= |a| && i <= |b| && a[..i] == b[..i]
    ensures i < |a| && i < |b| && a[i] != b[i] ==> (StringLess(a, b) <==> a[i] < b[i])
    ensures i == |a| ==> (StringLess(a, b) <==> i < |b|)
    ensures i == |b| ==> !StringLess(a, b)
    decreases i
  {
    if i > 0 {
      assert a[0] == a[..i][0] == b[..i][0] == b[0];
      assert a[1..][..i - 1] == a[..i][1..] == b[..i][1..] == b[1..][..i - 1];
      StringLessExact(a[1..], b[1..], i - 1);
    }
  }

  lemma {:induction false} KeyLessExact(a: Key, b: Key, i: nat)
    requires i <= |a| && i <= |b| && a[..i] == b[..i]
    ensures i < |a| && i < |b| && a[i] != b[i] ==> (KeyLess(a, b) <==> StringLess(a[i], b[i]))
    ensures i == |a| ==> (KeyLess(a, b) <==> i < |b|)
    ensures i == |b| ==> !KeyLess(a, b)
    decreases i
  {
    if i > 0 {
      assert a[0] == a[..i][0] == b[..i][0] == b[0];
      assert a[1..][..i - 1] == a[..i][1..] == b[..i][1..] == b[1..][..i - 1];
      StringTotal(a[0], b[0]);
      KeyLessExact(a[1..], b[1..], i - 1);
    }
  }

  datatype Entry<V> = Entry(key: Key, value: V)

  predicate Sorted<V>(m: seq<Entry<V>>) {
    forall i, j :: 0 <= i < j < |m| ==> KeyLess(m[i].key, m[j].key)
  }

  function Insert<V>(m: seq<Entry<V>>, k: Key, v: V): seq<Entry<V>> {
    if m == [] || KeyLess(k, m[0].key) then [Entry(k, v)] + m
    else if k == m[0].key then [Entry(k, v)] + m[1..]
    else [m[0]] + Insert(m[1..], k, v)
  }

  function Get<V>(m: seq<Entry<V>>, k: Key): Option<V> {
    if m == [] then None else if m[0].key == k then Some(m[0].value) else Get(m[1..], k)
  }

  function Values<V>(m: seq<Entry<V>>): (vs: seq<V>)
    ensures |vs| == |m| && forall i :: 0 <= i < |m| ==> vs[i] == m[i].value
  {
    seq(|m|, i requires 0 <= i < |m| => m[i].value)
  }

  lemma {:induction false} GetInsert<V>(m: seq<Entry<V>>, k: Key, v: V, q: Key)
    ensures Get(Insert(m, k, v), q) == if q == k then Some(v) else Get(m, q)
  {
    if m == [] || KeyLess(k, m[0].key) {
      assert ([Entry(k, v)] + m)[1..] == m;
    } else if k == m[0].key {
      assert ([Entry(k, v)] + m[1..])[1..] == m[1..];
    } else {
      GetInsert(m[1..], k, v, q);
      assert ([m[0]] + Insert(m[1..], k, v))[1..] == Insert(m[1..], k, v);
    }
  }

  /** Every entry of the result is the new one or an old one. */
  lemma {:induction false} InsertMembers<V>(m: seq<Entry<V>>, k: Key, v: V, e: Entry<V>)
    requires e in Insert(m, k, v)
    ensures e == Entry(k, v) || e in m
  {
    if m != [] && !KeyLess(k, m[0].key) && k != m[0].key && e != m[0] {
      InsertMembers(m[1..], k, v, e);
    }
  }

  lemma SortedCons<V>(e: Entry<V>, m: seq<Entry<V>>)
    requires Sorted(m) && forall x :: x in m ==> KeyLess(e.key, x.key)
    ensures Sorted([e] + m)
  {
    var s := [e] + m;
    forall i, j | 0 <= i < j < |s| ensures KeyLess(s[i].key, s[j].key) {
      assert s[j] == m[j - 1];
      assert m[j - 1] in m;
      if i > 0 { assert s[i] == m[i - 1]; }
    }
  }

  lemma {:induction false} InsertSorted<V>(m: seq<Entry<V>>, k: Key, v: V)
    requires Sorted(m)
    ensures Sorted(Insert(m, k, v))
  {
    if m == [] || KeyLess(k, m[0].key) {
      forall x | x in m ensures KeyLess(k, x.key) {
        KeyTransitive(k, m[0].key, x.key);
      }
      SortedCons(Entry(k, v), m);
    } else if k == m[0].key {
      SortedCons(Entry(k, v), m[1..]);
    } else {
      InsertSorted(m[1..], k, v);
      KeyTotal(k, m[0].key);
      forall x | x in Insert(m[1..], k, v) ensures KeyLess(m[0].key, x.key) {
        InsertMembers(m[1..], k, v, x);
      }
      SortedCons(m[0], Insert(m[1..], k, v));
    }
  }

  /** In a sorted map an entry is present exactly when its key looks up its value. */
  lemma {:induction false} GetMember<V>(m: seq<Entry<V>>, e: Entry<V>)
    requires Sorted(m)
    ensures e in m <==> Get(m, e.key) == Some(e.value)
  {
    if m != [] {
      GetMember(m[1..], e);
      if e in m[1..] { KeyTotal(m[0].key, e.key); }
    }
  }

  /** Sorted maps that look up alike are the same. */
  lemma {:induction false} Extensional<V>(a: seq<Entry<V>>, b: seq<Entry<V>>)
    requires Sorted(a) && Sorted(b) && forall k :: Get(a, k) == Get(b, k)
    ensures a == b
  {
    var probe := if a != [] then a[0].key else if b != [] then b[0].key else [];
    assert Get(a, probe) == Get(b, probe);
    if a != [] && b != [] {
      FirstIsLeast(a, b[0].key);
      FirstIsLeast(b, a[0].key);
      assert Get(a, a[0].key) == Get(b, a[0].key) && Get(a, b[0].key) == Get(b, b[0].key);
      KeyTotal(a[0].key, b[0].key);
      KeyTransitive(a[0].key, b[0].key, a[0].key);
      KeyTotal(a[0].key, a[0].key);
      forall k ensures Get(a[1..], k) == Get(b[1..], k) {
        assert Get(a, k) == Get(b, k);
        if k == a[0].key { FirstOnly(a); FirstOnly(b); }
      }
      Extensional(a[1..], b[1..]);
    }
  }

  lemma {:induction false} FirstIsLeast<V>(m: seq<Entry<V>>, k: Key)
    requires Sorted(m) && m != [] && Get(m, k).Some?
    ensures k == m[0].key || KeyLess(m[0].key, k)
  {
    GetMember(m, Entry(k, Get(m, k).value));
  }

  lemma FirstOnly<V>(m: seq<Entry<V>>)
    requires Sorted(m) && m != []
    ensures Get(m[1..], m[0].key).None?
  {
    if Get(m[1..], m[0].key).Some? {
      GetMember(m[1..], Entry(m[0].key, Get(m[1..], m[0].key).value));
      KeyTotal(m[0].key, m[0].key);
    }
  }
}
