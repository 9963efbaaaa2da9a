/**
 Stable sorting of keyed members by the byte order of their keys. A sorted sequence is determined by what
 it holds under each key, in order.
 */
module Sorting {
  import opened Json

  datatype Keyed<T> = Keyed(key: bytes, item: T)

  /** Byte-wise lexicographic order. */
  predicate AtMost(a: bytes, b: bytes) {
    a == [] || (b != [] && (a[0] < b[0] || (a[0] == b[0] && AtMost(a[1..], b[1..]))))
  }

  lemma {:induction false} Antisymmetric(a: bytes, b: bytes)
    requires AtMost(a, b) && AtMost(b, a)
    ensures a == b
  {
    if a != [] {
      Antisymmetric(a[1..], b[1..]);
      assert a == [a[0]] + a[1..] && b == [b[0]] + b[1..];
    }
  }

  lemma {:induction false} Total(a: bytes, b: bytes)
    ensures AtMost(a, b) || AtMost(b, a)
  {
    if a != [] && b != [] {
      Total(a[1..], b[1..]);
    }
  }

  lemma {:induction false} Transitive(a: bytes, b: bytes, c: bytes)
    requires AtMost(a, b) && AtMost(b, c)
    ensures AtMost(a, c)
  {
    if a != [] {
      if a[0] == b[0] == c[0] {
        Transitive(a[1..], b[1..], c[1..]);
      }
    }
  }

  /** a is b, or a proper prefix of it, or has the smaller byte where they first differ. */
  ghost predicate Ascends(a: bytes, b: bytes) {
    exists k | 0 <= k <= |a| && k <= |b| :: a[..k] == b[..k] && (k == |a| || (k < |b| && a[k] < b[k]))
  }

  lemma {:induction false} OrderAscends(a: bytes, b: bytes)
    requires AtMost(a, b)
    ensures Ascends(a, b)
  {
    if a == [] {
      assert a[..0] == b[..0];
    } else if a[0] < b[0] {
      assert a[..0] == b[..0];
    } else {
      OrderAscends(a[1..], b[1..]);
      var k :| 0 <= k <= |a| - 1 && k <= |b| - 1 && a[1..][..k] == b[1..][..k] && (k == |a| - 1 || (k < |b| - 1 && a[1..][k] < b[1..][k]));
      assert a[..k + 1] == [a[0]] + a[1..][..k] && b[..k + 1] == [b[0]] + b[1..][..k];
    }
  }

  /** x before everything with its key or a greater one. */
  function Insert<T>(x: Keyed<T>, s: seq<Keyed<T>>): seq<Keyed<T>> {
    if s == [] || AtMost(x.key, s[0].key) then [x] + s else [s[0]] + Insert(x, s[1..])
  }

  function SortByKey<T>(s: seq<Keyed<T>>): seq<Keyed<T>> {
    if s == [] then [] else Insert(s[0], SortByKey(s[1..]))
  }

  ghost predicate Ordered<T>(s: seq<Keyed<T>>) {
    forall i, j | 0 <= i < j < |s| :: AtMost(s[i].key, s[j].key)
  }

  /** What s holds under the key, in order. */
  function Under<T>(s: seq<Keyed<T>>, key: bytes): seq<T> {
    if s == [] then [] else (if s[0].key == key then [s[0].item] else []) + Under(s[1..], key)
  }

  lemma {:induction false} InsertUnder<T>(x: Keyed<T>, s: seq<Keyed<T>>, key: bytes)
    ensures Under(Insert(x, s), key) == Under([x] + s, key)
  {
    assert ([x] + s)[1..] == s;
    if s != [] && !AtMost(x.key, s[0].key) {
      InsertUnder(x, s[1..], key);
      var rest := Insert(x, s[1..]);
      assert ([s[0]] + rest)[1..] == rest;
      assert ([x] + s[1..])[1..] == s[1..];
      assert x.key != s[0].key by {
        Total(x.key, s[0].key);
      }
    }
  }

  lemma {:induction false} InsertOrdered<T>(x: Keyed<T>, s: seq<Keyed<T>>)
    requires Ordered(s)
    ensures Ordered(Insert(x, s)) && forall y | y in Insert(x, s) :: y == x || y in s
  {
    if s == [] {
    } else if AtMost(x.key, s[0].key) {
      forall j | 0 <= j < |s|
        ensures AtMost(x.key, s[j].key)
      {
        if j > 0 {
          Transitive(x.key, s[0].key, s[j].key);
        }
      }
    } else {
      Total(x.key, s[0].key);
      InsertOrdered(x, s[1..]);
      var rest := Insert(x, s[1..]);
      forall j | 0 <= j < |rest|
        ensures AtMost(s[0].key, rest[j].key)
      {
        assert rest[j] in rest;
        if rest[j] != x {
          var k :| 0 <= k < |s[1..]| && s[1..][k] == rest[j];
          assert s[k + 1] == rest[j];
        }
      }
    }
  }

  /** Sorting orders the keys and keeps what each key holds, in order. */
  lemma {:induction false} Sorted<T>(s: seq<Keyed<T>>)
    ensures Ordered(SortByKey(s)) && forall key :: Under(SortByKey(s), key) == Under(s, key)
  {
    if s != [] {
      Sorted(s[1..]);
      var rest := SortByKey(s[1..]);
      InsertOrdered(s[0], rest);
      forall key
        ensures Under(SortByKey(s), key) == Under(s, key)
      {
        InsertUnder(s[0], rest, key);
        assert ([s[0]] + rest)[1..] == rest;
      }
    }
  }

  /** The sorted keys ascend byte by byte. */
  lemma KeysAscend<T>(s: seq<Keyed<T>>)
    ensures forall i, j | 0 <= i < j < |SortByKey(s)| :: Ascends(SortByKey(s)[i].key, SortByKey(s)[j].key)
  {
    Sorted(s);
    forall i, j | 0 <= i < j < |SortByKey(s)|
      ensures Ascends(SortByKey(s)[i].key, SortByKey(s)[j].key)
    {
      OrderAscends(SortByKey(s)[i].key, SortByKey(s)[j].key);
    }
  }

  lemma {:induction false} Held<T>(s: seq<Keyed<T>>, key: bytes)
    ensures Under(s, key) != [] <==> exists i :: 0 <= i < |s| && s[i].key == key
  {
    if s != [] {
      Held(s[1..], key);
      if Under(s[1..], key) != [] {
        var i :| 0 <= i < |s[1..]| && s[1..][i].key == key;
        assert s[i + 1].key == key;
      }
      if i :| 0 <= i < |s| && s[i].key == key {
        if i > 0 {
          assert s[1..][i - 1].key == key;
        }
      }
    }
  }

  lemma FirstKeyLeast<T>(s: seq<Keyed<T>>, t: seq<Keyed<T>>)
    requires s != [] && Ordered(t) && forall key :: Under(s, key) == Under(t, key)
    ensures t != [] && AtMost(t[0].key, s[0].key)
  {
    Held(s, s[0].key);
    Held(t, s[0].key);
    var i :| 0 <= i < |t| && t[i].key == s[0].key;
    if i == 0 {
      Total(t[0].key, t[0].key);
    }
  }

  /** Ordered sequences that hold the same under every key are equal. */
  lemma {:induction false} OrderedUnique<T>(s: seq<Keyed<T>>, t: seq<Keyed<T>>)
    requires Ordered(s) && Ordered(t) && forall key :: Under(s, key) == Under(t, key)
    ensures s == t
  {
    if s == [] {
      if t != [] {
        FirstKeyLeast(t, s);
      }
    } else {
      FirstKeyLeast(s, t);
      FirstKeyLeast(t, s);
      Antisymmetric(s[0].key, t[0].key);
      var k := s[0].key;
      assert Under(s, k) == [s[0].item] + Under(s[1..], k) && Under(t, k) == [t[0].item] + Under(t[1..], k);
      assert s[0].item == Under(s, k)[0] == Under(t, k)[0] == t[0].item;
      forall key
        ensures Under(s[1..], key) == Under(t[1..], key)
      {
        assert Under(s[1..], key) == Under(s, key)[|Under(s, key)| - |Under(s[1..], key)|..];
        assert Under(t[1..], key) == Under(t, key)[|Under(t, key)| - |Under(t[1..], key)|..];
        if key == k {
          assert |Under(s, key)| == 1 + |Under(s[1..], key)|;
        }
      }
      OrderedUnique(s[1..], t[1..]);
      assert s == [s[0]] + s[1..] && t == [t[0]] + t[1..];
    }
  }

  /** Members agree in key and in what R relates. */
  ghost predicate Parallel<T, U>(s: seq<Keyed<T>>, t: seq<Keyed<U>>, r: (T, U) -> bool) {
    |s| == |t| && forall i | 0 <= i < |s| :: s[i].key == t[i].key && r(s[i].item, t[i].item)
  }

  lemma {:induction false} InsertParallel<T, U>(x: Keyed<T>, y: Keyed<U>, s: seq<Keyed<T>>, t: seq<Keyed<U>>, r: (T, U) -> bool)
    requires Parallel(s, t, r) && x.key == y.key && r(x.item, y.item)
    ensures Parallel(Insert(x, s), Insert(y, t), r)
  {
    if s != [] && !AtMost(x.key, s[0].key) {
      InsertParallel(x, y, s[1..], t[1..], r);
    }
  }

  /** Sorting only looks at the keys. */
  lemma {:induction false} SortParallel<T, U>(s: seq<Keyed<T>>, t: seq<Keyed<U>>, r: (T, U) -> bool)
    requires Parallel(s, t, r)
    ensures Parallel(SortByKey(s), SortByKey(t), r)
  {
    if s != [] {
      SortParallel(s[1..], t[1..], r);
      InsertParallel(s[0], t[0], SortByKey(s[1..]), SortByKey(t[1..]), r);
    }
  }

  /** Where the i-th sorted member comes from. */
  lemma {:induction false} SortedFrom<T>(s: seq<Keyed<T>>, i: nat) returns (k: nat)
    requires i < |SortByKey(s)|
    ensures k < |s| && s[k] == SortByKey(s)[i]
  {
    var j := InsertedFrom(s[0], SortByKey(s[1..]), i);
    if j.None? {
      k := 0;
    } else {
      var p := SortedFrom(s[1..], j.value);
      k := p + 1;
    }
  }

  lemma {:induction false} InsertedFrom<T>(x: Keyed<T>, s: seq<Keyed<T>>, i: nat) returns (k: Option<nat>)
    requires i < |Insert(x, s)|
    ensures if k.None? then Insert(x, s)[i] == x else k.value < |s| && Insert(x, s)[i] == s[k.value]
  {
    if s == [] || AtMost(x.key, s[0].key) {
      k := if i == 0 then None else Some(i - 1);
    } else if i == 0 {
      k := Some(0);
    } else {
      var j := InsertedFrom(x, s[1..], i - 1);
      k := if j.None? then None else Some(j.value + 1);
    }
  }
}
