/**
 * Array.prototype.sort with a comparator: the engine relies on it being a
 * stable sort (ECMAScript 2019 and later). It is modelled by insertion sort
 * over sequences, for an order `le` ("sorts no later than") that is total
 * and transitive.
 */
module Sorting {
  import opened SeqUtil

  ghost predicate Total<T(!new)>(le: (T, T) -> bool) {
    forall a, b :: le(a, b) || le(b, a)
  }

  ghost predicate Transitive<T(!new)>(le: (T, T) -> bool) {
    forall a, b, c :: le(a, b) && le(b, c) ==> le(a, c)
  }

  ghost predicate Sorted<T>(s: seq<T>, le: (T, T) -> bool) {
    forall i, j :: 0 <= i < j < |s| ==> le(s[i], s[j])
  }

  /** x placed before the first element it sorts no later than. */
  function Insert<T>(x: T, s: seq<T>, le: (T, T) -> bool): (r: seq<T>)
    ensures multiset(r) == multiset(s) + multiset{x}
    ensures |r| == |s| + 1
  {
    if s == [] || le(x, s[0]) then [x] + s
    else
      assert s == [s[0]] + s[1..];
      [s[0]] + Insert(x, s[1..], le)
  }

  /** Stable sort: each element is inserted in front of all later elements it ties with. */
  function Sort<T>(s: seq<T>, le: (T, T) -> bool): (r: seq<T>)
    ensures multiset(r) == multiset(s)
    ensures |r| == |s|
  {
    if s == [] then []
    else
      assert s == [s[0]] + s[1..];
      Insert(s[0], Sort(s[1..], le), le)
  }

  /** The elements that tie with z under le. */
  function TiedWith<T>(le: (T, T) -> bool, z: T): T -> bool {
    y => le(y, z) && le(z, y)
  }

  lemma {:induction false} InsertSorted<T(!new)>(x: T, s: seq<T>, le: (T, T) -> bool)
    requires Total(le) && Transitive(le) && Sorted(s, le)
    ensures Sorted(Insert(x, s, le), le)
  {
    if s == [] || le(x, s[0]) {
      var r := [x] + s;
      forall i, j | 0 <= i < j < |r| ensures le(r[i], r[j]) {
        if i == 0 && j > 1 {
          assert le(s[0], s[j - 1]);
        }
      }
    } else {
      var t := s[1..];
      assert Sorted(t, le);
      InsertSorted(x, t, le);
      var u := Insert(x, t, le);
      var r := [s[0]] + u;
      assert le(s[0], x);
      forall k | 0 <= k < |u| ensures le(s[0], u[k]) {
        assert u[k] in multiset(u);
        assert u[k] == x || u[k] in multiset(t);
        if u[k] != x {
          var m :| 0 <= m < |t| && t[m] == u[k];
          assert t[m] == s[m + 1];
        }
      }
      forall i, j | 0 <= i < j < |r| ensures le(r[i], r[j]) {
        if i == 0 {
          assert r[j] == u[j - 1];
        } else {
          assert r[i] == u[i - 1] && r[j] == u[j - 1];
        }
      }
    }
  }

  /** Sort orders its result. */
  lemma {:induction false} SortSorted<T(!new)>(s: seq<T>, le: (T, T) -> bool)
    requires Total(le) && Transitive(le)
    ensures Sorted(Sort(s, le), le)
  {
    if s != [] {
      SortSorted(s[1..], le);
      InsertSorted(s[0], Sort(s[1..], le), le);
    }
  }

  /** An element that sorts strictly before x never ties with z when x does. */
  lemma NotBothTied<T(!new)>(x: T, y: T, le: (T, T) -> bool, z: T)
    requires Transitive(le) && !le(x, y)
    ensures !(TiedWith(le, z)(x) && TiedWith(le, z)(y))
  {
  }

  lemma {:induction false} InsertStable<T(!new)>(x: T, s: seq<T>, le: (T, T) -> bool, z: T)
    requires Transitive(le)
    ensures Filter(Insert(x, s, le), TiedWith(le, z))
         == (if TiedWith(le, z)(x) then [x] else []) + Filter(s, TiedWith(le, z))
  {
    var p := TiedWith(le, z);
    var hx := if p(x) then [x] else [];
    if s == [] || le(x, s[0]) {
      assert Insert(x, s, le) == [x] + s;
      FilterConcat([x], s, p);
      assert Filter([x], p) == hx;
    } else {
      InsertStable(x, s[1..], le, z);
      NotBothTied(x, s[0], le, z);
      InsertStableCons(x, s, le, p);
    }
  }

  /** The step of InsertStable past a head that x does not precede, given the result for the tail. */
  lemma InsertStableCons<T>(x: T, s: seq<T>, le: (T, T) -> bool, p: T -> bool)
    requires s != [] && !le(x, s[0]) && !(p(x) && p(s[0]))
    requires Filter(Insert(x, s[1..], le), p) == (if p(x) then [x] else []) + Filter(s[1..], p)
    ensures Filter(Insert(x, s, le), p) == (if p(x) then [x] else []) + Filter(s, p)
  {
    var hx := if p(x) then [x] else [];
    var h0 := if p(s[0]) then [s[0]] else [];
    FilterInsertPast(x, s, le, p);
    FilterHead(s, p);
    SwapEmpty(hx, h0, Filter(s[1..], p));
  }

  /** Inserting past the head keeps the head in front of the filtered rest. */
  lemma FilterInsertPast<T>(x: T, s: seq<T>, le: (T, T) -> bool, p: T -> bool)
    requires s != [] && !le(x, s[0])
    ensures Filter(Insert(x, s, le), p) == (if p(s[0]) then [s[0]] else []) + Filter(Insert(x, s[1..], le), p)
  {
    assert Insert(x, s, le) == [s[0]] + Insert(x, s[1..], le);
    FilterCons(s[0], Insert(x, s[1..], le), p);
  }

  lemma FilterHead<T>(s: seq<T>, p: T -> bool)
    requires s != []
    ensures Filter(s, p) == (if p(s[0]) then [s[0]] else []) + Filter(s[1..], p)
  {
    assert s == [s[0]] + s[1..];
    FilterCons(s[0], s[1..], p);
  }

  /** Of two sequences one of which is empty, either may go first. */
  lemma SwapEmpty<T>(a: seq<T>, b: seq<T>, c: seq<T>)
    requires a == [] || b == []
    ensures b + (a + c) == a + (b + c)
  {
  }

  /** Sort is stable: the elements that tie with any z keep their original relative order. */
  lemma {:induction false} SortStable<T(!new)>(s: seq<T>, le: (T, T) -> bool, z: T)
    requires Transitive(le)
    ensures Filter(Sort(s, le), TiedWith(le, z)) == Filter(s, TiedWith(le, z))
  {
    if s != [] {
      SortStable(s[1..], le, z);
      InsertStable(s[0], Sort(s[1..], le), le, z);
      FilterConcat([s[0]], s[1..], TiedWith(le, z));
      assert s == [s[0]] + s[1..];
    }
  }
}
