/** The iteration order of `BTreeMap` and `BTreeSet`. */
module Ordering {
  import opened Prelude

  ghost predicate TotalOrder<T(!new)>(le: (T, T) -> bool) {
    && (forall x :: le(x, x))
    && (forall x, y :: le(x, y) && le(y, x) ==> x == y)
    && (forall x, y, z :: le(x, y) && le(y, z) ==> le(x, z))
    && (forall x, y :: le(x, y) || le(y, x))
  }

  predicate Ascending<T(==)>(s: seq<T>, le: (T, T) -> bool) {
    forall i, j :: 0 <= i < j < |s| ==> le(s[i], s[j]) && s[i] != s[j]
  }

  ghost predicate IsLeast<T>(m: T, s: set<T>, le: (T, T) -> bool) {
    m in s && forall x :: x in s ==> le(m, x)
  }

  lemma LeastOfTwo<T(!new)>(x: T, m: T, s: set<T>, le: (T, T) -> bool)
    requires TotalOrder(le) && x in s && IsLeast(m, s - {x}, le)
    ensures IsLeast(if le(x, m) then x else m, s, le)
  {
  }

  lemma {:induction false} LeastExists<T(!new)>(s: set<T>, le: (T, T) -> bool)
    requires s != {} && TotalOrder(le)
    ensures exists m :: IsLeast(m, s, le)
    decreases |s|
  {
    var x :| x in s;
    if s - {x} == {} {
      assert s == {x};
      assert IsLeast(x, s, le);
    } else {
      LeastExists(s - {x}, le);
      var m :| IsLeast(m, s - {x}, le);
      LeastOfTwo(x, m, s, le);
    }
  }

  function Least<T(==, !new)>(s: set<T>, le: (T, T) -> bool): (m: T)
    requires s != {} && TotalOrder(le)
    ensures m in s
    ensures forall x :: x in s ==> le(m, x)
  {
    LeastExists(s, le);
    assert exists m :: m in s && forall x :: x in s ==> le(m, x) by {
      var m :| IsLeast(m, s, le);
    }
    var m :| m in s && forall x :: x in s ==> le(m, x);
    m
  }

  /** The members of `s`, in ascending order. */
  function Sorted<T(==, !new)>(s: set<T>, le: (T, T) -> bool): (r: seq<T>)
    requires TotalOrder(le)
    ensures |r| == |s|
    ensures forall x :: x in r <==> x in s
    ensures Ascending(r, le)
    decreases |s|
  {
    if s == {} then []
    else
      var m := Least(s, le);
      [m] + Sorted(s - {m}, le)
  }

  /** An ascending sequence is determined by its members. */
  lemma {:induction false} AscendingUnique<T(!new)>(a: seq<T>, b: seq<T>, le: (T, T) -> bool)
    requires TotalOrder(le)
    requires Ascending(a, le) && Ascending(b, le)
    requires forall x :: x in a <==> x in b
    ensures a == b
  {
    if a == [] {
      assert forall k :: 0 <= k < |b| ==> b[k] in b;
    } else {
      assert a[0] in b && b[0] in a;
      var i :| 0 <= i < |b| && b[i] == a[0];
      var j :| 0 <= j < |a| && a[j] == b[0];
      assert a[0] == b[0];
      var x := a[0];
      forall y
        ensures y in a[1..] <==> y in b[1..]
      {
        assert x !in a[1..] && x !in b[1..];
        assert y in a <==> y == x || y in a[1..];
        assert y in b <==> y == x || y in b[1..];
      }
      AscendingUnique(a[1..], b[1..], le);
      assert a == [x] + a[1..] && b == [x] + b[1..];
    }
  }

  // ------------------------------------------------------ lexicographic order

  /** `str` order.  UTF-8 keeps the order of characters, so comparing characters
      is comparing bytes. */
  predicate StrLe(a: string, b: string) {
    if a == [] then true
    else if b == [] then false
    else if a[0] == b[0] then StrLe(a[1..], b[1..])
    else a[0] < b[0]
  }

  lemma {:induction false} StrReflexive(a: string)
    ensures StrLe(a, a)
  {
    if a != [] { StrReflexive(a[1..]); }
  }

  lemma {:induction false} StrAntisymmetric(a: string, b: string)
    requires StrLe(a, b) && StrLe(b, a)
    ensures a == b
  {
    if a != [] && b != [] {
      StrAntisymmetric(a[1..], b[1..]);
      assert a == [a[0]] + a[1..] && b == [b[0]] + b[1..];
    }
  }

  lemma {:induction false} StrTransitive(a: string, b: string, c: string)
    requires StrLe(a, b) && StrLe(b, c)
    ensures StrLe(a, c)
  {
    if a != [] && a[0] == b[0] == c[0] { StrTransitive(a[1..], b[1..], c[1..]); }
  }

  lemma {:induction false} StrTotal(a: string, b: string)
    ensures StrLe(a, b) || StrLe(b, a)
  {
    if a != [] && b != [] && a[0] == b[0] { StrTotal(a[1..], b[1..]); }
  }

  lemma StrOrder()
    ensures TotalOrder(StrLe)
  {
    forall a: string
      ensures StrLe(a, a)
    {
      StrReflexive(a);
    }
    forall a, b | StrLe(a, b) && StrLe(b, a)
      ensures a == b
    {
      StrAntisymmetric(a, b);
    }
    forall a, b, c | StrLe(a, b) && StrLe(b, c)
      ensures StrLe(a, c)
    {
      StrTransitive(a, b, c);
    }
    forall a: string, b: string
      ensures StrLe(a, b) || StrLe(b, a)
    {
      StrTotal(a, b);
    }
  }

  function SortedStrings(s: set<string>): (r: seq<string>)
    ensures |r| == |s|
    ensures forall x :: x in r <==> x in s
    ensures Ascending(r, StrLe)
  {
    StrOrder();
    Sorted(s, StrLe)
  }
}
