/** The orders in which Python visits collections: `sorted` for distinct keys, and any order for a set. */
module Sorting {
  /** Some element of a set; Python leaves the order of iteration open. */
  method Any<T>(s: set<T>) returns (x: T)
    requires s != {}
    ensures x in s
  {
    x :| x in s;
  }

  lemma SameElements<T(!new)>(a: set<T>, b: set<T>)
    requires forall x :: x in a <==> x in b
    ensures a == b
  {
  }

  lemma Member<T>(s: set<T>) returns (x: T)
    requires s != {}
    ensures x in s
  {
    x :| x in s;
  }

  lemma NothingMissing<T(!new)>(a: set<T>, b: set<T>)
    ensures a - b == {} <==> a <= b
  {
    assert forall x :: x in a ==> x in a - b || x in b;
  }

  ghost predicate TotalOrder<T(!new)>(le: (T, T) -> bool) {
    && (forall x, y :: le(x, y) || le(y, x))
    && (forall x, y :: le(x, y) && le(y, x) ==> x == y)
    && (forall x, y, z :: le(x, y) && le(y, z) ==> le(x, z))
  }

  ghost predicate Ascending<T>(le: (T, T) -> bool, s: seq<T>) {
    forall i, j :: 0 <= i < j < |s| ==> le(s[i], s[j]) && s[i] != s[j]
  }

  lemma LeastExists<T(!new)>(le: (T, T) -> bool, s: set<T>)
    requires TotalOrder(le) && s != {}
    ensures exists m :: m in s && forall x :: x in s ==> le(m, x)
    decreases |s|
  {
    var a :| a in s;
    if s == {a} {
      assert forall x :: x in s ==> le(a, x);
    } else {
      LeastExists(le, s - {a});
      var m :| m in s - {a} && forall x :: x in s - {a} ==> le(m, x);
      var least := if le(a, m) then a else m;
      assert least in s && forall x :: x in s ==> le(least, x);
    }
  }

  /** The elements of s in ascending order. */
  function Sorted<T(!new, ==)>(le: (T, T) -> bool, s: set<T>): (r: seq<T>)
    requires TotalOrder(le)
    ensures forall x :: x in r <==> x in s
    ensures Ascending(le, r)
    ensures |r| == |s|
    decreases |s|
  {
    if s == {} then []
    else
      LeastExists(le, s);
      var m :| m in s && forall x :: x in s ==> le(m, x);
      var rest := Sorted(le, s - {m});
      PrependAscending(le, m, rest);
      [m] + rest
  }

  lemma PrependAscending<T>(le: (T, T) -> bool, m: T, rest: seq<T>)
    requires Ascending(le, rest) && forall x :: x in rest ==> le(m, x) && m != x
    ensures Ascending(le, [m] + rest)
  {
    assert forall i :: 0 <= i < |rest| ==> rest[i] in rest;
  }

  predicate IntLe(x: int, y: int) { x <= y }

  lemma IntLeTotal()
    ensures TotalOrder(IntLe)
  {
  }

  /** `sorted` on a set of integers. */
  method SortedInts(s: set<int>) returns (r: seq<int>)
    ensures forall x :: x in r <==> x in s
    ensures forall i, j :: 0 <= i < j < |r| ==> r[i] < r[j]
  {
    IntLeTotal();
    r := Sorted(IntLe, s);
  }

  /** The next element that a loop over `sorted(s)` visits. */
  method Least(s: set<int>) returns (x: int)
    requires s != {}
    ensures x in s && forall y :: y in s ==> x <= y
  {
    IntLeTotal();
    LeastExists(IntLe, s);
    x :| x in s && forall y :: y in s ==> IntLe(x, y);
  }

  /** Order of strings by code point, as Python compares them. */
  predicate StringLe(a: string, b: string) {
    a == [] || (b != [] && (a[0] < b[0] || (a[0] == b[0] && StringLe(a[1..], b[1..]))))
  }

  lemma {:induction false} StringLeTotal2(a: string, b: string)
    ensures StringLe(a, b) || StringLe(b, a)
    ensures StringLe(a, b) && StringLe(b, a) ==> a == b
  {
    if a != [] && b != [] && a[0] == b[0] {
      StringLeTotal2(a[1..], b[1..]);
      assert a == [a[0]] + a[1..] && b == [b[0]] + b[1..];
    }
  }

  lemma {:induction false} StringLeTransitive(a: string, b: string, c: string)
    requires StringLe(a, b) && StringLe(b, c)
    ensures StringLe(a, c)
  {
    if a != [] && a[0] == b[0] && b[0] == c[0] {
      StringLeTransitive(a[1..], b[1..], c[1..]);
    }
  }

  lemma StringLeTotal()
    ensures TotalOrder(StringLe)
  {
    forall a, b
      ensures StringLe(a, b) || StringLe(b, a)
      ensures StringLe(a, b) && StringLe(b, a) ==> a == b
    {
      StringLeTotal2(a, b);
    }
    forall a, b, c | StringLe(a, b) && StringLe(b, c)
      ensures StringLe(a, c)
    {
      StringLeTransitive(a, b, c);
    }
  }

  /** `sorted` on a set of strings. */
  function SortedStrings(s: set<string>): (r: seq<string>)
    ensures forall x :: x in r <==> x in s
    ensures Ascending(StringLe, r)
    ensures s == {} ==> r == []
  {
    StringLeTotal();
    Sorted(StringLe, s)
  }
}
