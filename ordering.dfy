/** `ORDER BY column ASC|DESC` as SQLite evaluates it: NULL sorts before every
    number, numbers before text, numbers by value, and text by code point (the
    BINARY collation compares UTF-8 bytes, whose order is code-point order). */
module Ordering {

  /** The value of one column, as far as ordering is concerned. */
  datatype SortKey = NullKey | IntKey(i: int) | TextKey(s: string)

  /** Lexicographic order on strings. */
  predicate TextLe(x: string, y: string)
  {
    if x == [] then true
    else if y == [] then false
    else if x[0] != y[0] then x[0] < y[0]
    else TextLe(x[1..], y[1..])
  }

  lemma {:induction false} TextLeTotal(x: string, y: string)
    ensures TextLe(x, y) || TextLe(y, x)
  {
    if x != [] && y != [] && x[0] == y[0] {
      TextLeTotal(x[1..], y[1..]);
    }
  }

  lemma {:induction false} TextLeTransitive(x: string, y: string, z: string)
    requires TextLe(x, y) && TextLe(y, z)
    ensures TextLe(x, z)
  {
    if x != [] && y != [] && z != [] && x[0] == y[0] && y[0] == z[0] {
      TextLeTransitive(x[1..], y[1..], z[1..]);
    }
  }

  /** Two strings each at most the other are equal. */
  lemma {:induction false} TextLeAntisymmetric(x: string, y: string)
    requires TextLe(x, y) && TextLe(y, x)
    ensures x == y
  {
    if x != [] && y != [] {
      TextLeAntisymmetric(x[1..], y[1..]);
      assert x == [x[0]] + x[1..] && y == [y[0]] + y[1..];
    }
  }

  predicate KeyLe(a: SortKey, b: SortKey)
  {
    match (a, b)
    case (NullKey, _) => true
    case (_, NullKey) => false
    case (IntKey(x), IntKey(y)) => x <= y
    case (IntKey(_), TextKey(_)) => true
    case (TextKey(_), IntKey(_)) => false
    case (TextKey(x), TextKey(y)) => TextLe(x, y)
  }

  lemma KeyLeTotal(a: SortKey, b: SortKey)
    ensures KeyLe(a, b) || KeyLe(b, a)
  {
    if a.TextKey? && b.TextKey? {
      TextLeTotal(a.s, b.s);
    }
  }

  lemma KeyLeTransitive(a: SortKey, b: SortKey, c: SortKey)
    requires KeyLe(a, b) && KeyLe(b, c)
    ensures KeyLe(a, c)
  {
    if a.TextKey? && b.TextKey? && c.TextKey? {
      TextLeTransitive(a.s, b.s, c.s);
    }
  }

  /** `a` may come before `b` in the chosen direction. */
  predicate InOrder(a: SortKey, b: SortKey, asc: bool)
  {
    if asc then KeyLe(a, b) else KeyLe(b, a)
  }

  lemma InOrderTotal(a: SortKey, b: SortKey, asc: bool)
    ensures InOrder(a, b, asc) || InOrder(b, a, asc)
  {
    KeyLeTotal(a, b);
  }

  lemma InOrderTransitive(a: SortKey, b: SortKey, c: SortKey, asc: bool)
    requires InOrder(a, b, asc) && InOrder(b, c, asc)
    ensures InOrder(a, c, asc)
  {
    if asc { KeyLeTransitive(a, b, c); } else { KeyLeTransitive(c, b, a); }
  }

  ghost predicate SortedBy<T>(s: seq<T>, key: T -> SortKey, asc: bool)
  {
    forall i, j :: 0 <= i < j < |s| ==> InOrder(key(s[i]), key(s[j]), asc)
  }

  /** A row that may precede every row of a sorted sequence can head it. */
  lemma ConsSorted<T>(h: T, s: seq<T>, key: T -> SortKey, asc: bool)
    requires SortedBy(s, key, asc)
    requires forall j :: 0 <= j < |s| ==> InOrder(key(h), key(s[j]), asc)
    ensures SortedBy([h] + s, key, asc)
  {
    var r := [h] + s;
    forall i, j | 0 <= i < j < |r| ensures InOrder(key(r[i]), key(r[j]), asc) {
      assert r[j] == s[j - 1];
      if i > 0 { assert r[i] == s[i - 1]; }
    }
  }

  /** The head of a sorted sequence may precede every later row and every
      row it was put before. */
  lemma HeadPrecedes<T>(x: T, s: seq<T>, rest: seq<T>, key: T -> SortKey, asc: bool)
    requires s != [] && SortedBy(s, key, asc)
    requires !InOrder(key(x), key(s[0]), asc)
    requires multiset(rest) == multiset(s[1..]) + multiset{x}
    ensures forall j :: 0 <= j < |rest| ==> InOrder(key(s[0]), key(rest[j]), asc)
  {
    InOrderTotal(key(s[0]), key(x), asc);
    forall j | 0 <= j < |rest| ensures InOrder(key(s[0]), key(rest[j]), asc) {
      assert rest[j] in multiset(rest);
      if rest[j] != x {
        assert rest[j] in multiset(s[1..]);
        var k :| 0 <= k < |s[1..]| && s[1..][k] == rest[j];
        assert s[k + 1] == rest[j];
      }
    }
  }

  /** Put `x` into a sorted sequence, before the first row it may precede. */
  function Insert<T>(x: T, s: seq<T>, key: T -> SortKey, asc: bool): (r: seq<T>)
    requires SortedBy(s, key, asc)
    ensures SortedBy(r, key, asc)
    ensures multiset(r) == multiset(s) + multiset{x}
    ensures |r| == |s| + 1
  {
    if s == [] then [x]
    else if InOrder(key(x), key(s[0]), asc) then
      assert forall j :: 0 <= j < |s| ==> InOrder(key(x), key(s[j]), asc) by {
        forall j | 0 <= j < |s| ensures InOrder(key(x), key(s[j]), asc) {
          if j > 0 { InOrderTransitive(key(x), key(s[0]), key(s[j]), asc); }
        }
      }
      ConsSorted(x, s, key, asc);
      [x] + s
    else
      var rest := Insert(x, s[1..], key, asc);
      assert s == [s[0]] + s[1..];
      HeadPrecedes(x, s, rest, key, asc);
      ConsSorted(s[0], rest, key, asc);
      [s[0]] + rest
  }

  /** Insertion sort: stable, so rows with equal keys keep their order. */
  function SortByKey<T>(s: seq<T>, key: T -> SortKey, asc: bool): (r: seq<T>)
    ensures SortedBy(r, key, asc)
    ensures multiset(r) == multiset(s)
    ensures |r| == |s|
  {
    if s == [] then []
    else
      assert s == [s[0]] + s[1..];
      Insert(s[0], SortByKey(s[1..], key, asc), key, asc)
  }
}
