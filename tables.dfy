/** Rows of a table as a sequence in ascending primary-key order, and the
    query building blocks the services use on them: lookup by key, WHERE on a
    column, delete WHERE a column is in a set, and LIMIT/OFFSET. A column is
    given as a function from a row to its value. */
module Tables {
  import opened Common

  /** The set of values a column takes in a table. */
  function Ids<T(==,!new)>(s: seq<T>, col: T -> int): set<int>
  {
    set x | x in s :: col(x)
  }

  /** Primary keys strictly ascend: they are unique, and a scan without
      ORDER BY sees the rows in that order. */
  ghost predicate Ascending<T(!new)>(s: seq<T>, key: T -> int)
  {
    forall i, j :: 0 <= i < j < |s| ==> key(s[i]) < key(s[j])
  }

  /** An INSERT with the next key: the keys still ascend, and the new key
      joins the table's keys. */
  lemma AppendRow<T(!new)>(s: seq<T>, key: T -> int, x: T)
    requires Ascending(s, key)
    requires forall y :: y in s ==> key(y) < key(x)
    ensures Ascending(s + [x], key)
    ensures Ids(s + [x], key) == Ids(s, key) + {key(x)}
    ensures key(x) !in Ids(s, key)
  {
    var s' := s + [x];
    forall i, j | 0 <= i < j < |s'| ensures key(s'[i]) < key(s'[j]) {
      if j == |s| {
        assert s'[i] in s;
      }
    }
    assert forall y :: y in s' <==> y in s || y == x;
  }

  /** `SELECT ... WHERE key = id`, as the position of the row. */
  function Find<T(!new)>(s: seq<T>, key: T -> int, id: int): (r: Option<nat>)
    ensures r.Some? ==> r.value < |s| && key(s[r.value]) == id
    ensures r.None? ==> forall i :: 0 <= i < |s| ==> key(s[i]) != id
  {
    if s == [] then None
    else if key(s[0]) == id then Some(0)
    else match Find(s[1..], key, id)
      case None => None
      case Some(k) => Some(k + 1)
  }

  lemma FindIds<T(!new)>(s: seq<T>, key: T -> int, id: int)
    ensures Find(s, key, id).Some? <==> id in Ids(s, key)
  {
  }

  /** With unique keys the row found is the only one with that key. */
  lemma FindUnique<T(!new)>(s: seq<T>, key: T -> int, id: int, i: nat)
    requires Ascending(s, key)
    requires i < |s| && key(s[i]) == id
    ensures Find(s, key, id) == Some(i)
  {
  }

  /** `WHERE col = v`, keeping the table's order. */
  function Select<T(!new)>(s: seq<T>, col: T -> int, v: int): (r: seq<T>)
    ensures |r| <= |s|
    ensures forall x :: x in r <==> x in s && col(x) == v
    ensures multiset(r) <= multiset(s)
  {
    if s == [] then []
    else
      assert s == [s[0]] + s[1..];
      if col(s[0]) == v then [s[0]] + Select(s[1..], col, v) else Select(s[1..], col, v)
  }

  /** A row keyed below every row of an ascending table can head it. */
  lemma AscendingCons<T(!new)>(h: T, s: seq<T>, key: T -> int)
    requires Ascending(s, key)
    requires forall y :: y in s ==> key(h) < key(y)
    ensures Ascending([h] + s, key)
  {
    var r := [h] + s;
    forall i, j | 0 <= i < j < |r| ensures key(r[i]) < key(r[j]) {
      assert r[j] == s[j - 1];
      if i > 0 { assert r[i] == s[i - 1]; }
    }
  }

  /** The first row of an ascending table has the smallest key. */
  lemma HeadBelowTail<T(!new)>(s: seq<T>, key: T -> int)
    requires s != [] && Ascending(s, key)
    ensures forall y :: y in s[1..] ==> key(s[0]) < key(y)
  {
    forall y | y in s[1..] ensures key(s[0]) < key(y) {
      var k :| 0 <= k < |s[1..]| && s[1..][k] == y;
      assert s[k + 1] == y;
    }
  }

  /** A WHERE keeps ascending keys ascending. */
  lemma {:induction false} SelectAscending<T(!new)>(s: seq<T>, col: T -> int, v: int, key: T -> int)
    requires Ascending(s, key)
    ensures Ascending(Select(s, col, v), key)
  {
    if s != [] {
      var rest := Select(s[1..], col, v);
      assert Ascending(s[1..], key);
      SelectAscending(s[1..], col, v, key);
      if col(s[0]) == v {
        HeadBelowTail(s, key);
        AscendingCons(s[0], rest, key);
      }
    }
  }

  /** With unique keys, a table has as many rows as distinct keys, so
      `COUNT(id)` counts rows. */
  lemma {:induction false} KeysCountRows<T(!new)>(s: seq<T>, key: T -> int)
    requires Ascending(s, key)
    ensures |Ids(s, key)| == |s|
  {
    if s != [] {
      var rest := s[1..];
      KeysCountRows(rest, key);
      assert s == [s[0]] + rest;
      assert Ids(s, key) == Ids(rest, key) + {key(s[0])};
      assert key(s[0]) !in Ids(rest, key);
    }
  }

  /** A WHERE that no row satisfies selects nothing. */
  lemma {:induction false} SelectNone<T(!new)>(s: seq<T>, col: T -> int, v: int)
    requires forall x :: x in s ==> col(x) != v
    ensures Select(s, col, v) == []
  {
    if s != [] {
      SelectNone(s[1..], col, v);
    }
  }

  /** `DELETE ... WHERE col IN ids`: the rows that remain, in order. */
  function Exclude<T(!new)>(s: seq<T>, col: T -> int, ids: set<int>): (r: seq<T>)
    ensures |r| <= |s|
    ensures forall x :: x in r <==> x in s && col(x) !in ids
  {
    if s == [] then []
    else if col(s[0]) !in ids then [s[0]] + Exclude(s[1..], col, ids)
    else Exclude(s[1..], col, ids)
  }

  /** Deleting rows keeps the others in ascending key order. */
  lemma {:induction false} ExcludeAscending<T(!new)>(s: seq<T>, col: T -> int, ids: set<int>, key: T -> int)
    requires Ascending(s, key)
    ensures Ascending(Exclude(s, col, ids), key)
  {
    if s != [] {
      ExcludeAscending(s[1..], col, ids, key);
      var rest := Exclude(s[1..], col, ids);
      forall y | y in rest ensures key(s[0]) < key(y) {
        var j :| 0 <= j < |s[1..]| && s[1..][j] == y;
        assert s[j + 1] == y;
      }
    }
  }

  /** Deleting by primary key removes exactly those keys. */
  lemma ExcludeIds<T(!new)>(s: seq<T>, key: T -> int, ids: set<int>)
    ensures Ids(Exclude(s, key, ids), key) == Ids(s, key) - ids
  {
    var r := Exclude(s, key, ids);
    forall i | i in Ids(s, key) - ids ensures i in Ids(r, key) {
      var x :| x in s && key(x) == i;
      assert x in r;
    }
  }

  /** Writing back a row under the same key keeps the keys, in order. */
  lemma ReplaceKeepsKeys<T(!new)>(s: seq<T>, key: T -> int, i: nat, x: T)
    requires i < |s| && key(x) == key(s[i])
    ensures Ids(s[i := x], key) == Ids(s, key)
    ensures Ascending(s, key) ==> Ascending(s[i := x], key)
    ensures forall y :: y in s[i := x] ==> y == x || y in s
  {
    var r := s[i := x];
    forall k | k in Ids(s, key) ensures k in Ids(r, key) {
      var y :| y in s && key(y) == k;
      var j :| 0 <= j < |s| && s[j] == y;
      assert r[j] in r && key(r[j]) == k;
    }
    forall y | y in r ensures y == x || y in s {
      var j :| 0 <= j < |r| && r[j] == y;
      if j != i { assert s[j] == y; }
    }
  }

  /** `LIMIT limit OFFSET offset`. */
  function Page<T(!new)>(s: seq<T>, limit: nat, offset: nat): (r: seq<T>)
    ensures |r| <= limit
    ensures |r| == if offset >= |s| then 0 else Min(limit, |s| - offset)
    ensures forall i :: 0 <= i < |r| ==> r[i] == s[offset + i]
  {
    if offset >= |s| then [] else s[offset..offset + Min(limit, |s| - offset)]
  }

  /** Consecutive windows join into one: the next page starts where the
      previous one ended. */
  lemma PagesAdjoin<T(!new)>(s: seq<T>, a: nat, b: nat, offset: nat)
    ensures Page(s, a, offset) + Page(s, b, offset + a) == Page(s, a + b, offset)
  {
    var p, q, r := Page(s, a, offset), Page(s, b, offset + a), Page(s, a + b, offset);
    assert |p + q| == |r|;
    forall i | 0 <= i < |r| ensures (p + q)[i] == r[i] {
      if i >= |p| { assert |p| == a; assert q[i - a] == s[offset + a + (i - a)]; }
    }
  }

  /** A window holds no row more often than the table does. */
  lemma PageMultiset<T(!new)>(s: seq<T>, limit: nat, offset: nat)
    ensures multiset(Page(s, limit, offset)) <= multiset(s)
  {
    if offset < |s| {
      var b := offset + Min(limit, |s| - offset);
      var front, window, back := s[..offset], s[offset..b], s[b..];
      assert Page(s, limit, offset) == window;
      assert s[..b] == front + window;
      assert s == s[..b] + back;
      assert multiset(s) == multiset(s[..b]) + multiset(back);
      assert multiset(s[..b]) == multiset(front) + multiset(window);
    }
  }

  lemma PageElements<T(!new)>(s: seq<T>, limit: nat, offset: nat)
    ensures forall x :: x in Page(s, limit, offset) ==> x in s
  {
    var r := Page(s, limit, offset);
    forall x | x in r ensures x in s {
      var i :| 0 <= i < |r| && r[i] == x;
      assert s[offset + i] == x;
    }
  }
}
