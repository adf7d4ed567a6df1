/** How the store's SELECTs shape their results: a scan of a table in key order,
    ORDER BY (a stable insertion sort under a total preorder), and OFFSET/LIMIT. */
module Listing {

  function Min(a: int, b: int): (m: int) { if a <= b then a else b }

  function Max(a: int, b: int): (m: int) { if a <= b then b else a }

  /** No value occurs twice in s. */
  ghost predicate NoDup<T>(s: seq<T>) {
    forall i, j :: 0 <= i < j < |s| ==> s[i] != s[j]
  }

  /** A sequence without repetitions has as many elements as the set of its elements. */
  lemma {:induction false} DistinctCard<T>(s: seq<T>)
    requires NoDup(s)
    ensures |(set x | x in s)| == |s|
  {
    if s != [] {
      var t := s[..|s| - 1];
      var last := s[|s| - 1];
      assert NoDup(t);
      DistinctCard(t);
      assert (set x | x in s) == (set x | x in t) + {last};
      assert last !in (set x | x in t);
    }
  }

  /** `OFFSET skip LIMIT limit`: at most limit elements of s, starting after the first skip. */
  function Window<T>(s: seq<T>, skip: nat, limit: nat): (r: seq<T>)
    ensures |r| == Min(limit, Max(0, |s| - skip))
    ensures forall i :: 0 <= i < |r| ==> r[i] == s[skip + i]
  {
    if skip >= |s| then [] else s[skip..Min(|s|, skip + limit)]
  }

  /**** Code-point lexicographic order on strings (SQLite's BINARY collation of UTF-8 text) ****/

  /** a sorts at or before b. */
  predicate LexLe(a: string, b: string)
    decreases |a|
  {
    |a| == 0 || (|b| > 0 && (a[0] < b[0] || (a[0] == b[0] && LexLe(a[1..], b[1..]))))
  }

  lemma {:induction false} LexLeTotal(a: string, b: string)
    ensures LexLe(a, b) || LexLe(b, a)
    decreases |a|
  {
    if |a| > 0 && |b| > 0 && a[0] == b[0] {
      LexLeTotal(a[1..], b[1..]);
    }
  }

  lemma {:induction false} LexLeTransitive(a: string, b: string, c: string)
    requires LexLe(a, b) && LexLe(b, c)
    ensures LexLe(a, c)
    decreases |a|
  {
    if |a| > 0 && a[0] == b[0] && b[0] == c[0] {
      LexLeTransitive(a[1..], b[1..], c[1..]);
    }
  }

  lemma {:induction false} LexLeAntisymmetric(a: string, b: string)
    requires LexLe(a, b) && LexLe(b, a)
    ensures a == b
    decreases |a|
  {
    if |a| > 0 {
      LexLeAntisymmetric(a[1..], b[1..]);
      assert a == [a[0]] + a[1..] && b == [b[0]] + b[1..];
    }
  }

  /**** ORDER BY ****/

  /** le is total and transitive: the order of a sort key, ties allowed. */
  ghost predicate TotalPreorder<T(!new)>(le: (T, T) -> bool) {
    && (forall a, b :: le(a, b) || le(b, a))
    && (forall a, b, c :: le(a, b) && le(b, c) ==> le(a, c))
  }

  /** Every element of s is at or before every later one. */
  ghost predicate Sorted<T>(s: seq<T>, le: (T, T) -> bool) {
    forall i, j :: 0 <= i < j < |s| ==> le(s[i], s[j])
  }

  /** x placed before the first element of s that it is at or before. */
  function Insert<T>(x: T, s: seq<T>, le: (T, T) -> bool): (r: seq<T>)
    ensures multiset(r) == multiset(s) + multiset{x}
  {
    if s == [] || le(x, s[0]) then [x] + s
    else
      assert s == [s[0]] + s[1..];
      [s[0]] + Insert(x, s[1..], le)
  }

  /** Stable insertion sort: elements with equal keys keep their input order. */
  function Sort<T>(s: seq<T>, le: (T, T) -> bool): (r: seq<T>)
    ensures multiset(r) == multiset(s)
    ensures |r| == |s|
  {
    if s == [] then []
    else
      assert s == [s[0]] + s[1..];
      Insert(s[0], Sort(s[1..], le), le)
  }

  /** Sorting keeps exactly the elements it is given. */
  lemma SortSameElements<T>(s: seq<T>, le: (T, T) -> bool)
    ensures forall x :: x in Sort(s, le) <==> x in s
  {
    var r := Sort(s, le);
    forall x ensures x in r <==> x in s {
      assert x in r <==> x in multiset(r);
      assert x in s <==> x in multiset(s);
    }
  }

  /** Insert adds x and nothing else. */
  lemma InsertElements<T>(x: T, s: seq<T>, le: (T, T) -> bool)
    ensures forall y :: y in Insert(x, s, le) ==> y == x || y in s
  {
    forall y | y in Insert(x, s, le) ensures y == x || y in s {
      assert y in multiset(Insert(x, s, le));
    }
  }

  /** An element at or before every element of a sorted sequence can be put in front of it. */
  lemma ConsSorted<T>(a: T, t: seq<T>, le: (T, T) -> bool)
    requires Sorted(t, le)
    requires forall y :: y in t ==> le(a, y)
    ensures Sorted([a] + t, le)
  {
    var r := [a] + t;
    forall i, j | 0 <= i < j < |r| ensures le(r[i], r[j]) {
      assert r[j] == t[j - 1];
      if i == 0 {
        assert t[j - 1] in t;
      } else {
        assert r[i] == t[i - 1];
      }
    }
  }

  lemma {:induction false} InsertSorted<T(!new)>(x: T, s: seq<T>, le: (T, T) -> bool)
    requires TotalPreorder(le) && Sorted(s, le)
    ensures Sorted(Insert(x, s, le), le)
  {
    if s == [] {
    } else if le(x, s[0]) {
      forall y | y in s ensures le(x, y) {
        var k :| 0 <= k < |s| && s[k] == y;
        if k > 0 {
          assert le(s[0], s[k]);
        }
      }
      ConsSorted(x, s, le);
    } else {
      var tail := s[1..];
      assert Sorted(tail, le);
      InsertSorted(x, tail, le);
      InsertElements(x, tail, le);
      assert le(s[0], x);
      forall y | y in Insert(x, tail, le) ensures le(s[0], y) {
        if y != x {
          var k :| 0 <= k < |tail| && tail[k] == y;
          assert s[k + 1] == y;
        }
      }
      ConsSorted(s[0], Insert(x, tail, le), le);
    }
  }

  lemma {:induction false} SortSorted<T(!new)>(s: seq<T>, le: (T, T) -> bool)
    requires TotalPreorder(le)
    ensures Sorted(Sort(s, le), le)
  {
    if s != [] {
      SortSorted(s[1..], le);
      InsertSorted(s[0], Sort(s[1..], le), le);
    }
  }

  lemma {:induction false} InsertNoDup<T>(x: T, s: seq<T>, le: (T, T) -> bool)
    requires NoDup(s) && x !in s
    ensures NoDup(Insert(x, s, le))
  {
    if s != [] && !le(x, s[0]) {
      var tail := s[1..];
      assert NoDup(tail);
      InsertNoDup(x, tail, le);
      var t := Insert(x, tail, le);
      assert s[0] !in tail;
      assert s[0] !in multiset(t);
      var r := [s[0]] + t;
      forall i, j | 0 <= i < j < |r| ensures r[i] != r[j] {
        assert r[j] == t[j - 1];
        if i == 0 {
          assert t[j - 1] in t;
        } else {
          assert r[i] == t[i - 1];
        }
      }
    }
  }

  lemma {:induction false} SortNoDup<T>(s: seq<T>, le: (T, T) -> bool)
    requires NoDup(s)
    ensures NoDup(Sort(s, le))
  {
    if s != [] {
      var tail := s[1..];
      assert NoDup(tail);
      SortNoDup(tail, le);
      assert s[0] !in tail;
      assert s[0] !in multiset(Sort(tail, le));
      InsertNoDup(s[0], Sort(tail, le), le);
    }
  }

  /** The first element of a sorted sequence is at or before every element. */
  lemma SortedHead<T(!new)>(s: seq<T>, le: (T, T) -> bool)
    requires TotalPreorder(le) && Sorted(s, le) && s != []
    ensures forall x :: x in s ==> le(s[0], x)
  {
    forall x | x in s ensures le(s[0], x) {
      var i :| 0 <= i < |s| && s[i] == x;
      if i > 0 {
        assert le(s[0], s[i]);
      }
    }
  }

  /** Dropping the head of a sorted sequence without repeats leaves one, holding the other elements. */
  lemma SortedTail<T>(s: seq<T>, le: (T, T) -> bool)
    requires Sorted(s, le) && NoDup(s) && s != []
    ensures Sorted(s[1..], le) && NoDup(s[1..])
    ensures forall x :: x in s[1..] <==> x in s && x != s[0]
  {
    var t := s[1..];
    forall i, j | 0 <= i < j < |t| ensures le(t[i], t[j]) && t[i] != t[j] {
      assert t[i] == s[i + 1] && t[j] == s[j + 1];
    }
    forall x ensures x in t <==> x in s && x != s[0] {
      if x in s && x != s[0] {
        var i :| 0 <= i < |s| && s[i] == x;
        assert t[i - 1] == x;
      }
      if x in t {
        var i :| 0 <= i < |t| && t[i] == x;
        assert s[i + 1] == x;
      }
    }
  }

  /** Two sequences with the same elements are empty together. */
  lemma EmptyTogether<T>(a: seq<T>, b: seq<T>)
    requires forall x :: x in a <==> x in b
    ensures a == [] <==> b == []
  {
    if a != [] {
      assert a[0] in b;
    }
    if b != [] {
      assert b[0] in a;
    }
  }

  /** Two sorted orderings of the same elements start alike when the order has no ties. */
  lemma SameHeads<T(!new)>(a: seq<T>, b: seq<T>, le: (T, T) -> bool)
    requires TotalPreorder(le) && Sorted(a, le) && Sorted(b, le) && a != [] && b != []
    requires forall x :: x in a <==> x in b
    requires forall x, y :: x in a && y in a && le(x, y) && le(y, x) ==> x == y
    ensures a[0] == b[0]
  {
    SortedHead(a, le);
    SortedHead(b, le);
    assert a[0] in b && b[0] in a;
  }

  /** Two sorted orderings of the same distinct elements are equal when the order has no ties
      between distinct elements: then ORDER BY leaves the database no choice. */
  lemma {:induction false} SortedUnique<T(!new)>(a: seq<T>, b: seq<T>, le: (T, T) -> bool)
    requires TotalPreorder(le)
    requires Sorted(a, le) && Sorted(b, le) && NoDup(a) && NoDup(b)
    requires forall x :: x in a <==> x in b
    requires forall x, y :: x in a && y in a && le(x, y) && le(y, x) ==> x == y
    ensures a == b
    decreases |a|
  {
    EmptyTogether(a, b);
    if a != [] {
      SameHeads(a, b, le);
      var ta, tb := a[1..], b[1..];
      SortedTail(a, le);
      SortedTail(b, le);
      assert forall x :: x in ta <==> x in tb;
      forall x, y | x in ta && y in ta && le(x, y) && le(y, x) ensures x == y {
        assert x in a && y in a;
      }
      SortedUnique(ta, tb, le);
      assert a == [a[0]] + ta && b == [b[0]] + tb;
    }
  }

  /**** Table scan ****/

  /** The keys k of m with 0 <= k < n whose row satisfies keep, ascending. */
  function KeysBelow<V>(m: map<int, V>, keep: V -> bool, n: nat): (r: seq<int>)
    ensures forall k :: k in r <==> 0 <= k < n && k in m && keep(m[k])
    ensures forall i, j :: 0 <= i < j < |r| ==> r[i] < r[j]
  {
    if n == 0 then []
    else
      var below := KeysBelow(m, keep, n - 1);
      assert forall i :: 0 <= i < |below| ==> below[i] in below;
      below + (if n - 1 in m && keep(m[n - 1]) then [n - 1] else [])
  }

  /** The rows of m whose key is below n and that satisfy keep (a WHERE clause), in key order. */
  function Scan<V>(m: map<int, V>, keep: V -> bool, n: nat): (r: seq<V>)
  {
    var ks := KeysBelow(m, keep, n);
    seq(|ks|, i requires 0 <= i < |ks| => m[ks[i]])
  }

  /** The keys of the rows of m that satisfy keep. */
  function KeysWhere<V>(m: map<int, V>, keep: V -> bool): (ks: set<int>) {
    set k | k in m && keep(m[k])
  }

  /** Every row satisfying keep is found, when every key of m is below n. */
  lemma ScanFinds<V>(m: map<int, V>, keep: V -> bool, n: nat)
    requires forall k :: k in m ==> 0 <= k < n
    ensures forall k :: k in m && keep(m[k]) ==> m[k] in Scan(m, keep, n)
  {
    var ks := KeysBelow(m, keep, n);
    var rows := Scan(m, keep, n);
    forall k | k in m && keep(m[k]) ensures m[k] in rows {
      assert k in ks;
      var i :| 0 <= i < |ks| && ks[i] == k;
      assert rows[i] == m[k];
    }
  }

  /** Only rows of m that satisfy keep are found; when every row carries its own key, the key a found
      row carries holds it. */
  lemma ScanKeeps<V>(m: map<int, V>, keep: V -> bool, n: nat, key: V -> int)
    requires forall k :: k in m ==> key(m[k]) == k
    ensures forall v :: v in Scan(m, keep, n) ==> key(v) in m && m[key(v)] == v && keep(v)
  {
    var ks := KeysBelow(m, keep, n);
    var rows := Scan(m, keep, n);
    forall v | v in rows ensures key(v) in m && m[key(v)] == v && keep(v) {
      var i :| 0 <= i < |rows| && rows[i] == v;
      assert ks[i] in ks;
    }
  }

  /** The scan returns one row per key satisfying keep, when every key of m is below n. */
  lemma ScanCount<V>(m: map<int, V>, keep: V -> bool, n: nat)
    requires forall k :: k in m ==> 0 <= k < n
    ensures |Scan(m, keep, n)| == |KeysWhere(m, keep)|
  {
    var ks := KeysBelow(m, keep, n);
    assert NoDup(ks);
    DistinctCard(ks);
    assert (set x | x in ks) == KeysWhere(m, keep);
  }

  /** The scan of a table whose rows carry their own key and whose keys are below n: exactly the rows
      satisfying keep, each once. */
  lemma ScanTable<V>(m: map<int, V>, keep: V -> bool, n: nat, key: V -> int)
    requires forall k :: k in m ==> 0 <= k < n && key(m[k]) == k
    ensures forall v :: v in Scan(m, keep, n) <==> key(v) in m && m[key(v)] == v && keep(v)
    ensures NoDup(Scan(m, keep, n))
    ensures |Scan(m, keep, n)| == |KeysWhere(m, keep)|
  {
    ScanFinds(m, keep, n);
    ScanKeeps(m, keep, n, key);
    ScanCount(m, keep, n);
    ScanDistinct(m, keep, n);
  }

  /** `SELECT ... WHERE keep ORDER BY le` over a table scanned in key order. */
  function Select<V>(m: map<int, V>, keep: V -> bool, n: nat, le: (V, V) -> bool): (o: seq<V>) {
    Sort(Scan(m, keep, n), le)
  }

  /** A select over a table whose rows carry their own key: exactly the rows satisfying keep, each
      once, sorted. */
  lemma SelectTable<V(!new)>(m: map<int, V>, keep: V -> bool, n: nat, key: V -> int, le: (V, V) -> bool)
    requires forall k :: k in m ==> 0 <= k < n && key(m[k]) == k
    requires TotalPreorder(le)
    ensures forall v :: v in Select(m, keep, n, le) <==> key(v) in m && m[key(v)] == v && keep(v)
    ensures NoDup(Select(m, keep, n, le))
    ensures |Select(m, keep, n, le)| == |KeysWhere(m, keep)|
    ensures Sorted(Select(m, keep, n, le), le)
  {
    var rows := Scan(m, keep, n);
    ScanTable(m, keep, n, key);
    SortSorted(rows, le);
    SortNoDup(rows, le);
    SortSameElements(rows, le);
  }

  /** No row is found twice when no two keys hold the same row. */
  lemma {:induction false} ScanDistinct<V>(m: map<int, V>, keep: V -> bool, n: nat)
    requires forall a, b :: a in m && b in m && m[a] == m[b] ==> a == b
    ensures NoDup(Scan(m, keep, n))
  {
    var ks := KeysBelow(m, keep, n);
    var rows := Scan(m, keep, n);
    forall i, j | 0 <= i < j < |rows| ensures rows[i] != rows[j] {
      assert ks[i] in ks && ks[j] in ks;
    }
  }
}
