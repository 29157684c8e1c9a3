/** What the repositories' SELECT statements compute over a table held as a map from
    id to row: the matching rows (WHERE), in the order of a text key (ORDER BY), and the
    single-row lookups (`.optional()`, which fails when more than one row matches). */
module Listing {
  import opened Wrappers
  import opened Errors

  // ---------------------------------------------------------------------------
  // Case-insensitive text order, as String.compareToIgnoreCase for ASCII letters.

  /** ASCII upper-case letters folded to lower case. */
  function Fold(c: char): char {
    if 'A' <= c <= 'Z' then (c as int + 32) as char else c
  }

  /** a sorts before or together with b, comparing folded characters, shorter prefix first. */
  predicate IgnoreCaseLeq(a: string, b: string) {
    if a == [] then true
    else if b == [] then false
    else if Fold(a[0]) != Fold(b[0]) then Fold(a[0]) < Fold(b[0])
    else IgnoreCaseLeq(a[1..], b[1..])
  }

  lemma {:induction false} IgnoreCaseTotal(a: string, b: string)
    ensures IgnoreCaseLeq(a, b) || IgnoreCaseLeq(b, a)
  {
    if a != [] && b != [] && Fold(a[0]) == Fold(b[0]) {
      IgnoreCaseTotal(a[1..], b[1..]);
    }
  }

  lemma {:induction false} IgnoreCaseTransitive(a: string, b: string, c: string)
    requires IgnoreCaseLeq(a, b) && IgnoreCaseLeq(b, c)
    ensures IgnoreCaseLeq(a, c)
  {
    if a != [] && b != [] && c != [] && Fold(a[0]) == Fold(b[0]) == Fold(c[0]) {
      IgnoreCaseTransitive(a[1..], b[1..], c[1..]);
    }
  }

  /** Titles that differ only in letter case sort together. */
  lemma {:induction false} IgnoreCaseIgnoresCase(a: string, b: string)
    requires |a| == |b| && forall i :: 0 <= i < |a| ==> Fold(a[i]) == Fold(b[i])
    ensures IgnoreCaseLeq(a, b) && IgnoreCaseLeq(b, a)
  {
    if a != [] {
      IgnoreCaseIgnoresCase(a[1..], b[1..]);
    }
  }

  // ---------------------------------------------------------------------------
  // Sorting rows by a text key.

  ghost predicate SortedBy<T>(s: seq<T>, key: T -> string) {
    forall i, j :: 0 <= i < j < |s| ==> IgnoreCaseLeq(key(s[i]), key(s[j]))
  }

  /** A sorted sequence stays sorted behind an element that sorts before all of it. */
  lemma SortedCons<T>(x: T, s: seq<T>, key: T -> string)
    requires SortedBy(s, key)
    requires forall j :: 0 <= j < |s| ==> IgnoreCaseLeq(key(x), key(s[j]))
    ensures SortedBy([x] + s, key)
  {
    var r := [x] + s;
    forall i, j | 0 <= i < j < |r| ensures IgnoreCaseLeq(key(r[i]), key(r[j])) {
      if i == 0 {
        assert r[j] == s[j - 1];
      } else {
        assert r[i] == s[i - 1] && r[j] == s[j - 1];
      }
    }
  }

  /** Every element of a sorted sequence follows its head. */
  lemma HeadFirst<T>(x: T, s: seq<T>, key: T -> string)
    requires SortedBy(s, key) && s != [] && IgnoreCaseLeq(key(x), key(s[0]))
    ensures forall j :: 0 <= j < |s| ==> IgnoreCaseLeq(key(x), key(s[j]))
  {
    forall j | 0 < j < |s| ensures IgnoreCaseLeq(key(x), key(s[j])) {
      IgnoreCaseTransitive(key(x), key(s[0]), key(s[j]));
    }
  }

  lemma TailFollowsHead<T>(s: seq<T>, key: T -> string)
    requires SortedBy(s, key) && s != []
    ensures forall j :: 0 <= j < |s[1..]| ==> IgnoreCaseLeq(key(s[0]), key(s[1..][j]))
  {
    forall j | 0 <= j < |s[1..]| ensures IgnoreCaseLeq(key(s[0]), key(s[1..][j])) {
      assert s[1..][j] == s[j + 1];
    }
  }

  /** Every element of a permutation of s with x added follows what precedes all of them. */
  lemma BoundCarries<T>(y: T, x: T, s: seq<T>, rest: seq<T>, key: T -> string)
    requires multiset(rest) == multiset(s) + multiset{x}
    requires IgnoreCaseLeq(key(y), key(x))
    requires forall j :: 0 <= j < |s| ==> IgnoreCaseLeq(key(y), key(s[j]))
    ensures forall j :: 0 <= j < |rest| ==> IgnoreCaseLeq(key(y), key(rest[j]))
  {
    forall j | 0 <= j < |rest| ensures IgnoreCaseLeq(key(y), key(rest[j])) {
      assert rest[j] in multiset(rest);
      if rest[j] != x {
        assert rest[j] in multiset(s);
        var k :| 0 <= k < |s| && s[k] == rest[j];
      }
    }
  }

  /** Inserts x into a sorted sequence before the first element it does not follow. */
  function InsertBy<T(==)>(x: T, s: seq<T>, key: T -> string): (r: seq<T>)
    requires SortedBy(s, key)
    ensures SortedBy(r, key)
    ensures multiset(r) == multiset(s) + multiset{x}
  {
    if s == [] then [x]
    else if IgnoreCaseLeq(key(x), key(s[0])) then
      HeadFirst(x, s, key);
      SortedCons(x, s, key);
      [x] + s
    else
      IgnoreCaseTotal(key(x), key(s[0]));
      assert s == [s[0]] + s[1..];
      var rest := InsertBy(x, s[1..], key);
      TailFollowsHead(s, key);
      BoundCarries(s[0], x, s[1..], rest, key);
      SortedCons(s[0], rest, key);
      [s[0]] + rest
  }

  /** Insertion sort: a permutation of xs, ordered by key. */
  function SortBy<T(==)>(xs: seq<T>, key: T -> string): (r: seq<T>)
    ensures SortedBy(r, key)
    ensures multiset(r) == multiset(xs) && |r| == |xs|
  {
    if xs == [] then []
    else
      assert xs == [xs[0]] + xs[1..];
      InsertBy(xs[0], SortBy(xs[1..], key), key)
  }

  // ---------------------------------------------------------------------------
  // Keys of a table.

  /** m is the least element of s. */
  predicate IsLeast(m: int, s: set<int>) {
    m in s && forall y :: y in s ==> m <= y
  }

  /** Some element of a non-empty set. */
  lemma Pick(s: set<int>) returns (x: int)
    requires s != {}
    ensures x in s
  {
    if forall y :: y !in s {
      assert false;
    }
    x :| x in s;
  }

  lemma {:induction false} MinimumExists(s: set<int>)
    requires s != {}
    ensures exists m :: IsLeast(m, s)
    decreases |s|
  {
    var x := Pick(s);
    var t := s - {x};
    if t == {} {
      assert IsLeast(x, s) by {
        forall y | y in s ensures x <= y {
          assert y !in t;
        }
      }
    } else {
      MinimumExists(t);
      var m :| IsLeast(m, t);
      var least := if x < m then x else m;
      assert IsLeast(least, s) by {
        forall y | y in s ensures least <= y {
          if y != x { assert y in t; }
        }
      }
    }
  }

  /** The keys of s in ascending order, each once. */
  function Ascending(s: set<int>): (r: seq<int>)
    ensures |r| == |s|
    ensures forall k :: k in s <==> k in r
    ensures forall i :: 0 <= i < |r| ==> r[i] in s
    ensures forall i, j :: 0 <= i < j < |r| ==> r[i] < r[j]
  {
    if s == {} then []
    else
      MinimumExists(s);
      var m :| IsLeast(m, s);
      var rest := Ascending(s - {m});
      AscendingCons(m, s, rest);
      [m] + rest
  }

  lemma AscendingCons(m: int, s: set<int>, rest: seq<int>)
    requires IsLeast(m, s)
    requires forall k :: k in s - {m} <==> k in rest
    requires forall i, j :: 0 <= i < j < |rest| ==> rest[i] < rest[j]
    ensures forall k :: k in s <==> k in [m] + rest
    ensures forall i, j :: 0 <= i < j < |[m] + rest| ==> ([m] + rest)[i] < ([m] + rest)[j]
  {
    var r := [m] + rest;
    forall k ensures k in s <==> k in r {
      assert k in r <==> k == m || k in rest;
    }
    forall i, j | 0 <= i < j < |r| ensures r[i] < r[j] {
      assert r[j] == rest[j - 1] && r[j] in s - {m};
      if i > 0 { assert r[i] == rest[i - 1]; }
    }
  }

  /** The ids whose rows satisfy keep, ascending. */
  function Matching<T>(m: map<int, T>, keep: T -> bool): (r: seq<int>)
    ensures |r| == |set k | k in m && keep(m[k])|
    ensures forall k :: k in r <==> k in m && keep(m[k])
    ensures forall i :: 0 <= i < |r| ==> r[i] in m && keep(m[r[i]])
    ensures forall i, j :: 0 <= i < j < |r| ==> r[i] < r[j]
  {
    Ascending(set k | k in m && keep(m[k]))
  }

  /** The rows at the given ids. */
  function RowsAt<T>(m: map<int, T>, ids: seq<int>): (r: seq<T>)
    requires forall i :: 0 <= i < |ids| ==> ids[i] in m
    ensures |r| == |ids| && forall i :: 0 <= i < |ids| ==> r[i] == m[ids[i]]
  {
    if ids == [] then [] else [m[ids[0]]] + RowsAt(m, ids[1..])
  }

  /** SELECT … WHERE keep ORDER BY key: every matching row, one per matching id, ordered. */
  function Query<T(==)>(m: map<int, T>, keep: T -> bool, key: T -> string): (r: seq<T>)
    ensures SortedBy(r, key)
    ensures multiset(r) == multiset(RowsAt(m, Matching(m, keep)))
    ensures |r| == |set k | k in m && keep(m[k])|
    ensures forall k :: k in m && keep(m[k]) ==> m[k] in r
    ensures forall i :: 0 <= i < |r| ==> r[i] in m.Values && keep(r[i])
  {
    var ids := Matching(m, keep);
    var rows := RowsAt(m, ids);
    var r := SortBy(rows, key);
    QueryRows(m, keep, ids, rows, r);
    r
  }

  lemma QueryRows<T>(m: map<int, T>, keep: T -> bool, ids: seq<int>, rows: seq<T>, r: seq<T>)
    requires forall k :: k in m && keep(m[k]) ==> k in ids
    requires forall i :: 0 <= i < |ids| ==> ids[i] in m && keep(m[ids[i]])
    requires |rows| == |ids| && forall i :: 0 <= i < |ids| ==> rows[i] == m[ids[i]]
    requires multiset(r) == multiset(rows)
    ensures forall k :: k in m && keep(m[k]) ==> m[k] in r
    ensures forall i :: 0 <= i < |r| ==> r[i] in m.Values && keep(r[i])
  {
    forall k | k in m && keep(m[k]) ensures m[k] in r {
      var i :| 0 <= i < |ids| && ids[i] == k;
      assert rows[i] == m[k];
      assert m[k] in multiset(rows);
    }
    forall i | 0 <= i < |r| ensures r[i] in m.Values && keep(r[i]) {
      assert r[i] in multiset(rows);
      var j :| 0 <= j < |rows| && rows[j] == r[i];
      assert rows[j] == m[ids[j]] && keep(m[ids[j]]);
    }
  }

  /** `.optional()` over the rows satisfying keep: none, the only one, or a failure when
      several rows match. */
  function SingleMatch<T>(m: map<int, T>, keep: T -> bool): (r: Result<Option<T>, Error>)
    ensures r == Success(None) <==> forall k :: k in m ==> !keep(m[k])
    ensures r.Failure? <==> exists k1, k2 :: k1 in m && k2 in m && k1 != k2 && keep(m[k1]) && keep(m[k2])
    ensures r.Failure? ==> r.error == IncorrectResultSize
    ensures r.Success? && r.value.Some? ==>
      exists k :: k in m && m[k] == r.value.value && keep(m[k]) && forall k' :: k' in m && keep(m[k']) ==> k' == k
  {
    var ids := Matching(m, keep);
    if |ids| == 0 then
      Success(None)
    else if |ids| == 1 then
      assert forall k :: k in m && keep(m[k]) ==> k == ids[0] by {
        forall k | k in m && keep(m[k]) ensures k == ids[0] {
          assert k in ids;
        }
      }
      Success(Some(m[ids[0]]))
    else
      assert ids[0] in ids && ids[1] in ids && ids[0] < ids[1];
      Failure(IncorrectResultSize)
  }

  /** A lookup by primary key: when keep holds of the row at `key` and of no other row,
      `.optional()` finds that row, or none when the key is absent; it never fails. */
  lemma SingleMatchKey<T>(m: map<int, T>, keep: T -> bool, key: int)
    ensures (forall k :: k in m ==> (keep(m[k]) <==> k == key)) ==>
      SingleMatch(m, keep) == Success(if key in m then Some(m[key]) else None)
  {
    if key in m && forall k :: k in m ==> (keep(m[k]) <==> k == key) {
      assert keep(m[key]);
    }
  }

  /** When at most one row can satisfy keep, `.optional()` never fails. */
  lemma SingleMatchUnique<T>(m: map<int, T>, keep: T -> bool)
    requires forall k1, k2 :: k1 in m && k2 in m && keep(m[k1]) && keep(m[k2]) ==> k1 == k2
    ensures SingleMatch(m, keep).Success?
  {
  }

  /** A filter selects exactly the keys of `keys`, so a query by it returns that many rows. */
  lemma SelectedKeys<T>(m: map<int, T>, keep: T -> bool, keys: set<int>)
    requires forall k :: k in keys <==> k in m && keep(m[k])
    ensures (set k | k in m && keep(m[k])) == keys
  {
    var s := set k | k in m && keep(m[k]);
    assert forall k :: k in s <==> k in keys;
  }

  /** A filter every row passes selects every key. */
  lemma KeepAll<T>(m: map<int, T>, keep: T -> bool)
    requires forall k :: k in m ==> keep(m[k])
    ensures (set k | k in m && keep(m[k])) == m.Keys
  {
    var s := set k | k in m && keep(m[k]);
    assert forall k :: k in s <==> k in m.Keys;
  }
}
