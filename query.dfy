/** The building blocks of the storage queries both core components run:
    filtering rows by a condition (a JPQL/derived-query WHERE clause),
    counting them (a COUNT query), ordering them by a key, newest first
    (ORDER BY ... DESC), cutting one page out of the ordered rows
    (LIMIT/OFFSET), and listing the rows of a table kept as a map from
    id to record. */
module Query {

  /** The rows of `s` that satisfy `p`, in their order in `s`. */
  function Filter<T(!new)>(s: seq<T>, p: T -> bool): (r: seq<T>)
    ensures |r| <= |s|
    ensures forall x :: x in r <==> x in s && p(x)
  {
    if s == [] then []
    else (if p(s[0]) then [s[0]] else []) + Filter(s[1..], p)
  }

  /** The number of rows of `s` that satisfy `p`, as a COUNT query computes it. */
  function Count<T>(s: seq<T>, p: T -> bool): (n: nat)
    ensures n <= |s|
  {
    if s == [] then 0
    else (if p(s[0]) then 1 else 0) + Count(s[1..], p)
  }

  /** The list query and the count query over the same condition agree. */
  lemma {:induction false} FilterCount<T(!new)>(s: seq<T>, p: T -> bool)
    ensures |Filter(s, p)| == Count(s, p)
  {
    if s != [] {
      FilterCount(s[1..], p);
    }
  }

  /** `COUNT(...) > 0` holds exactly when some row satisfies the condition. */
  lemma {:induction false} CountPositiveIff<T>(s: seq<T>, p: T -> bool)
    ensures Count(s, p) > 0 <==> exists i :: 0 <= i < |s| && p(s[i])
  {
    if s != [] {
      CountPositiveIff(s[1..], p);
      if Count(s[1..], p) > 0 {
        var i :| 0 <= i < |s[1..]| && p(s[1..][i]);
        assert p(s[i + 1]);
      }
      if exists i :: 0 <= i < |s| && p(s[i]) {
        var i :| 0 <= i < |s| && p(s[i]);
        if i > 0 {
          assert s[1..][i - 1] == s[i];
        }
      }
    }
  }

  /** Two conditions that never hold together and each imply a third select
      no more rows together than the third does. */
  lemma {:induction false} CountDisjointBound<T>(s: seq<T>, p: T -> bool, q: T -> bool, u: T -> bool)
    requires forall x :: p(x) ==> u(x)
    requires forall x :: q(x) ==> u(x)
    requires forall x :: !(p(x) && q(x))
    ensures Count(s, p) + Count(s, q) <= Count(s, u)
  {
    if s != [] {
      CountDisjointBound(s[1..], p, q, u);
    }
  }

  /** `s` is ordered by `key`, largest first (ORDER BY key DESC). */
  predicate SortedDesc<T>(s: seq<T>, key: T -> int)
  {
    forall i, j :: 0 <= i < j < |s| ==> key(s[i]) >= key(s[j])
  }

  /** Inserts `x` into the ordered `s`, ahead of the rows with an equal key. */
  function Insert<T>(x: T, s: seq<T>, key: T -> int): (r: seq<T>)
    requires SortedDesc(s, key)
    ensures multiset(r) == multiset(s) + multiset{x}
    ensures SortedDesc(r, key)
  {
    if s == [] || key(x) >= key(s[0]) then [x] + s
    else
      var rest := Insert(x, s[1..], key);
      assert s == [s[0]] + s[1..];
      HeadBoundsRest(s, x, rest, key);
      [s[0]] + rest
  }

  /** The head of ordered rows is no smaller than any of the other rows or
      a smaller newcomer, in whatever order they are kept. */
  lemma HeadBoundsRest<T>(s: seq<T>, x: T, rest: seq<T>, key: T -> int)
    requires s != [] && SortedDesc(s, key) && key(x) < key(s[0])
    requires multiset(rest) == multiset(s[1..]) + multiset{x}
    ensures forall y :: y in rest ==> key(s[0]) >= key(y)
  {
    forall y | y in rest ensures key(s[0]) >= key(y) {
      assert y in multiset(rest);
      if y != x {
        assert y in multiset(s[1..]);
        var j :| 0 <= j < |s[1..]| && s[1..][j] == y;
        assert s[j + 1] == y;
      }
    }
  }

  /** The rows of `s` ordered by `key`, largest first. */
  function SortDesc<T>(s: seq<T>, key: T -> int): (r: seq<T>)
    ensures multiset(r) == multiset(s)
    ensures SortedDesc(r, key)
  {
    if s == [] then []
    else
      assert s == [s[0]] + s[1..];
      Insert(s[0], SortDesc(s[1..], key), key)
  }

  /** Ordering rows keeps exactly the rows there were. */
  lemma SortDescMembers<T(!new)>(s: seq<T>, key: T -> int)
    ensures |SortDesc(s, key)| == |s|
    ensures forall x :: x in SortDesc(s, key) <==> x in s
  {
    var r := SortDesc(s, key);
    assert |multiset(r)| == |multiset(s)|;
    forall x ensures x in r <==> x in s {
      assert x in r <==> x in multiset(r);
      assert x in s <==> x in multiset(s);
    }
  }

  /** The rows of `s` that satisfy `p`, newest (largest `key`) first: a
      WHERE clause followed by ORDER BY key DESC. */
  function SelectOrdered<T(!new)>(s: seq<T>, p: T -> bool, key: T -> int): (r: seq<T>)
    ensures forall x :: x in r <==> x in s && p(x)
    ensures |r| == Count(s, p)
    ensures SortedDesc(r, key)
  {
    FilterCount(s, p);
    SortDescMembers(Filter(s, p), key);
    SortDesc(Filter(s, p), key)
  }

  function Min(a: nat, b: nat): nat
  {
    if a <= b then a else b
  }

  /** The rows at positions [offset, offset + size) of `s`; nothing once
      `offset` is past the last row. */
  function Slice<T(!new)>(s: seq<T>, offset: nat, size: nat): (r: seq<T>)
    ensures |r| == if offset >= |s| then 0 else Min(size, |s| - offset)
    ensures forall i :: 0 <= i < |r| ==> r[i] == s[offset + i]
    ensures forall x :: x in r ==> x in s
  {
    if offset >= |s| then []
    else s[offset .. offset + Min(size, |s| - offset)]
  }

  /** A page cut out of ordered rows is itself ordered. */
  lemma SliceSorted<T(!new)>(s: seq<T>, offset: nat, size: nat, key: T -> int)
    requires SortedDesc(s, key)
    ensures SortedDesc(Slice(s, offset, size), key)
  {
    var r := Slice(s, offset, size);
    forall i, j | 0 <= i < j < |r| ensures key(r[i]) >= key(r[j]) {
      assert r[i] == s[offset + i] && r[j] == s[offset + j];
    }
  }

  /** A set of ids holds a smallest one. */
  lemma {:induction false} MinExists(ks: set<nat>)
    requires ks != {}
    ensures exists m :: m in ks && forall k :: k in ks ==> m <= k
  {
    var x :| x in ks;
    if ks - {x} != {} {
      MinExists(ks - {x});
      var m :| m in ks - {x} && forall k :: k in ks - {x} ==> m <= k;
      var lo := if x < m then x else m;
      forall k | k in ks ensures lo <= k {
        if k != x {
          assert k in ks - {x};
        }
      }
    } else {
      assert ks == {x};
    }
  }

  /** The smallest id of a non-empty set. */
  function MinOf(ks: set<nat>): (m: nat)
    requires ks != {}
    ensures m in ks && forall k :: k in ks ==> m <= k
  {
    MinExists(ks);
    var m :| m in ks && forall k :: k in ks ==> m <= k; m
  }

  /** The ids of `ks` in ascending order, each once. */
  function SortedKeys(ks: set<nat>): (r: seq<nat>)
    ensures |r| == |ks|
    ensures forall k :: k in r <==> k in ks
    ensures forall i, j :: 0 <= i < j < |r| ==> r[i] < r[j]
    decreases |ks|
  {
    if ks == {} then []
    else
      var m := MinOf(ks);
      [m] + SortedKeys(ks - {m})
  }

  /** An id that no row of the table uses yet. */
  function FreshKey(ks: set<nat>): (k: nat)
    ensures k !in ks
  {
    var r := SortedKeys(ks);
    if r == [] then 0
    else
      forall k | k in ks ensures k <= r[|r| - 1] {
        var i :| 0 <= i < |r| && r[i] == k;
        assert i == |r| - 1 || r[i] < r[|r| - 1];
      }
      r[|r| - 1] + 1
  }

  /** The records stored under the ids `ks`, in the order of `ks`. */
  function Lookup<V>(ks: seq<nat>, m: map<nat, V>): (r: seq<V>)
    requires forall k :: k in ks ==> k in m
    ensures |r| == |ks|
    ensures forall i :: 0 <= i < |ks| ==> r[i] == m[ks[i]]
  {
    if ks == [] then [] else [m[ks[0]]] + Lookup(ks[1..], m)
  }

  /** The ids of `ks` whose record satisfies `p`. */
  function KeysWhere<V>(ks: seq<nat>, m: map<nat, V>, p: V -> bool): set<nat>
    requires forall k :: k in ks ==> k in m
  {
    set k | k in ks && p(m[k])
  }

  /** Counting the records under distinct ids counts the ids whose record
      satisfies the condition. */
  lemma {:induction false} CountLookup<V>(ks: seq<nat>, m: map<nat, V>, p: V -> bool)
    requires forall k :: k in ks ==> k in m
    requires forall i, j :: 0 <= i < j < |ks| ==> ks[i] != ks[j]
    ensures Count(Lookup(ks, m), p) == |KeysWhere(ks, m, p)|
  {
    if ks != [] {
      var t := ks[1..];
      forall i, j | 0 <= i < j < |t| ensures t[i] != t[j] {
        assert t[i] == ks[i + 1] && t[j] == ks[j + 1];
      }
      CountLookup(t, m, p);
      var all := KeysWhere(ks, m, p);
      var rest := KeysWhere(t, m, p);
      assert ks[0] !in t;
      if p(m[ks[0]]) {
        assert all == rest + {ks[0]};
      } else {
        assert all == rest;
      }
      assert Lookup(ks, m)[1..] == Lookup(t, m);
    }
  }

  /** The rows of a table kept as a map from id to record, each once, in
      ascending id order (the order the table is scanned in). */
  function Rows<V(==,!new)>(m: map<nat, V>): (r: seq<V>)
    ensures |r| == |m|
    ensures forall v :: v in r <==> v in m.Values
  {
    var ks := SortedKeys(m.Keys);
    assert |m.Keys| == |m|;
    var r := Lookup(ks, m);
    RowsMembers(ks, m, r);
    r
  }

  lemma RowsMembers<V>(ks: seq<nat>, m: map<nat, V>, r: seq<V>)
    requires forall k :: k in ks <==> k in m
    requires |r| == |ks| && forall i :: 0 <= i < |ks| ==> r[i] == m[ks[i]]
    ensures forall v :: v in r <==> v in m.Values
  {
    forall v | v in m.Values ensures v in r {
      var k :| k in m && m[k] == v;
      var i :| 0 <= i < |ks| && ks[i] == k;
      assert r[i] == v;
    }
    forall v | v in r ensures v in m.Values {
      var i :| 0 <= i < |r| && r[i] == v;
      assert ks[i] in m;
    }
  }

  /** The ids whose record satisfies `p`. */
  function IdsWhere<V>(m: map<nat, V>, p: V -> bool): (ids: set<nat>)
    ensures forall k :: k in ids <==> k in m && p(m[k])
  {
    set k | k in m && p(m[k])
  }

  /** A COUNT query over a table kept as a map: the number of ids whose
      record satisfies the condition. */
  function CountWhere<V(==,!new)>(m: map<nat, V>, p: V -> bool): (n: nat)
    ensures n == |IdsWhere(m, p)|
    ensures n == Count(Rows(m), p)
  {
    CountRowsIds(m, p);
    Count(Rows(m), p)
  }

  /** Counting the listed rows of a map counts the ids whose record satisfies the condition. */
  lemma CountRowsIds<V(!new)>(m: map<nat, V>, p: V -> bool)
    ensures Count(Rows(m), p) == |IdsWhere(m, p)|
  {
    var ks := SortedKeys(m.Keys);
    assert Rows(m) == Lookup(ks, m);
    CountLookup(ks, m, p);
    KeysWhereAll(ks, m, p);
  }

  lemma KeysWhereAll<V>(ks: seq<nat>, m: map<nat, V>, p: V -> bool)
    requires forall k :: k in ks <==> k in m
    ensures KeysWhere(ks, m, p) == IdsWhere(m, p)
  {
  }
}
