/** Helpers for tables stored as maps from primary key to row: the keys of the rows that satisfy
    a filter, in ascending key order (the order in which the ORM returns related rows), and the
    counting facts that relate such key lists to sets. */
module Tables {

  predicate Ascending(ks: seq<nat>) {
    forall i, j :: 0 <= i < j < |ks| ==> ks[i] < ks[j]
  }

  /** The keys below `n` of the rows of `m` that satisfy `p`, ascending. */
  function Ids<V>(m: map<nat, V>, n: nat, p: V -> bool): (ks: seq<nat>)
    ensures Ascending(ks)
    ensures forall i :: 0 <= i < |ks| ==> ks[i] < n && ks[i] in m && p(m[ks[i]])
    ensures forall k :: k < n && k in m && p(m[k]) ==> k in ks
  {
    if n == 0 then []
    else
      var front := Ids(m, n - 1, p);
      if n - 1 in m && p(m[n - 1]) then front + [n - 1] else front
  }

  /** When the rows that pass `p` are exactly the keys from `a` up to `b`, those keys are what
      `Ids` lists. */
  lemma {:induction false} IdsRange<V>(m: map<nat, V>, n: nat, p: V -> bool, a: nat, b: nat)
    requires a <= b <= n
    requires forall k :: k < n ==> (k in m && p(m[k]) <==> a <= k < b)
    ensures |Ids(m, n, p)| == b - a
    ensures forall i :: 0 <= i < b - a ==> Ids(m, n, p)[i] == a + i
  {
    if n > 0 {
      var front := Ids(m, n - 1, p);
      var last := n - 1 in m && p(m[n - 1]);
      assert last <==> a <= n - 1 < b;
      if !last {
        var b' := if b < n then b else n - 1;
        IdsRange(m, n - 1, p, if a < b then a else b', b');
        assert Ids(m, n, p) == front;
      } else {
        IdsRange(m, n - 1, p, a, b - 1);
        AppendNext(front, a, b - 1);
      }
    }
  }

  lemma AppendNext(ks: seq<nat>, a: nat, b: nat)
    requires a <= b && |ks| == b - a && forall i :: 0 <= i < b - a ==> ks[i] == a + i
    ensures |ks + [b]| == b + 1 - a && forall i :: 0 <= i < b + 1 - a ==> (ks + [b])[i] == a + i
  {
  }

  /** The rows of `m` listed by `ks`. */
  function Rows<V>(m: map<nat, V>, ks: seq<nat>): (rs: seq<V>)
    requires forall i :: 0 <= i < |ks| ==> ks[i] in m
    ensures |rs| == |ks| && forall i :: 0 <= i < |ks| ==> rs[i] == m[ks[i]]
  {
    seq(|ks|, i requires 0 <= i < |ks| => m[ks[i]])
  }

  /** The rows a key list picks are fixed by what each key holds. */
  lemma RowsAt<V>(m: map<nat, V>, ks: seq<nat>, rs: seq<V>)
    requires |ks| == |rs| && forall i :: 0 <= i < |ks| ==> ks[i] in m && m[ks[i]] == rs[i]
    ensures Rows(m, ks) == rs
  {
  }

  /** When the rows that pass `p` are exactly those under the keys from `a` on, holding `rs` in
      order, `Rows` of `Ids` lists `rs`. */
  lemma RowsRange<V>(m: map<nat, V>, n: nat, p: V -> bool, a: nat, rs: seq<V>)
    requires a + |rs| <= n
    requires forall k :: k < n ==> (k in m && p(m[k]) <==> a <= k < a + |rs|)
    requires forall k :: a <= k < a + |rs| ==> k in m && m[k] == rs[k - a]
    ensures Rows(m, Ids(m, n, p)) == rs
  {
    IdsRange(m, n, p, a, a + |rs|);
    var ks := Ids(m, n, p);
    forall i | 0 <= i < |ks| ensures ks[i] in m && m[ks[i]] == rs[i] {
      assert ks[i] == a + i;
    }
    RowsAt(m, ks, rs);
  }

  /** `.offset(skip).limit(limit)` on a query result (`xs[skip:skip + limit]`). */
  function Page<T>(xs: seq<T>, skip: nat, limit: nat): (r: seq<T>)
    ensures |r| <= limit
    ensures skip >= |xs| ==> r == []
    ensures skip < |xs| ==> |r| == (if |xs| - skip < limit then |xs| - skip else limit)
    ensures forall i :: 0 <= i < |r| ==> skip + i < |xs| && r[i] == xs[skip + i]
  {
    if skip >= |xs| then []
    else if |xs| - skip < limit then xs[skip..]
    else xs[skip..skip + limit]
  }

  /** A page of an ascending key list is ascending. */
  lemma PageAscending(xs: seq<nat>, skip: nat, limit: nat)
    requires Ascending(xs)
    ensures Ascending(Page(xs, skip, limit))
  {
    var r := Page(xs, skip, limit);
    forall i, j | 0 <= i < j < |r|
      ensures r[i] < r[j]
    {
      assert r[i] == xs[skip + i] && r[j] == xs[skip + j];
    }
  }

  predicate Distinct<T(==)>(xs: seq<T>) {
    forall i, j :: 0 <= i < j < |xs| ==> xs[i] != xs[j]
  }

  lemma {:induction false} DistinctCard<T>(xs: seq<T>)
    requires Distinct(xs)
    ensures |set x | x in xs| == |xs|
  {
    if xs != [] {
      var last := xs[|xs| - 1];
      var front := xs[..|xs| - 1];
      DistinctCard(front);
      assert (set x | x in xs) == (set x | x in front) + {last};
      assert last !in front;
    }
  }

  /** A list without repetitions drawn from a set is no longer than the set. */
  lemma DistinctWithin<T>(xs: seq<T>, s: set<T>)
    requires Distinct(xs)
    requires forall i :: 0 <= i < |xs| ==> xs[i] in s
    ensures |xs| <= |s|
  {
    DistinctCard(xs);
    assert (set x | x in xs) <= s;
    SubsetCard((set x | x in xs), s);
  }

  lemma {:induction false} SubsetCard<T>(a: set<T>, b: set<T>)
    requires a <= b
    ensures |a| <= |b|
  {
    if a != {} {
      var x :| x in a;
      SubsetCard(a - {x}, b - {x});
    }
  }
}
