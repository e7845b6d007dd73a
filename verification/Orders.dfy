/** Reading a sequence through a vector of indices, and joining rows. */
module Orders {

  /** The numbers from lo up to hi, in order. */
  function Ints(lo: nat, hi: nat): (r: seq<nat>)
    requires lo <= hi
    ensures |r| == hi - lo && forall k | 0 <= k < hi - lo :: r[k] == lo + k
  {
    seq(hi - lo, k requires 0 <= k < hi - lo => lo + k)
  }

  ghost predicate Distinct<T>(s: seq<T>) {
    forall i, j | 0 <= i < j < |s| :: s[i] != s[j]
  }

  ghost predicate Indexes(p: seq<nat>, n: nat) {
    forall k | 0 <= k < |p| :: p[k] < n
  }

  /** The elements in the order the indices give them. */
  ghost function Permute<T>(s: seq<T>, p: seq<nat>): (r: seq<T>)
    requires Indexes(p, |s|)
    ensures |r| == |p| && forall k | 0 <= k < |p| :: r[k] == s[p[k]]
  {
    seq(|p|, k requires 0 <= k < |p| => s[p[k]])
  }

  lemma PermuteIs<T>(s: seq<T>, p: seq<nat>, r: seq<T>)
    requires Indexes(p, |s|) && |r| == |p| && forall k | 0 <= k < |p| :: r[k] == s[p[k]]
    ensures r == Permute(s, p)
  {
  }

  lemma PermuteIdentity<T>(s: seq<T>)
    ensures Permute(s, Ints(0, |s|)) == s
  {
  }

  /** Drops the element at k. */
  function Drop<T>(s: seq<T>, k: nat): (r: seq<T>)
    requires k < |s|
    ensures |r| == |s| - 1
  {
    s[..k] + s[k + 1..]
  }

  lemma DropIs<T>(s: seq<T>, k: nat)
    requires k < |s|
    ensures Drop(s, k) == s[..k] + s[k + 1..]
  {
  }

  lemma DropAt<T>(s: seq<T>, k: nat)
    requires k < |s|
    ensures forall j | 0 <= j < |s| - 1 :: Drop(s, k)[j] == s[if j < k then j else j + 1]
  {
  }

  lemma DropDistinct<T>(s: seq<T>, k: nat)
    requires Distinct(s) && k < |s|
    ensures Distinct(Drop(s, k))
  {
    hide Drop;
    DropAt(s, k);
  }

  lemma DropMultiset<T>(s: seq<T>, k: nat)
    requires k < |s|
    ensures multiset(s) == multiset(Drop(s, k)) + multiset{s[k]}
  {
    assert s == s[..k] + [s[k]] + s[k + 1..];
  }

  /** Two orders of the same indices read the same elements. */
  lemma {:induction false} PermuteSame<T>(s: seq<T>, p: seq<nat>, q: seq<nat>)
    requires Indexes(p, |s|) && Indexes(q, |s|) && multiset(p) == multiset(q)
    ensures multiset(Permute(s, p)) == multiset(Permute(s, q))
    decreases |p|
  {
    if p == [] {
      assert |multiset(q)| == |q|;
    } else {
      var n := |p| - 1;
      var k := Counterpart(p, q);
      PermuteSame(s, p[..n], Drop(q, k));
      DropMultiset(Permute(s, q), k);
      assert Permute(s, Drop(q, k)) == Drop(Permute(s, q), k);
      assert Permute(s, p) == Permute(s, p[..n]) + [s[p[n]]];
    }
  }

  /** Where the last element of p stands in q, and what is left without it. */
  lemma Counterpart<T>(p: seq<T>, q: seq<T>) returns (k: nat)
    requires p != [] && multiset(p) == multiset(q)
    ensures k < |q| && q[k] == p[|p| - 1] && multiset(p[..|p| - 1]) == multiset(Drop(q, k))
  {
    var n := |p| - 1;
    assert p == p[..n] + [p[n]];
    assert p[n] in multiset(q);
    k :| 0 <= k < |q| && q[k] == p[n];
    DropMultiset(q, k);
    assert multiset(p[..n]) == multiset(p) - multiset{p[n]};
  }

  function Flatten<T>(rows: seq<seq<T>>): seq<T> {
    if rows == [] then [] else Flatten(rows[..|rows| - 1]) + rows[|rows| - 1]
  }

  lemma {:induction false} FlattenConcat<T>(a: seq<seq<T>>, b: seq<seq<T>>)
    ensures Flatten(a + b) == Flatten(a) + Flatten(b)
    decreases |b|
  {
    if b == [] {
      assert a + b == a && Flatten(b) == [];
    } else {
      var all, n := a + b, |b| - 1;
      FlattenConcat(a, b[..n]);
      assert all[..|all| - 1] == a + b[..n] && all[|all| - 1] == b[n];
      assert Flatten(all) == Flatten(a + b[..n]) + b[n];
    }
  }

  lemma FlattenOne<T>(row: seq<T>)
    ensures Flatten([row]) == row
  {
    assert [row][..0] == [];
  }

  /** Joining the rows in another order gives the same elements. */
  lemma {:induction false} FlattenSame<T>(a: seq<seq<T>>, b: seq<seq<T>>)
    requires multiset(a) == multiset(b)
    ensures multiset(Flatten(a)) == multiset(Flatten(b))
    decreases |a|
  {
    if a == [] {
      assert |multiset(b)| == |b|;
    } else {
      var k := Counterpart(a, b);
      FlattenSame(a[..|a| - 1], Drop(b, k));
      FlattenDrop(b, k);
    }
  }

  lemma FlattenMiddle<T>(before: seq<seq<T>>, row: seq<T>, after: seq<seq<T>>)
    ensures Flatten(before + [row] + after) == Flatten(before) + row + Flatten(after)
  {
    hide Flatten;
    FlattenConcat(before + [row], after);
    FlattenConcat(before, [row]);
    FlattenOne(row);
  }

  lemma FlattenDrop<T>(b: seq<seq<T>>, k: nat)
    requires k < |b|
    ensures multiset(Flatten(b)) == multiset(Flatten(Drop(b, k))) + multiset(b[k])
  {
    hide Flatten;
    var before, row, after := b[..k], b[k], b[k + 1..];
    assert b == before + [row] + after;
    FlattenMiddle(before, row, after);
    FlattenConcat(before, after);
    MiddleMultiset(Flatten(before), row, Flatten(after));
  }

  lemma MiddleMultiset<T>(x: seq<T>, row: seq<T>, y: seq<T>)
    ensures multiset(x + row + y) == multiset(x + y) + multiset(row)
  {
  }

  /** Joining rows with the same elements, row by row, gives the same elements. */
  lemma {:induction false} FlattenRows<T>(a: seq<seq<T>>, b: seq<seq<T>>)
    requires |a| == |b| && forall i | 0 <= i < |a| :: multiset(a[i]) == multiset(b[i])
    ensures multiset(Flatten(a)) == multiset(Flatten(b))
    decreases |a|
  {
    if a == [] {
    } else {
      FlattenRows(a[..|a| - 1], b[..|b| - 1]);
    }
  }

  lemma {:induction false} FlattenContains<T>(rows: seq<seq<T>>, x: T)
    ensures x in Flatten(rows) <==> exists i | 0 <= i < |rows| :: x in rows[i]
    decreases |rows|
  {
    if rows == [] {
    } else {
      var front, last := rows[..|rows| - 1], rows[|rows| - 1];
      assert Flatten(rows) == Flatten(front) + last;
      FlattenContains(front, x);
      hide Flatten;
      if i :| 0 <= i < |rows| && x in rows[i] {
        assert i < |front| ==> x in front[i];
      }
      if i :| 0 <= i < |front| && x in front[i] {
        assert x in rows[i];
      }
    }
  }
}
