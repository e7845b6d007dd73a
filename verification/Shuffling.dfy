/** The random number generator and the in-place shuffle of a range of a vector. */
module Shuffling {
  import opened Orders

  const UINT_RANGE: nat := 0x1_0000_0000
  const MAX_RANGE: nat := 0x8000_0000

  // ----- The generator -----

  /** One step of the generator in 32-bit unsigned arithmetic. */
  function NextState(state: nat): nat {
    (1103515245 * state % UINT_RANGE + 12345) % UINT_RANGE % MAX_RANGE
  }

  /** The wrap-around does not disturb the linear congruence. */
  lemma NextStateIsLinear(state: nat)
    ensures NextState(state) == (1103515245 * state + 12345) % 0x8000_0000
  {
    var x := 1103515245 * state;
    var q := x / UINT_RANGE;
    var y := x % UINT_RANGE + 12345;
    assert x + 12345 == y + MAX_RANGE * (2 * q);
    AddMultiple(y, 2 * q);
    AddMultiple(y % UINT_RANGE, 2 * (y / UINT_RANGE));
  }

  lemma AddMultiple(a: nat, k: nat)
    ensures (a + MAX_RANGE * k) % MAX_RANGE == a % MAX_RANGE
  {
  }

  class Random {
    var state: nat

    constructor (seed: nat)
      ensures state == seed
    {
      state := seed;
    }

    method Reseed(seed: nat)
      modifies this`state
      ensures state == seed
    {
      state := seed;
    }

    /** A range the generator cannot serve ends the program. */
    method Generate(range: nat) returns (r: nat)
      requires 0 < range <= MAX_RANGE
      modifies this`state
      ensures state == NextState(old(state)) && r == state % range
    {
      state := (1103515245 * state % UINT_RANGE + 12345) % UINT_RANGE % MAX_RANGE;
      r := state % range;
    }
  }

  // ----- The shuffle -----

  class Vector<T> {
    var elems: seq<T>

    constructor ()
      ensures elems == []
    {
      elems := [];
    }
  }

  function GetElementOr<T>(v: seq<T>, i: int, defaultValue: T): T {
    if i < 0 || i >= |v| then defaultValue else v[i]
  }

  function Swap<T>(s: seq<T>, i: nat, j: nat): (r: seq<T>)
    requires i < |s| && j < |s|
    ensures |r| == |s|
  {
    s[i := s[j]][j := s[i]]
  }

  /** Draws for a range of |ds| + 1 elements: each is below the width that is left. */
  predicate Fits(ds: seq<nat>) {
    forall k | 0 <= k < |ds| :: ds[k] < |ds| + 1 - k
  }

  /** The first draw picks the element for the end of the range, the others shuffle the rest. */
  function FisherYates<T>(v: seq<T>, begin: nat, ds: seq<nat>): (r: seq<T>)
    requires Fits(ds) && (ds != [] ==> begin + |ds| < |v|)
    ensures |r| == |v|
    decreases |ds|
  {
    if ds == [] then v
    else FisherYates(Swap(v, begin + ds[0], begin + |ds|), begin, ds[1..])
  }

  /** What the generator draws for a range of the given width, and the state it is left in. */
  function Draws(state: nat, width: nat): (ds: seq<nat>)
    ensures |ds| == (if width < 2 then 0 else width - 1) && Fits(ds)
    decreases width
  {
    if width < 2 then [] else [NextState(state) % width] + Draws(NextState(state), width - 1)
  }

  function StateAfter(state: nat, width: nat): nat
    decreases width
  {
    if width < 2 then state else StateAfter(NextState(state), width - 1)
  }

  /** The state after n steps. */
  function StateNth(state: nat, n: nat): nat {
    if n == 0 then state else NextState(StateNth(state, n - 1))
  }

  lemma {:induction false} StateNthShifts(state: nat, n: nat)
    ensures StateNth(NextState(state), n) == StateNth(state, n + 1)
  {
    if n == 0 {
      assert StateNth(state, 1) == NextState(StateNth(state, 0));
    } else {
      StateNthShifts(state, n - 1);
    }
  }

  /** Draw k is the generator's next state but k, reduced to the width that is left; one step is
      taken for each draw. */
  lemma {:induction false} DrawAt(state: nat, width: nat, k: nat)
    requires k + 1 < width
    ensures Draws(state, width)[k] == StateNth(state, k + 1) % (width - k)
    ensures StateAfter(state, width) == StateNth(state, width - 1)
    decreases width
  {
    hide NextState;
    StateNthShifts(state, k);
    StateNthShifts(state, width - 2);
    if width == 2 {
      assert StateNth(state, 1) == NextState(StateNth(state, 0));
    } else {
      assert StateNth(state, 1) == NextState(StateNth(state, 0));
      DrawAt(NextState(state), width - 1, if k == 0 then 0 else k - 1);
      if k > 0 {
        StateNthShifts(state, k);
      }
    }
  }

  method ShuffleRange<T>(random: Random, begin: int, end: int, v: Vector<T>)
    requires 0 <= begin <= end <= |v.elems| && end - begin <= MAX_RANGE
    modifies random`state, v`elems
    ensures v.elems == FisherYates(old(v.elems), begin, Draws(old(random.state), end - begin))
    ensures random.state == StateAfter(old(random.state), end - begin)
  {
    var width := end - begin;
    while width >= 2
      invariant width <= end - begin && (end > begin ==> width >= 1) && |v.elems| == old(|v.elems|)
      invariant FisherYates(v.elems, begin, Draws(random.state, if width < 0 then 0 else width))
             == FisherYates(old(v.elems), begin, Draws(old(random.state), end - begin))
      invariant StateAfter(random.state, if width < 0 then 0 else width) == StateAfter(old(random.state), end - begin)
    {
      var last := begin + width - 1;
      var drawn := random.Generate(width);
      var selected := begin + drawn;
      v.elems := v.elems[selected := v.elems[last]][last := v.elems[selected]];
      width := width - 1;
    }
  }

  method Shuffle<T>(random: Random, v: Vector<T>)
    requires |v.elems| <= MAX_RANGE
    modifies random`state, v`elems
    ensures v.elems == FisherYates(old(v.elems), 0, Draws(old(random.state), |old(v.elems)|))
    ensures random.state == StateAfter(old(random.state), |old(v.elems)|)
  {
    ShuffleRange(random, 0, |v.elems|, v);
  }

  // ----- What a shuffle can and cannot do -----

  lemma SwapPermutes<T>(s: seq<T>, i: nat, j: nat)
    requires i < |s| && j < |s|
    ensures multiset(Swap(s, i, j)) == multiset(s)
  {
  }

  /** Nothing outside the range moves, and nothing is lost. */
  lemma {:induction false} ShufflePermutes<T>(v: seq<T>, begin: nat, ds: seq<nat>)
    requires Fits(ds) && (ds != [] ==> begin + |ds| < |v|)
    ensures var r := FisherYates(v, begin, ds);
            && multiset(r) == multiset(v)
            && (forall k | 0 <= k < |v| :: k < begin || k > begin + |ds| ==> r[k] == v[k])
    decreases |ds|
  {
    if ds == [] {
    } else {
      SwapPermutes(v, begin + ds[0], begin + |ds|);
      ShufflePermutes(Swap(v, begin + ds[0], begin + |ds|), begin, ds[1..]);
    }
  }

  /** Sequences with the same elements that agree outside a range have the same elements in it. */
  lemma RangePermutes<T>(v: seq<T>, w: seq<T>, lo: nat, hi: nat)
    requires lo <= hi <= |v| == |w| && multiset(v) == multiset(w)
    requires forall k | 0 <= k < |v| :: k < lo || k >= hi ==> v[k] == w[k]
    ensures multiset(v[lo..hi]) == multiset(w[lo..hi])
  {
    assert v == v[..lo] + v[lo..hi] + v[hi..] && w == w[..lo] + w[lo..hi] + w[hi..];
    assert v[..lo] == w[..lo] && v[hi..] == w[hi..];
    assert multiset(v) == multiset(v[..lo]) + multiset(v[lo..hi]) + multiset(v[hi..]);
    assert multiset(w) == multiset(v[..lo]) + multiset(w[lo..hi]) + multiset(v[hi..]);
    MultisetCancel(multiset(v[..lo]), multiset(v[lo..hi]), multiset(w[lo..hi]), multiset(v[hi..]));
  }

  lemma MultisetCancel<T>(a: multiset<T>, x: multiset<T>, y: multiset<T>, b: multiset<T>)
    requires a + x + b == a + y + b
    ensures x == y
  {
    forall e: T ensures x[e] == y[e] {
      assert (a + x + b)[e] == a[e] + x[e] + b[e] && (a + y + b)[e] == a[e] + y[e] + b[e];
    }
  }

  /** The element that belongs at the end of the range is somewhere in it. */
  lemma FindLast<T>(v: seq<T>, begin: nat, width: nat, w: seq<T>) returns (d: nat)
    requires 0 < width && begin + width <= |v| == |w| && multiset(v) == multiset(w)
    requires forall k | 0 <= k < |v| :: k < begin || k >= begin + width ==> v[k] == w[k]
    ensures d < width && v[begin + d] == w[begin + width - 1]
  {
    RangePermutes(v, w, begin, begin + width);
    var range := v[begin..begin + width];
    assert w[begin..begin + width][width - 1] == w[begin + width - 1];
    assert w[begin + width - 1] in multiset(range);
    d :| 0 <= d < width && range[d] == w[begin + width - 1];
  }

  /** The swap leaves a narrower range in which the orders differ. */
  lemma PlaceLast<T>(v: seq<T>, begin: nat, width: nat, w: seq<T>, d: nat)
    requires d < width && begin + width <= |v| == |w| && multiset(v) == multiset(w)
    requires forall k | 0 <= k < |v| :: k < begin || k >= begin + width ==> v[k] == w[k]
    requires v[begin + d] == w[begin + width - 1]
    ensures var v' := Swap(v, begin + d, begin + width - 1);
            && multiset(v') == multiset(w)
            && (forall k | 0 <= k < |v| :: k < begin || k >= begin + width - 1 ==> v'[k] == w[k])
  {
    SwapPermutes(v, begin + d, begin + width - 1);
  }

  /** Every order of the range is the result of some draws. */
  lemma {:induction false} EveryOrderReached<T>(v: seq<T>, begin: nat, width: nat, w: seq<T>) returns (ds: seq<nat>)
    requires begin + width <= |v| == |w| && multiset(v) == multiset(w)
    requires forall k | 0 <= k < |v| :: k < begin || k >= begin + width ==> v[k] == w[k]
    ensures |ds| == (if width < 2 then 0 else width - 1) && Fits(ds) && FisherYates(v, begin, ds) == w
    decreases width
  {
    if width < 2 {
      ds := [];
      if width == 1 {
        var d := FindLast(v, begin, width, w);
      }
      assert v == w;
    } else {
      hide Swap;
      var d := FindLast(v, begin, width, w);
      PlaceLast(v, begin, width, w, d);
      var rest := EveryOrderReached(Swap(v, begin + d, begin + width - 1), begin, width - 1, w);
      ds := [d] + rest;
      assert ds[1..] == rest;
    }
  }

  /** Different draws give different orders, so each order has exactly one list of draws. */
  lemma {:induction false} OrderReachedOnce<T>(v: seq<T>, begin: nat, ds: seq<nat>, es: seq<nat>)
    requires Fits(ds) && Fits(es) && |ds| == |es| && (ds != [] ==> begin + |ds| < |v|) && Distinct(v)
    requires FisherYates(v, begin, ds) == FisherYates(v, begin, es)
    ensures ds == es
    decreases |ds|
  {
    if ds == [] {
    } else {
      LastDrawn(v, begin, ds);
      LastDrawn(v, begin, es);
      assert ds[0] == es[0];
      SwapDistinct(v, begin + ds[0], begin + |ds|);
      hide Swap, Distinct;
      OrderReachedOnce(Swap(v, begin + ds[0], begin + |ds|), begin, ds[1..], es[1..]);
      assert ds == [ds[0]] + ds[1..] && es == [es[0]] + es[1..];
    }
  }

  /** The first draw decides the last element of the range for good. */
  lemma LastDrawn<T>(v: seq<T>, begin: nat, ds: seq<nat>)
    requires Fits(ds) && ds != [] && begin + |ds| < |v|
    ensures FisherYates(v, begin, ds)[begin + |ds|] == v[begin + ds[0]]
  {
    ShufflePermutes(Swap(v, begin + ds[0], begin + |ds|), begin, ds[1..]);
  }

  lemma SwapDistinct<T>(s: seq<T>, i: nat, j: nat)
    requires i < |s| && j < |s| && Distinct(s)
    ensures Distinct(Swap(s, i, j))
  {
  }
}
