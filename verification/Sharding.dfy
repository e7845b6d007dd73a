/** How the runnable tests are dealt out to the shards of a test run. */
module Sharding {
  import opened CStrings

  datatype ReactionToSharding = HONOR_SHARDING_PROTOCOL(totalShards: int, shardIndex: int) | IGNORE_SHARDING_PROTOCOL

  /** Reads the two environment variables, -1 standing for an unset one; None when they are
      inconsistent, which ends the program. */
  function ShouldShard(totalShards: int, shardIndex: int, inSubprocessForDeathTest: bool)
    : (r: Option<ReactionToSharding>)
    ensures r.None? <==>
        !inSubprocessForDeathTest && !(totalShards == shardIndex == -1) && !(0 <= shardIndex < totalShards)
    ensures r.Some? && r.value.HONOR_SHARDING_PROTOCOL? <==>
              !inSubprocessForDeathTest && 0 <= shardIndex < totalShards && totalShards > 1
    ensures r.Some? && r.value.HONOR_SHARDING_PROTOCOL? ==>
              InRange(r.value) && r.value.totalShards == totalShards && r.value.shardIndex == shardIndex
  {
    if inSubprocessForDeathTest then Some(IGNORE_SHARDING_PROTOCOL)
    else if totalShards == -1 && shardIndex == -1 then Some(IGNORE_SHARDING_PROTOCOL)
    else if totalShards == -1 && shardIndex != -1 then None
    else if totalShards != -1 && shardIndex == -1 then None
    else if shardIndex < 0 || shardIndex >= totalShards then None
    else if totalShards > 1 then Some(HONOR_SHARDING_PROTOCOL(totalShards, shardIndex))
    else Some(IGNORE_SHARDING_PROTOCOL)
  }

  predicate InRange(sharding: ReactionToSharding) {
    sharding.HONOR_SHARDING_PROTOCOL? ==> 0 <= sharding.shardIndex < sharding.totalShards
  }

  predicate ShouldRunTestOnShard(totalShards: int, shardIndex: int, testId: nat)
    requires totalShards > 0
  {
    testId % totalShards == shardIndex
  }

  predicate OnThisShard(sharding: ReactionToSharding, testId: nat)
    requires InRange(sharding)
  {
    sharding.IGNORE_SHARDING_PROTOCOL? || ShouldRunTestOnShard(sharding.totalShards, sharding.shardIndex, testId)
  }

  function CountTrue(bs: seq<bool>): (n: nat)
    ensures n <= |bs|
  {
    if bs == [] then 0 else CountTrue(bs[..|bs| - 1]) + if bs[|bs| - 1] then 1 else 0
  }

  /** Which tests run here: the runnable ones are numbered in order, and dealt out by number. */
  function Selection(runnable: seq<bool>, sharding: ReactionToSharding): (r: seq<bool>)
    requires InRange(sharding)
    ensures |r| == |runnable|
    decreases |runnable|
  {
    if runnable == [] then []
    else
      var n := |runnable| - 1;
      Selection(runnable[..n], sharding) + [runnable[n] && OnThisShard(sharding, CountTrue(runnable[..n]))]
  }

  lemma SelectionNext(runnable: seq<bool>, b: bool, sharding: ReactionToSharding)
    requires InRange(sharding)
    ensures CountTrue(runnable + [b]) == CountTrue(runnable) + if b then 1 else 0
    ensures Selection(runnable + [b], sharding) ==
        Selection(runnable, sharding) + [b && OnThisShard(sharding, CountTrue(runnable))]
  {
    assert (runnable + [b])[..|runnable|] == runnable;
  }

  /** Is it the turn of this shard? A test's number is the count of the runnable tests before it. */
  ghost predicate DealtHere(runnable: seq<bool>, sharding: ReactionToSharding, k: nat)
    requires k < |runnable| && InRange(sharding)
  {
    sharding.HONOR_SHARDING_PROTOCOL? ==> CountTrue(runnable[..k]) % sharding.totalShards == sharding.shardIndex
  }

  lemma {:induction false} SelectionAt(runnable: seq<bool>, sharding: ReactionToSharding, k: nat)
    requires InRange(sharding) && k < |runnable|
    ensures Selection(runnable, sharding)[k] <==> runnable[k] && DealtHere(runnable, sharding, k)
    decreases |runnable|
  {
    var n := |runnable| - 1;
    if k >= n {
    } else {
      SelectionAt(runnable[..n], sharding, k);
      assert runnable[..n][..k] == runnable[..k];
    }
  }

  predicate Picks(runnable: seq<bool>, total: nat, shard: nat, k: nat)
    requires shard < total && k < |runnable|
  {
    Selection(runnable, HONOR_SHARDING_PROTOCOL(total, shard))[k]
  }

  /** The shards share out exactly the runnable tests: each is picked by one shard, the others by none. */
  lemma ShardsPartition(runnable: seq<bool>, total: nat, k: nat)
    requires total > 0 && k < |runnable|
    ensures runnable[k] <==> exists shard | 0 <= shard < total :: Picks(runnable, total, shard, k)
    ensures forall s, t | 0 <= s < t < total :: !(Picks(runnable, total, s, k) && Picks(runnable, total, t, k))
  {
    var owner := CountTrue(runnable[..k]) % total;
    forall shard | 0 <= shard < total ensures Picks(runnable, total, shard, k) <==> runnable[k] && shard == owner {
      SelectionAt(runnable, HONOR_SHARDING_PROTOCOL(total, shard), k);
    }
    assert runnable[k] ==> Picks(runnable, total, owner, k);
  }

  /** How many tests a shard runs. */
  function ShardSize(runnable: seq<bool>, total: nat, shard: nat): nat
    requires shard < total
  {
    CountTrue(Selection(runnable, HONOR_SHARDING_PROTOCOL(total, shard)))
  }

  function Share(count: nat, total: nat, shard: nat): nat
    requires shard < total
  {
    (count + (total - 1 - shard)) / total
  }

  lemma QuotientIs(q: nat, total: nat, u: nat)
    requires total > 0 && u < 2 * total
    ensures (q * total + u) / total == q + if u < total then 0 else 1
  {
    var a := q * total + u;
    var rest := if u < total then u else u - total;
    var quotient := q + if u < total then 0 else 1;
    assert a == quotient * total + rest;
    Unique(a / total, a % total, quotient, rest, total);
  }

  lemma Unique(q: int, r: int, q': int, r': int, total: int)
    requires 0 <= r < total && 0 <= r' < total && q * total + r == q' * total + r'
    ensures q == q'
  {
    assert (q - q') * total == r' - r && (q' - q) * total == r - r';
    if q > q' {
      AtLeast(q - q', total);
    } else if q < q' {
      AtLeast(q' - q, total);
    }
  }

  lemma AtLeast(a: int, b: int)
    requires a >= 1 && b >= 0
    ensures a * b >= b
  {
  }

  lemma ShareNext(count: nat, total: nat, shard: nat)
    requires shard < total
    ensures Share(count + 1, total, shard) == Share(count, total, shard) + if count % total == shard then 1 else 0
  {
    var q, t := count / total, count % total;
    assert count == q * total + t;
    QuotientIs(q, total, t + (total - 1 - shard));
    QuotientIs(q, total, t + 1 + (total - 1 - shard));
    assert count + (total - 1 - shard) == q * total + (t + (total - 1 - shard));
    assert count + 1 + (total - 1 - shard) == q * total + (t + 1 + (total - 1 - shard));
  }

  lemma {:induction false} ShardSizeIs(runnable: seq<bool>, total: nat, shard: nat)
    requires shard < total
    ensures ShardSize(runnable, total, shard) == Share(CountTrue(runnable), total, shard)
    decreases |runnable|
  {
    if runnable == [] {
      QuotientIs(0, total, total - 1 - shard);
    } else {
      var n := |runnable| - 1;
      hide Share;
      ShardSizeIs(runnable[..n], total, shard);
      assert runnable == runnable[..n] + [runnable[n]];
      var sharding := HONOR_SHARDING_PROTOCOL(total, shard);
      SelectionNext(runnable[..n], runnable[n], sharding);
      var picked := runnable[n] && OnThisShard(sharding, CountTrue(runnable[..n]));
      SelectionNext(Selection(runnable[..n], sharding), picked, sharding);
      ShareNext(CountTrue(runnable[..n]), total, shard);
    }
  }

  lemma SharesDiffer(count: nat, total: nat, s: nat)
    requires s < total
    ensures Share(count, total, s) == count / total + if count % total <= s then 0 else 1
  {
    var q, r := count / total, count % total;
    assert count + (total - 1 - s) == q * total + (r + (total - 1 - s));
    QuotientIs(q, total, r + (total - 1 - s));
  }

  /** No shard runs two tests more than another. */
  lemma ShardsBalanced(runnable: seq<bool>, total: nat, s: nat, t: nat)
    requires s <= t < total
    ensures ShardSize(runnable, total, t) <= ShardSize(runnable, total, s) <= ShardSize(runnable, total, t) + 1
  {
    ShardSizeIs(runnable, total, s);
    ShardSizeIs(runnable, total, t);
    hide CountTrue, ShardSize, Share;
    SharesDiffer(CountTrue(runnable), total, s);
    SharesDiffer(CountTrue(runnable), total, t);
  }

  /** The tests that the first n shards run. */
  function SizesUpTo(runnable: seq<bool>, total: nat, n: nat): nat
    requires n <= total
  {
    if n == 0 then 0 else SizesUpTo(runnable, total, n - 1) + ShardSize(runnable, total, n - 1)
  }

  lemma {:induction false} SizesNext(runnable: seq<bool>, b: bool, total: nat, n: nat)
    requires n <= total && total > 0
    ensures SizesUpTo(runnable + [b], total, n) ==
            SizesUpTo(runnable, total, n) + if b && CountTrue(runnable) % total < n then 1 else 0
  {
    if n == 0 {
    } else {
      SizesNext(runnable, b, total, n - 1);
      var sharding := HONOR_SHARDING_PROTOCOL(total, n - 1);
      SelectionNext(runnable, b, sharding);
      SelectionNext(Selection(runnable, sharding), b && OnThisShard(sharding, CountTrue(runnable)), sharding);
    }
  }

  lemma {:induction false} NoSizes(total: nat, n: nat)
    requires n <= total
    ensures SizesUpTo([], total, n) == 0
  {
    if n == 0 {
    } else {
      NoSizes(total, n - 1);
    }
  }

  /** Together the shards run as many tests as are runnable. */
  lemma {:induction false} SizesAddUp(runnable: seq<bool>, total: nat)
    requires total > 0
    ensures SizesUpTo(runnable, total, total) == CountTrue(runnable)
    decreases |runnable|
  {
    if runnable == [] {
      NoSizes(total, total);
    } else {
      var n := |runnable| - 1;
      SizesAddUp(runnable[..n], total);
      SizesNext(runnable[..n], runnable[n], total, total);
      assert runnable == runnable[..n] + [runnable[n]];
    }
  }
}
