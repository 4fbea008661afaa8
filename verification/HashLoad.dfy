/**
 * The bound behind the expansion heuristic. As long as expansion has not been given up, chain
 * lengths stay within ten times `expand_mult + 1`, the multipliers add up to at most the number
 * of buckets, and so the table holds at most twenty items for each bucket.
 */
module HashLoad {
  import opened Bits
  import opened Elements
  import opened Sums
  import opened HashModel
  import opened HashConsistency

  /** A bucket within its threshold; only an untouched bucket of multiplier 0 can sit exactly on it. */
  predicate WithinThreshold(b: Bucket) {
    && |b.chain| <= (b.mult + 1) * BKT_CAPACITY_THRESH
    && (0 < b.mult ==> |b.chain| < (b.mult + 1) * BKT_CAPACITY_THRESH)
  }

  ghost predicate LoadBounded(buckets: seq<Bucket>) {
    && Sum(Mults(buckets)) <= |buckets|
    && forall b :: 0 <= b < |buckets| ==> WithinThreshold(buckets[b])
  }

  ghost predicate Loaded(t: Table) {
    !t.noexpand ==> LoadBounded(t.buckets)
  }

  // ---------------------------------------------------------------- what the bound gives

  lemma {:induction false} ThresholdSum(counts: seq<nat>, mults: seq<nat>)
    requires |counts| == |mults|
    requires forall i :: 0 <= i < |counts| ==> counts[i] <= 10 * mults[i] + 10 && (0 < mults[i] ==> counts[i] < 10 * mults[i] + 10)
    ensures Sum(counts) + (if 0 < Sum(mults) then 1 else 0) <= 10 * |counts| + 10 * Sum(mults)
  {
    if counts != [] {
      ThresholdSum(counts[1..], mults[1..]);
    }
  }

  lemma LoadSum(buckets: seq<Bucket>)
    requires LoadBounded(buckets)
    ensures
      var m := Sum(Mults(buckets));
      Sum(Counts(buckets)) + (if 0 < m then 1 else 0) <= 10 * |buckets| + 10 * m
  {
    forall i | 0 <= i < |buckets|
      ensures var c, m := Counts(buckets)[i], Mults(buckets)[i]; c <= 10 * m + 10 && (0 < m ==> c < 10 * m + 10)
    {
      assert WithinThreshold(buckets[i]);
    }
    ThresholdSum(Counts(buckets), Mults(buckets));
  }

  /** At most twenty items for each bucket. */
  lemma ItemsBounded(t: Table, hash: Hash)
    requires Consistent(t, hash) && LoadBounded(t.buckets)
    ensures |t.order| <= 20 * |t.buckets|
  {
    LoadSum(t.buckets);
  }

  /** The add that triggers an expansion still leaves at most twenty items for each bucket. */
  lemma TriggeringItemsBounded(t: Table, x: Node, hash: Hash)
    requires Consistent(t, hash) && LoadBounded(t.buckets)
    ensures |t.order| + 1 <= 20 * |t.buckets|
  {
    LoadSum(t.buckets);
    EnoughBuckets(t, hash);
  }

  // ---------------------------------------------------------------- expansion restores the bound

  lemma CeilingBounds(items: nat, n: nat, ideal: nat)
    requires 0 < items <= 10 * n && ideal == items / n + (if items % n != 0 then 1 else 0)
    ensures 1 <= ideal <= 10 && items <= ideal * n
  {
    var q, r := items / n, items % n;
    assert items == q * n + r;
    MulGap(10, q, n);
    assert (q + 1) * n == q * n + n;
  }

  lemma MultBounds(count: nat, ideal: nat)
    requires 1 <= ideal <= 10
    ensures
      var m := MultOf(count, ideal);
      ideal * m <= count && count <= (m + 1) * 10 && (0 < m ==> count < (m + 1) * 10)
  {
    if count > ideal {
      var m := count / ideal;
      assert count == ideal * m + count % ideal;
      assert ideal * (m + 1) <= 10 * (m + 1);
      assert ideal * (m + 1) == ideal * m + ideal;
    }
  }

  lemma NewBucketsLoaded(t: Table, ideal: nat, n: nat, hash: Hash)
    requires Consistent(t, hash) && 1 <= ideal <= 10 && n == 2 * |t.buckets| && |t.order| <= ideal * n
    ensures LoadBounded(NewBuckets(t.buckets, ideal, hash))
  {
    var buckets := NewBuckets(t.buckets, ideal, hash);
    NewCounts(t, ideal, hash);
    var counts, mults := Counts(buckets), Mults(buckets);
    forall b | 0 <= b < n
      ensures WithinThreshold(buckets[b]) && ideal * mults[b] <= counts[b]
    {
      assert buckets[b] == NewBucket(t.buckets, b, ideal, hash);
      MultBounds(|buckets[b].chain|, ideal);
    }
    SumScaled(ideal, mults, counts);
    CancelFactor(ideal, Sum(mults), n);
  }

  /** An expansion computes an ideal length from 1 to 10 and leaves every bucket within bounds. */
  lemma ExpandLoaded(t: Table, hash: Hash)
    requires Consistent(t, hash) && 0 < |t.order| <= 20 * |t.buckets|
    ensures 1 <= IdealLength(|t.order|, t.log2) <= 10
    ensures LoadBounded(Expand(t, hash).buckets)
  {
    var n, items := 2 * |t.buckets|, |t.order|;
    var ideal := IdealLength(items, t.log2);
    IdealIsCeiling(items, t.log2);
    CeilingBounds(items, n, ideal);
    NewBucketsLoaded(t, ideal, n, hash);
  }

  lemma CancelFactor(c: nat, x: nat, y: nat)
    requires 0 < c && c * x <= c * y
    ensures x <= y
  {
    MulGap(y, x, c);
  }

  // ---------------------------------------------------------------- what an expansion computes

  /** The multiplier is how many whole ideal lengths a chain beyond the ideal holds. */
  predicate MultExact(b: Bucket, ideal: nat) {
    if |b.chain| > ideal then b.mult * ideal <= |b.chain| < (b.mult + 1) * ideal else b.mult == 0
  }

  lemma MultOfExact(count: nat, ideal: nat)
    requires 0 < ideal && count > ideal
    ensures MultOf(count, ideal) * ideal <= count < (MultOf(count, ideal) + 1) * ideal
  {
    var m := count / ideal;
    assert count == m * ideal + count % ideal;
    MulSuccessor(m, ideal);
  }

  /** How many items of each chain are within the ideal length. */
  ghost function WithinIdeal(buckets: seq<Bucket>, ideal: nat): (w: seq<nat>)
    ensures |w| == |buckets|
    ensures forall b :: 0 <= b < |buckets| ==> w[b] == if |buckets[b].chain| < ideal then |buckets[b].chain| else ideal
  {
    seq(|buckets|, b requires 0 <= b < |buckets| => if |buckets[b].chain| < ideal then |buckets[b].chain| else ideal)
  }

  /**
   * The statistics after an expansion: exact multipliers, the items beyond the ideal length
   * counted, and the expansion held ineffective if they are more than half of all.
   */
  ghost predicate ExpandedExactly(t: Table, t': Table) {
    && |t'.buckets| == 2 * |t.buckets|
    && (forall b :: 0 <= b < |t'.buckets| ==> MultExact(t'.buckets[b], t'.ideal))
    && t'.nonideal + Sum(WithinIdeal(t'.buckets, t'.ideal)) == |t'.order|
    && t'.ineff == (if 2 * t'.nonideal > |t'.order| then t.ineff + 1 else 0)
    && (t'.noexpand <==> t.noexpand || t'.ineff > 1)
  }

  lemma NewBucketExact(before: seq<Bucket>, b: nat, ideal: nat, hash: Hash)
    requires b < 2 * |before| && 0 < ideal
    ensures MultExact(NewBucket(before, b, ideal, hash), ideal)
  {
    var bucket := NewBucket(before, b, ideal, hash);
    if |bucket.chain| > ideal {
      MultOfExact(|bucket.chain|, ideal);
    }
  }

  lemma BeyondAndWithin(buckets: seq<Bucket>, ideal: nat)
    ensures Sum(Excesses(buckets, ideal)) + Sum(WithinIdeal(buckets, ideal)) == Sum(Counts(buckets))
  {
    SumAdds(Counts(buckets), Excesses(buckets, ideal), WithinIdeal(buckets, ideal));
  }

  lemma ExpandExact(t: Table, hash: Hash)
    requires Consistent(t, hash) && t.order != []
    ensures 0 < IdealLength(|t.order|, t.log2)
    ensures ExpandedExactly(t, Expand(t, hash))
  {
    IdealPositive(|t.order|, t.log2);
    var t' := Expand(t, hash);
    forall b | 0 <= b < |t'.buckets|
      ensures MultExact(t'.buckets[b], t'.ideal)
    {
      NewBucketExact(t.buckets, b, t'.ideal, hash);
    }
    NewCounts(t, t'.ideal, hash);
    BeyondAndWithin(t'.buckets, t'.ideal);
    assert ShiftRight(|t.order|, 1) == |t.order| / 2;
  }

  // ---------------------------------------------------------------- the bound is an invariant

  lemma MakeTableLoaded()
    ensures LoadBounded(MakeTable().buckets)
  {
    var buckets := MakeTable().buckets;
    var mults := Mults(buckets);
    assert forall b :: 0 <= b < |mults| ==> mults[b] == buckets[b].mult == 0;
    SumZeros(mults);
  }

  /** Adding keeps the bound, and an expansion it triggers never divides by zero. */
  lemma AddLoaded(t: Table, x: Node, hash: Hash)
    requires Consistent(t, hash) && Loaded(t) && x !in t.order
    ensures 0 < |t.buckets| && ToBucket(hash(x.elem.key), |t.buckets|) < |t.buckets|
    ensures 0 < IdealLength(|t.order| + 1, t.log2)
    ensures Loaded(Add(t, x, hash))
    ensures Triggers(t, x, hash) ==> 1 <= Add(t, x, hash).ideal <= 10
  {
    OperationsDefined(t, x.elem.key, hash);
    var linked := Linked(t, x, hash);
    LinkedConsistent(t, x, hash);
    if Triggers(t, x, hash) {
      TriggeringItemsBounded(t, x, hash);
      ExpandLoaded(linked, hash);
    } else if !t.noexpand {
      assert Mults(linked.buckets) == Mults(t.buckets);
    }
  }

  lemma {:induction false} WithoutShorter(s: seq<Node>, x: Node)
    ensures |Without(s, x)| <= |s|
  {
    if s != [] && s[0] != x {
      WithoutShorter(s[1..], x);
    }
  }

  lemma ShorterChainBounded(buckets: seq<Bucket>, b: nat, chain: seq<Node>)
    requires LoadBounded(buckets) && b < |buckets| && |chain| <= |buckets[b].chain|
    ensures LoadBounded(buckets[b := buckets[b].(chain := chain)])
  {
    assert Mults(buckets[b := buckets[b].(chain := chain)]) == Mults(buckets);
    assert WithinThreshold(buckets[b]);
  }

  lemma DeleteLoaded(t: Table, x: Node, hash: Hash)
    requires Consistent(t, hash) && Loaded(t)
    ensures 0 < |t.buckets| && ToBucket(hash(x.elem.key), |t.buckets|) < |t.buckets|
    ensures Loaded(Delete(t, x, hash))
  {
    OperationsDefined(t, x.elem.key, hash);
    var b := ToBucket(hash(x.elem.key), |t.buckets|);
    if t.order == [x] {
      MakeTableLoaded();
    } else if !t.noexpand {
      WithoutShorter(t.buckets[b].chain, x);
      ShorterChainBounded(t.buckets, b, Without(t.buckets[b].chain, x));
    }
  }
}
