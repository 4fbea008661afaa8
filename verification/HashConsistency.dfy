/** Every operation of the table keeps the structural invariant, and lookup is correct under it. */
module HashConsistency {
  import opened Bits
  import opened Elements
  import opened Sums
  import opened HashModel

  // ---------------------------------------------------------------- adding

  lemma LinkedConsistent(t: Table, x: Node, hash: Hash)
    requires Consistent(t, hash) && x !in t.order
    ensures 0 < |t.buckets| && ToBucket(hash(x.elem.key), |t.buckets|) < |t.buckets|
    ensures Consistent(Linked(t, x, hash), hash)
  {
    var n := |t.buckets|;
    ToBucketIsMod(hash(x.elem.key), t, hash);
    var b := hash(x.elem.key) % n;
    var t' := Linked(t, x, hash);
    assert x !in t.buckets[b].chain by {
      assert ChainOf(t.buckets[b].chain, b, t, hash);
    }
    forall c | 0 <= c < n
      ensures ChainOf(t'.buckets[c].chain, c, t', hash)
    {
      assert ChainOf(t.buckets[c].chain, c, t, hash);
    }
    forall y | y in t'.order
      ensures y in t'.buckets[hash(y.elem.key) % n].chain
    {
      assert y == x || y in t.buckets[hash(y.elem.key) % n].chain;
    }
    SumUpdate(Counts(t.buckets), b, |t.buckets[b].chain| + 1);
    assert Counts(t'.buckets) == Counts(t.buckets)[b := |t.buckets[b].chain| + 1];
  }

  // ---------------------------------------------------------------- expanding

  lemma {:induction false} MovedContents(chain: seq<Node>, b: nat, n: nat, hash: Hash)
    requires 0 < n
    ensures forall x :: x in Moved(chain, b, n, hash) <==> x in chain && ToBucket(hash(x.elem.key), n) == b
    ensures NoDuplicates(chain) ==> NoDuplicates(Moved(chain, b, n, hash))
  {
    if chain != [] {
      var k := |chain| - 1;
      MovedContents(chain[..k], b, n, hash);
      assert chain == chain[..k] + [chain[k]];
      assert NoDuplicates(chain) ==> chain[k] !in chain[..k];
    }
  }

  /** A chain's items are divided between the two new buckets it splits into. */
  lemma {:induction false} MovedCounts(chain: seq<Node>, b: nat, c: nat, n: nat, hash: Hash)
    requires 0 < n && b != c
    requires forall x :: x in chain ==> ToBucket(hash(x.elem.key), n) == b || ToBucket(hash(x.elem.key), n) == c
    ensures |Moved(chain, b, n, hash)| + |Moved(chain, c, n, hash)| == |chain|
  {
    if chain != [] {
      var k := |chain| - 1;
      MovedCounts(chain[..k], b, c, n, hash);
      assert chain[k] in chain;
    }
  }

  lemma ToBucketDoubled(hashv: nat, t: Table, hash: Hash)
    requires Consistent(t, hash)
    ensures
      var n := |t.buckets|;
      && ToBucket(hashv, 2 * n) == hashv % (2 * n)
      && hashv % (2 * n) % n == hashv % n
      && (hashv % (2 * n) == hashv % n || hashv % (2 * n) == hashv % n + n)
  {
    assert Pow2(t.log2 + 1) == 2 * Pow2(t.log2);
    AndMask(hashv, t.log2 + 1);
    ModOfDoubled(hashv, |t.buckets|);
  }

  lemma NewChainConsistent(t: Table, b: nat, hash: Hash)
    requires Consistent(t, hash) && b < 2 * |t.buckets|
    ensures
      var n := |t.buckets|;
      var chain := Moved(t.buckets[b % n].chain, b, 2 * n, hash);
      && NoDuplicates(chain)
      && forall x :: x in chain <==> x in t.order && hash(x.elem.key) % (2 * n) == b
  {
    var n := |t.buckets|;
    var from := t.buckets[b % n].chain;
    MovedContents(from, b, 2 * n, hash);
    assert ChainOf(from, b % n, t, hash);
    forall x
      ensures x in from && ToBucket(hash(x.elem.key), 2 * n) == b <==> x in t.order && hash(x.elem.key) % (2 * n) == b
    {
      ToBucketDoubled(hash(x.elem.key), t, hash);
    }
  }

  lemma SplitCounts(t: Table, b: nat, hash: Hash)
    requires Consistent(t, hash) && b < |t.buckets|
    ensures
      var n, chain := |t.buckets|, t.buckets[b].chain;
      && b % n == b && (b + n) % n == b
      && |chain| == |Moved(chain, b, 2 * n, hash)| + |Moved(chain, b + n, 2 * n, hash)|
  {
    var n, chain := |t.buckets|, t.buckets[b].chain;
    DivModUnique(b, n, 0, b);
    DivModUnique(b + n, n, 1, b);
    assert ChainOf(chain, b, t, hash);
    forall x | x in chain
      ensures ToBucket(hash(x.elem.key), 2 * n) == b || ToBucket(hash(x.elem.key), 2 * n) == b + n
    {
      ToBucketDoubled(hash(x.elem.key), t, hash);
    }
    MovedCounts(chain, b, b + n, 2 * n, hash);
  }

  lemma HalvesAddUp(total: seq<nat>, halves: seq<nat>)
    requires |halves| == 2 * |total|
    requires forall b :: 0 <= b < |total| ==> total[b] == halves[b] + halves[b + |total|]
    ensures Sum(halves) == Sum(total)
  {
    var n := |total|;
    var low, high := halves[..n], halves[n..];
    assert halves == low + high;
    SumConcat(low, high);
    SumAdds(total, low, high);
  }

  lemma NewCounts(t: Table, ideal: nat, hash: Hash)
    requires Consistent(t, hash) && 0 < ideal
    ensures Sum(Counts(NewBuckets(t.buckets, ideal, hash))) == |t.order|
  {
    var buckets := NewBuckets(t.buckets, ideal, hash);
    forall b | 0 <= b < |t.buckets|
      ensures Counts(t.buckets)[b] == Counts(buckets)[b] + Counts(buckets)[b + |t.buckets|]
    {
      SplitCounts(t, b, hash);
    }
    HalvesAddUp(Counts(t.buckets), Counts(buckets));
  }

  lemma NewChainsConsistent(t: Table, t': Table, hash: Hash)
    requires Consistent(t, hash) && t'.order == t.order && |t'.buckets| == 2 * |t.buckets|
    requires forall b :: 0 <= b < |t'.buckets| ==>
      t'.buckets[b].chain == Moved(t.buckets[b % |t.buckets|].chain, b, |t'.buckets|, hash)
    ensures forall b :: 0 <= b < |t'.buckets| ==> ChainOf(t'.buckets[b].chain, b, t', hash)
    ensures forall x :: x in t'.order ==> x in t'.buckets[hash(x.elem.key) % |t'.buckets|].chain
  {
    forall b | 0 <= b < |t'.buckets|
      ensures ChainOf(t'.buckets[b].chain, b, t', hash)
    {
      NewChainConsistent(t, b, hash);
    }
    forall x | x in t'.order
      ensures x in t'.buckets[hash(x.elem.key) % |t'.buckets|].chain
    {
      NewChainConsistent(t, hash(x.elem.key) % |t'.buckets|, hash);
    }
  }

  lemma ExpandDoubles(t: Table, hash: Hash)
    requires |t.buckets| == Pow2(t.log2) && 0 < IdealLength(|t.order|, t.log2)
    ensures |Expand(t, hash).buckets| == Pow2(Expand(t, hash).log2) == 2 * |t.buckets|
  {
    var log2 := t.log2 + 1;
    assert Pow2(log2) == 2 * Pow2(log2 - 1);
  }

  lemma ExpandConsistent(t: Table, hash: Hash)
    requires Consistent(t, hash) && t.order != []
    ensures 0 < IdealLength(|t.order|, t.log2)
    ensures Consistent(Expand(t, hash), hash)
  {
    IdealPositive(|t.order|, t.log2);
    var t' := Expand(t, hash);
    NewCounts(t, t'.ideal, hash);
    NewChainsConsistent(t, t', hash);
    ExpandDoubles(t, hash);
  }

  lemma AddConsistent(t: Table, x: Node, hash: Hash)
    requires Consistent(t, hash) && x !in t.order
    ensures 0 < |t.buckets| && ToBucket(hash(x.elem.key), |t.buckets|) < |t.buckets|
    ensures 0 < IdealLength(|t.order| + 1, t.log2)
    ensures Consistent(Add(t, x, hash), hash) && Add(t, x, hash).order == t.order + [x]
  {
    OperationsDefined(t, x.elem.key, hash);
    LinkedConsistent(t, x, hash);
    ExpandConsistent(Linked(t, x, hash), hash);
  }

  // ---------------------------------------------------------------- deleting

  lemma {:induction false} WithoutContents(s: seq<Node>, x: Node)
    requires NoDuplicates(s) && x in s
    ensures NoDuplicates(Without(s, x)) && |Without(s, x)| == |s| - 1
    ensures forall y :: y in Without(s, x) <==> y in s && y != x
  {
    assert s == [s[0]] + s[1..];
    assert s[0] !in s[1..];
    if s[0] != x {
      WithoutContents(s[1..], x);
    }
  }

  lemma {:induction false} WithoutIsCut(s: seq<Node>, x: Node) returns (k: nat)
    requires x in s
    ensures k < |s| && s[k] == x && Without(s, x) == s[..k] + s[k + 1..]
  {
    if s[0] == x {
      k := 0;
    } else {
      k := WithoutIsCut(s[1..], x);
      k := k + 1;
      assert s[..k] == [s[0]] + s[1..][..k - 1];
    }
  }

  lemma UnlinkedConsistent(t: Table, t': Table, x: Node, b: nat, hash: Hash)
    requires Consistent(t, hash) && x in t.order && t.order != [x] && b == hash(x.elem.key) % |t.buckets|
    requires t' == t.(order := Without(t.order, x),
                      buckets := t.buckets[b := t.buckets[b].(chain := Without(t.buckets[b].chain, x))])
    ensures Consistent(t', hash)
  {
    WithoutContents(t.order, x);
    assert ChainOf(t.buckets[b].chain, b, t, hash);
    WithoutContents(t.buckets[b].chain, x);
    forall c | 0 <= c < |t'.buckets|
      ensures ChainOf(t'.buckets[c].chain, c, t', hash)
    {
      assert ChainOf(t.buckets[c].chain, c, t, hash);
    }
    forall y | y in t'.order
      ensures y in t'.buckets[hash(y.elem.key) % |t'.buckets|].chain
    {
      assert y in t.order;
    }
    SumUpdate(Counts(t.buckets), b, |t.buckets[b].chain| - 1);
    assert Counts(t'.buckets) == Counts(t.buckets)[b := |t.buckets[b].chain| - 1];
    assert t.order == [t.order[0]] + t.order[1..];
  }

  lemma DeleteConsistent(t: Table, x: Node, hash: Hash)
    requires Consistent(t, hash) && x in t.order
    ensures 0 < |t.buckets| && ToBucket(hash(x.elem.key), |t.buckets|) < |t.buckets|
    ensures Consistent(Delete(t, x, hash), hash) && Delete(t, x, hash).order == Without(t.order, x)
  {
    ToBucketIsMod(hash(x.elem.key), t, hash);
    if t.order == [x] {
      MakeTableConsistent(hash);
    } else {
      UnlinkedConsistent(t, Delete(t, x, hash), x, hash(x.elem.key) % |t.buckets|, hash);
    }
  }

  /** Where a deletion cuts the insertion order and the chain of the item's bucket. */
  lemma DeletedParts(t: Table, t': Table, x: Node, hash: Hash) returns (k: nat, j: nat)
    requires Consistent(t, hash) && x in t.order && t.order != [x] && Deleted(t, x, t', hash)
    ensures k < |t.order| && t.order[k] == x && 1 < |t.order|
    ensures
      var b := hash(x.elem.key) % |t.buckets|;
      && j < |t.buckets[b].chain| && t.buckets[b].chain[j] == x
      && t' == t.(order := t.order[..k] + t.order[k + 1..],
                  buckets := t.buckets[b := t.buckets[b].(chain := t.buckets[b].chain[..j] + t.buckets[b].chain[j + 1..])])
    ensures x !in t'.order && forall b :: 0 <= b < |t'.buckets| ==> x !in t'.buckets[b].chain
  {
    ToBucketIsMod(hash(x.elem.key), t, hash);
    DeleteConsistent(t, x, hash);
    k := WithoutIsCut(t.order, x);
    j := WithoutIsCut(t.buckets[hash(x.elem.key) % |t.buckets|].chain, x);
    WithoutContents(t.order, x);
    forall b | 0 <= b < |t'.buckets|
      ensures x !in t'.buckets[b].chain
    {
      assert ChainOf(t'.buckets[b].chain, b, t', hash);
    }
  }

  // ---------------------------------------------------------------- finding

  lemma {:induction false} FindInChainFirst(chain: seq<Node>, key: Key)
    ensures
      var r := FindInChain(chain, key);
      if r == null then forall x :: x in chain ==> x.elem.key != key
      else exists i :: 0 <= i < |chain| && chain[i] == r && r.elem.key == key
                       && forall j :: 0 <= j < i ==> chain[j].elem.key != key
  {
    if chain != [] && chain[0].elem.key != key {
      FindInChainFirst(chain[1..], key);
      var r := FindInChain(chain, key);
      if r != null {
        var i :| 0 <= i < |chain[1..]| && chain[1..][i] == r
                 && forall j :: 0 <= j < i ==> chain[1..][j].elem.key != key;
        assert chain[i + 1] == r;
        forall j | 0 <= j < i + 1
          ensures chain[j].elem.key != key
        {
          if j > 0 {
            assert chain[j] == chain[1..][j - 1];
          }
        }
      } else {
        assert chain == [chain[0]] + chain[1..];
      }
    }
  }

  /** Lookup finds a live item with the key exactly when there is one. */
  lemma FindCorrect(t: Table, key: Key, hash: Hash)
    requires Consistent(t, hash)
    ensures 0 < |t.buckets| && ToBucket(hash(key), |t.buckets|) < |t.buckets|
    ensures
      var r := Find(t, key, hash);
      && (r == null <==> forall x :: x in t.order ==> x.elem.key != key)
      && (r != null ==> r in t.order && r.elem.key == key)
  {
    ToBucketIsMod(hash(key), t, hash);
    var b := hash(key) % |t.buckets|;
    var chain := t.buckets[b].chain;
    assert ChainOf(chain, b, t, hash);
    FindInChainFirst(chain, key);
    forall x | x in t.order && x.elem.key == key
      ensures x in chain
    {
    }
  }

  /** An expansion changes no item and no lookup of a key that at most one live item has. */
  lemma ExpandKeepsLookups(t: Table, key: Key, hash: Hash)
    requires Consistent(t, hash) && t.order != []
    requires forall x, y :: x in t.order && y in t.order && x.elem.key == key && y.elem.key == key ==> x == y
    ensures 0 < IdealLength(|t.order|, t.log2)
    ensures Expand(t, hash).order == t.order && Lookup(Expand(t, hash), key, hash) == Lookup(t, key, hash)
  {
    ExpandConsistent(t, hash);
    IdealPositive(|t.order|, t.log2);
    FindCorrect(t, key, hash);
    FindCorrect(Expand(t, hash), key, hash);
  }

  // ---------------------------------------------------------------- reordering

  /** Only the insertion order changes when the items are sorted, so the table stays consistent. */
  lemma ReorderedConsistent(t: Table, order: seq<Node>, hash: Hash)
    requires Consistent(t, hash) && multiset(order) == multiset(t.order) && NoDuplicates(order) && order != []
    ensures Consistent(t.(order := order), hash)
  {
    var t' := t.(order := order);
    assert |order| == |multiset(order)| == |multiset(t.order)| == |t.order|;
    assert forall x :: x in order <==> x in multiset(order);
    assert forall x :: x in t.order <==> x in multiset(t.order);
    forall b | 0 <= b < |t'.buckets|
      ensures ChainOf(t'.buckets[b].chain, b, t', hash)
    {
      assert ChainOf(t.buckets[b].chain, b, t, hash);
    }
  }

  ghost function Lookup(t: Table, key: Key, hash: Hash): Node? {
    if 0 < |t.buckets| && ToBucket(hash(key), |t.buckets|) < |t.buckets| then Find(t, key, hash) else null
  }

  ghost predicate SameLookups(t: Table, t': Table, hash: Hash) {
    forall key :: Lookup(t, key, hash) == Lookup(t', key, hash)
  }

  /** ... and every lookup gives what it gave before. */
  lemma ReorderedLookups(t: Table, order: seq<Node>, hash: Hash)
    requires Consistent(t, hash) && t.order != [] && order != []
    ensures SameLookups(t.(order := order), t, hash)
  {
    forall key
      ensures Lookup(t.(order := order), key, hash) == Lookup(t, key, hash)
    {
      ToBucketIsMod(hash(key), t, hash);
    }
  }
}
