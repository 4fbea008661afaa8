/**
 * One key written again and again, under any hash function: which writes read back. All items are
 * in one bucket, and the first two ineffective expansions end expansion for good.
 */
module HashRewrites {
  import opened Bits
  import opened Elements
  import opened Sums
  import opened HashModel
  import opened HashConsistency
  import opened HashLoad
  import opened HashRuns

  function Inserts(nodes: seq<Node>): (ops: seq<Op>)
    ensures |ops| == |nodes| && forall i :: 0 <= i < |nodes| ==> ops[i] == Insert(nodes[i])
  {
    seq(|nodes|, i requires 0 <= i < |nodes| => Insert(nodes[i]))
  }

  ghost predicate AllHave(order: seq<Node>, key: Key) {
    forall x :: x in order ==> x.elem.key == key
  }

  lemma EmptyWithoutMembers(s: seq<Node>)
    ensures (forall x :: x !in s) ==> s == []
  {
    if s != [] {
      assert s[0] in s;
    }
  }

  /** The bucket of the key holds every item and the other buckets none. */
  lemma SoleBucket(t: Table, key: Key, hash: Hash)
    requires Consistent(t, hash) && AllHave(t.order, key)
    ensures |t.buckets[hash(key) % |t.buckets|].chain| == |t.order|
    ensures forall b :: 0 <= b < |t.buckets| && b != hash(key) % |t.buckets| ==> t.buckets[b].chain == []
  {
    var home := hash(key) % |t.buckets|;
    forall b | 0 <= b < |t.buckets| && b != home
      ensures t.buckets[b].chain == []
    {
      var chain := t.buckets[b].chain;
      assert ChainOf(chain, b, t, hash);
      EmptyWithoutMembers(chain);
    }
    SumSingle(Counts(t.buckets), home);
  }

  lemma SmallIdeal(items: nat, log2: nat)
    requires 0 < items <= 2 * Pow2(log2)
    ensures IdealLength(items, log2) == 1
  {
    IdealIsCeiling(items, log2);
    var n := 2 * Pow2(log2);
    if items < n {
      DivModUnique(items, n, 0, items);
    } else {
      DivModUnique(items, n, 1, 0);
    }
  }

  /** Expanding a table whose items all share a bucket and are fewer than the new buckets is ineffective. */
  lemma SoleExpansion(t: Table, key: Key, hash: Hash)
    requires Consistent(t, hash) && AllHave(t.order, key) && 3 <= |t.order| <= 2 * |t.buckets|
    ensures 0 < IdealLength(|t.order|, t.log2)
    ensures
      var t' := Expand(t, hash);
      && Consistent(t', hash) && t'.order == t.order && t'.log2 == t.log2 + 1
      && t'.buckets[hash(key) % |t'.buckets|].mult == |t.order|
      && t'.ineff == t.ineff + 1 && (t'.noexpand <==> t.noexpand || t'.ineff > 1)
  {
    SmallIdeal(|t.order|, t.log2);
    ExpandConsistent(t, hash);
    ExpandExact(t, hash);
    var t' := Expand(t, hash);
    var home := hash(key) % |t'.buckets|;
    SoleBucket(t', key, hash);
    assert MultExact(t'.buckets[home], 1);
    SumSingle(WithinIdeal(t'.buckets, 1), home);
  }

  /** The table after `n` writes of the key. */
  ghost predicate Rewritten(t: Table, key: Key, n: nat, hash: Hash) {
    && Consistent(t, hash) && AllHave(t.order, key) && |t.order| == n
    && var mult := t.buckets[hash(key) % |t.buckets|].mult;
    && (n < 10 ==> mult == 0 && t.log2 == 5 && t.ineff == 0 && !t.noexpand)
    && (10 <= n < 110 ==> mult == 10 && t.log2 == 6 && t.ineff == 1 && !t.noexpand)
    && (110 <= n ==> t.log2 == 7 && t.noexpand)
  }

  lemma RewriteTriggers(t: Table, x: Node, n: nat, hash: Hash)
    requires Rewritten(t, x.elem.key, n, hash)
    ensures 0 < |t.buckets| && ToBucket(hash(x.elem.key), |t.buckets|) < |t.buckets|
    ensures Triggers(t, x, hash) <==> n + 1 == 10 || n + 1 == 110
  {
    ToBucketIsMod(hash(x.elem.key), t, hash);
    SoleBucket(t, x.elem.key, hash);
  }

  lemma RewriteExpands(linked: Table, key: Key, n: nat, hash: Hash)
    requires Consistent(linked, hash) && AllHave(linked.order, key) && |linked.order| == n && !linked.noexpand
    requires (n == 10 && linked.log2 == 5 && linked.ineff == 0) || (n == 110 && linked.log2 == 6 && linked.ineff == 1)
    ensures 0 < IdealLength(|linked.order|, linked.log2)
    ensures Rewritten(Expand(linked, hash), key, n, hash)
  {
    assert Pow2(5) == 32 && Pow2(6) == 64;
    SoleExpansion(linked, key, hash);
  }

  lemma RewriteStep(h: History, x: Node, n: nat, hash: Hash)
    requires Rewritten(h.table, x.elem.key, n, hash) && x !in h.table.order
    ensures Rewritten(Step(h, Insert(x), hash).table, x.elem.key, n + 1, hash)
    ensures Step(h, Insert(x), hash).table.order == h.table.order + [x]
  {
    var t, key := h.table, x.elem.key;
    AddConsistent(t, x, hash);
    RewriteTriggers(t, x, n, hash);
    ToBucketIsMod(hash(key), t, hash);
    LinkedConsistent(t, x, hash);
    var linked := Linked(t, x, hash);
    assert AllHave(linked.order, key);
    if Triggers(t, x, hash) {
      RewriteExpands(linked, key, n + 1, hash);
    } else {
      assert linked.buckets[hash(key) % |t.buckets|].mult == t.buckets[hash(key) % |t.buckets|].mult;
    }
  }

  lemma RewriteStart(key: Key, hash: Hash)
    ensures Rewritten(MakeTable(), key, 0, hash)
  {
    MakeTableConsistent(hash);
  }

  lemma InsertsExtended(nodes: seq<Node>, x: Node)
    requires NoDuplicates(nodes + [x])
    ensures Inserts(nodes + [x]) == Inserts(nodes) + [Insert(x)]
    ensures NoDuplicates(nodes) && x !in nodes
  {
    var all := nodes + [x];
    assert all[..|nodes|] == nodes;
    assert forall i :: 0 <= i < |nodes| ==> nodes[i] == all[i] != all[|nodes|];
  }

  lemma {:induction false} RewriteRun(nodes: seq<Node>, key: Key, hash: Hash)
    requires NoDuplicates(nodes) && AllHave(nodes, key)
    ensures Run(Inserts(nodes), hash).table.order == nodes
    ensures Rewritten(Run(Inserts(nodes), hash).table, key, |nodes|, hash)
  {
    if nodes == [] {
      assert Inserts(nodes) == [];
      RewriteStart(key, hash);
    } else {
      var k := |nodes| - 1;
      var init, x := nodes[..k], nodes[k];
      assert nodes == init + [x];
      InsertsExtended(init, x);
      RewriteRun(init, key, hash);
      RunExtended(Inserts(init), Insert(x), hash);
      RewriteStep(Run(Inserts(init), hash), x, k, hash);
    }
  }

  /** The last of the writes reads back. */
  ghost predicate LastReadsBack(nodes: seq<Node>, hash: Hash) {
    && nodes != []
    && var t, x := Run(Inserts(nodes), hash).table, nodes[|nodes| - 1];
    && t.order == nodes && 0 < |t.buckets| && ToBucket(hash(x.elem.key), |t.buckets|) < |t.buckets|
    && Find(t, x.elem.key, hash) == x
  }

  /** The table that the last write meets. */
  lemma BeforeLast(nodes: seq<Node>, key: Key, hash: Hash) returns (init: seq<Node>, x: Node)
    requires nodes != [] && NoDuplicates(nodes) && AllHave(nodes, key)
    ensures nodes == init + [x] && x.elem.key == key && x !in Reference(Inserts(init))
    ensures Inserts(nodes) == Inserts(init) + [Insert(x)]
    ensures Run(Inserts(init), hash).table.order == init && Rewritten(Run(Inserts(init), hash).table, key, |init|, hash)
  {
    init, x := nodes[..|nodes| - 1], nodes[|nodes| - 1];
    assert nodes == init + [x];
    InsertsExtended(init, x);
    RewriteRun(init, key, hash);
    RunOrder(Inserts(init), hash);
  }

  lemma BucketsAfter(nodes: seq<Node>, key: Key, hash: Hash)
    requires NoDuplicates(nodes) && AllHave(nodes, key)
    ensures |Run(Inserts(nodes), hash).table.buckets| == if |nodes| < 10 then 32 else if |nodes| < 110 then 64 else 128
  {
    RewriteRun(nodes, key, hash);
    assert Pow2(5) == 32 && Pow2(6) == 64 && Pow2(7) == 128;
  }

  /**
   * However often one key is written, under any hash function, the value written last reads back
   * after every write but the tenth and the hundred-and-tenth. All writes stay live.
   */
  lemma RewritesReadBackIff(nodes: seq<Node>, key: Key, hash: Hash)
    requires nodes != [] && NoDuplicates(nodes) && AllHave(nodes, key)
    ensures Run(Inserts(nodes), hash).table.order == nodes
    ensures LastReadsBack(nodes, hash) <==> |nodes| != 10 && |nodes| != 110
  {
    var init, x := BeforeLast(nodes, key, hash);
    var t := Run(Inserts(init), hash).table;
    RewriteTriggers(t, x, |init|, hash);
    ReadAfterWrite(Inserts(init), x, hash);
    assert (forall u :: u in t.order ==> u.elem.key != key) <==> init == [] by {
      assert init == [] || init[0] in init;
    }
  }
}
