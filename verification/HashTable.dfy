/**
 * The hash table of uthash.h in memory. Every node is in two linked structures at once, the
 * insertion order and one bucket chain; each macro is proved to take the table to the state that
 * the function of the same name in `HashModel` gives.
 */
module HashTables {
  import opened Bits
  import opened Elements
  import opened Sums
  import opened HashModel
  import opened HashConsistency
  import opened HashChains
  import MergeSorting
  import ListSort
  import Splices

  class HashTable {
    const hash: Hash
    var head: Node?
    var tail: Node?
    var buckets: array<Cell>
    var numBuckets: nat
    var log2NumBuckets: nat
    var numItems: nat
    var idealChainMaxlen: nat
    var nonidealItems: nat
    var ineffExpands: nat
    var noexpand: bool

    /** The table as a value; the one that HASH_MAKE_TABLE gives while there is no head. */
    ghost var model: Table
    ghost var chains: seq<seq<Node>>
    ghost var nodes: set<Node>

    // -------------------------------------------------------------- the invariant

    /** A sequence of nodes is linked both ways from head to tail. */
    ghost predicate OrderLinked(order: seq<Node>)
      reads this`head, this`tail, this`nodes, nodes`next, nodes`prev
    {
      && (forall i :: 0 <= i < |order| ==> order[i] in nodes)
      && ListSort.Linked(order, HashOrder)
      && head == (if order == [] then null else order[0])
      && (order != [] ==> tail == order[|order| - 1])
    }

    /** The bucket array holds the model's chains and multipliers, and every node its hash. */
    ghost predicate BucketsLinked(bs: seq<Bucket>)
      reads this`buckets, this`chains, this`nodes, buckets, nodes`hhNext, nodes`hhPrev, nodes`hashv
    {
      && CellsLinked(buckets[..], chains, nodes)
      && Placed(chains, hash)
      && bs == BucketsOf(buckets[..], chains)
      && (forall x :: x in nodes ==> x.hashv == hash(x.elem.key))
    }

    /** The counters are the table's, and the number of buckets is a power of two. */
    ghost predicate Counted(t: Table)
      reads this`numBuckets, this`log2NumBuckets, this`numItems, this`idealChainMaxlen, this`nonidealItems,
            this`ineffExpands, this`noexpand
    {
      && numBuckets == |t.buckets| == Pow2(log2NumBuckets) && log2NumBuckets == t.log2 && numItems == |t.order|
      && idealChainMaxlen == t.ideal && nonidealItems == t.nonideal && ineffExpands == t.ineff && noexpand == t.noexpand
    }

    /** The memory holds the table `t`. */
    ghost predicate Holds(t: Table)
      reads this`head, this`tail, this`nodes, this`buckets, this`chains, this`numBuckets, this`log2NumBuckets,
            this`numItems, this`idealChainMaxlen, this`nonidealItems, this`ineffExpands, this`noexpand, buckets, nodes
    {
      && nodes == NodesOf(t.order)
      && OrderLinked(t.order)
      && (t.order != [] ==> BucketsLinked(t.buckets) && Counted(t))
    }

    /** What HASH_FSCK checks: the links and counters are right, each item is in its bucket once. */
    ghost predicate Valid()
      reads this, buckets, nodes
    {
      Holds(model) && Consistent(model, hash)
    }

    constructor (hash: Hash)
      ensures Valid() && this.hash == hash && model == MakeTable() && nodes == {} && fresh(buckets)
    {
      this.hash := hash;
      head, tail := null, null;
      buckets := new Cell[0];
      numBuckets, log2NumBuckets, numItems := 0, 0, 0;
      idealChainMaxlen, nonidealItems, ineffExpands, noexpand := 0, 0, 0, false;
      model, chains, nodes := MakeTable(), [], {};
      MakeTableConsistent(hash);
    }

    // -------------------------------------------------------------- HASH_FIND

    /** HASH_FIND_IN_BKT. */
    method FindInBucket(bkt: nat, key: Key, ghost bs: seq<Bucket>) returns (out: Node?)
      requires BucketsLinked(bs) && bkt < |bs|
      ensures out == FindInChain(bs[bkt].chain, key)
    {
      ghost var chain, i := chains[bkt], 0;
      assert CellLinked(buckets[..][bkt], chain, nodes);
      out := buckets[bkt].hhHead;
      while out != null
        invariant 0 <= i <= |chain| && out == (if i < |chain| then chain[i] else null)
        invariant FindInChain(chain, key) == FindInChain(chain[i..], key)
        decreases |chain| - i
      {
        if out.elem.key == key {
          break;
        }
        assert chain[i..][1..] == chain[i + 1..];
        assert chain[i].hhNext == if i + 1 < |chain| then chain[i + 1] else null;
        out, i := out.hhNext, i + 1;
      }
    }

    method Find(key: Key) returns (out: Node?)
      requires Valid()
      ensures 0 < |model.buckets| && ToBucket(hash(key), |model.buckets|) < |model.buckets|
      ensures out == HashModel.Find(model, key, hash)
      ensures out == null <==> forall x :: x in model.order ==> x.elem.key != key
      ensures out != null ==> out in model.order && out.elem.key == key
    {
      FindCorrect(model, key, hash);
      out := null;
      if head != null {
        out := FindInBucket(ToBucket(hash(key), numBuckets), key, model.buckets);
      }
    }

    // -------------------------------------------------------------- HASH_ADD_KEYPTR

    /** HASH_MAKE_TABLE. */
    method Make()
      requires nodes == {}
      modifies this`buckets, this`chains, this`numBuckets, this`log2NumBuckets, this`numItems, this`idealChainMaxlen,
               this`nonidealItems, this`ineffExpands, this`noexpand
      ensures fresh(buckets) && BucketsLinked(MakeTable().buckets) && Counted(MakeTable())
    {
      buckets := new Cell[INITIAL_NUM_BUCKETS](_ => Cell(null, 0, 0));
      numBuckets, log2NumBuckets, numItems := INITIAL_NUM_BUCKETS, INITIAL_NUM_BUCKETS_LOG2, 0;
      idealChainMaxlen, nonidealItems, ineffExpands, noexpand := 0, 0, 0, false;
      chains := seq(INITIAL_NUM_BUCKETS, _ => []);
      assert forall b :: 0 <= b < |chains| ==> CellLinked(buckets[..][b], chains[b], nodes);
    }

    /** Append a node to the insertion order. */
    method AppendToOrder(x: Node, ghost order: seq<Node>)
      requires OrderLinked(order) && x !in order && x !in nodes
      modifies this`head, this`tail, this`nodes, nodes`next, x`next, x`prev
      ensures OrderLinked(order + [x]) && nodes == old(nodes) + {x}
    {
      x.next := null;
      if head == null {
        head := x;
        head.prev := null;
        tail := x;
      } else {
        tail.next := x;
        x.prev := tail;
        tail := x;
      }
      nodes := nodes + {x};
      assert forall i :: 0 <= i < |order| ==> (order + [x])[i] == order[i] && order[i] != x;
    }

    /** HASH_ADD_TO_BKT up to the threshold test. */
    method AddToBucket(x: Node, bkt: nat, ghost bs: seq<Bucket>, ghost bs': seq<Bucket>)
      requires BucketsLinked(bs) && x in nodes && bkt < |bs| && hash(x.elem.key) % |bs| == bkt && x !in bs[bkt].chain
      requires bs' == bs[bkt := bs[bkt].(chain := [x] + bs[bkt].chain)]
      modifies this`chains, buckets, nodes`hhNext, nodes`hhPrev
      ensures BucketsLinked(bs')
    {
      PushOnto(buckets, bkt, x, chains, nodes, hash);
      ghost var cells := buckets[..];
      chains := chains[bkt := [x] + chains[bkt]];
      assert buckets[..] == cells;
    }

    lemma ExpandFields(t: Table, ideal: nat, nonideal: nat, ineff: nat) returns (t': Table)
      requires 0 < ideal == IdealLength(|t.order|, t.log2)
      requires nonideal == Sum(Excesses(NewBuckets(t.buckets, ideal, hash), ideal))
      requires ineff == if nonideal > ShiftRight(|t.order|, 1) then t.ineff + 1 else 0
      ensures Expanded(t, t', hash)
      ensures t' == Table(t.order, NewBuckets(t.buckets, ideal, hash), t.log2 + 1, ideal, nonideal, ineff, t.noexpand || ineff > 1)
    {
      t' := HashModel.Expand(t, hash);
    }

    /** HASH_EXPAND_BUCKETS. */
    method ExpandBuckets(ghost t: Table) returns (ghost t': Table)
      requires BucketsLinked(t.buckets) && Counted(t) && t.order != []
      modifies this`buckets, this`chains, this`numBuckets, this`log2NumBuckets, this`idealChainMaxlen,
               this`nonidealItems, this`ineffExpands, this`noexpand, nodes`hhNext, nodes`hhPrev
      ensures fresh(buckets) && Expanded(t, t', hash) && BucketsLinked(t'.buckets) && Counted(t')
    {
      IdealPositive(|t.order|, t.log2);
      assert Pow2(t.log2 + 1) == 2 * Pow2(t.log2);
      var ideal := ShiftRight(numItems, log2NumBuckets + 1) + (if And(numItems, numBuckets * 2 - 1) != 0 then 1 else 0);
      var cells, nonideal;
      ghost var chains';
      cells, nonideal, chains' := Rehash(buckets, ideal, hash, t.log2 + 1, t, chains, nodes);
      var ineff := if nonideal > ShiftRight(numItems, 1) then ineffExpands + 1 else 0;
      t' := ExpandFields(t, ideal, nonideal, ineff);
      Install(cells, ideal, nonideal, ineff, t, t', chains');
    }

    /** Put the new bucket array and the statistics in place. */
    method Install(cells: array<Cell>, ideal: nat, nonideal: nat, ineff: nat,
                   ghost t: Table, ghost t': Table, ghost chains': seq<seq<Node>>)
      requires Counted(t) && t'.order == t.order && t'.log2 == t.log2 + 1 && |chains'| == 2 * |t.buckets|
      requires t'.ideal == ideal && t'.nonideal == nonideal && t'.ineff == ineff && t'.noexpand == (t.noexpand || ineff > 1)
      requires CellsLinked(cells[..], chains', nodes) && Placed(chains', hash) && t'.buckets == BucketsOf(cells[..], chains')
      requires forall x :: x in nodes ==> x.hashv == hash(x.elem.key)
      modifies this`buckets, this`chains, this`numBuckets, this`log2NumBuckets, this`idealChainMaxlen,
               this`nonidealItems, this`ineffExpands, this`noexpand
      ensures buckets == cells && BucketsLinked(t'.buckets) && Counted(t')
    {
      ghost var cells1 := cells[..];
      assert Pow2(t.log2 + 1) == 2 * Pow2(t.log2);
      numBuckets, log2NumBuckets, buckets, chains := numBuckets * 2, log2NumBuckets + 1, cells, chains';
      idealChainMaxlen, nonidealItems, ineffExpands := ideal, nonideal, ineff;
      if ineffExpands > 1 {
        noexpand := true;
      }
      assert buckets[..] == cells1;
    }

    /** Link a node into the order and give it its hash value. */
    method LinkIntoOrder(x: Node, ghost t: Table)
      requires nodes == NodesOf(t.order) && OrderLinked(t.order) && BucketsLinked(t.buckets) && x !in t.order
      modifies this`head, this`tail, this`nodes, this`numItems, nodes`next, x`next, x`prev, x`hashv
      ensures nodes == old(nodes) + {x} && numItems == old(numItems) + 1 && x.hashv == hash(x.elem.key)
      ensures OrderLinked(t.order + [x]) && BucketsLinked(t.buckets)
    {
      ghost var nodes0, cells := nodes, buckets[..];
      AppendToOrder(x, t.order);
      numItems := numItems + 1;
      x.hashv := hash(x.elem.key);
      NodesAdded(cells, chains, nodes0, nodes);
      assert buckets[..] == cells;
    }

    /** Link a node into the order and into its bucket. */
    method LinkIn(x: Node, bkt: nat, ghost t: Table, ghost t': Table)
      requires nodes == NodesOf(t.order) && OrderLinked(t.order)
      requires BucketsLinked(t.buckets) && Counted(t) && x !in t.order
      requires bkt < |t.buckets| && hash(x.elem.key) % |t.buckets| == bkt && x !in t.buckets[bkt].chain
      requires t' == t.(order := t.order + [x], buckets := t.buckets[bkt := t.buckets[bkt].(chain := [x] + t.buckets[bkt].chain)])
      modifies this`head, this`tail, this`nodes, this`numItems, this`chains, buckets, nodes, x
      ensures nodes == NodesOf(t'.order) && OrderLinked(t'.order)
      ensures BucketsLinked(t'.buckets) && Counted(t')
    {
      NodesOfAppended(t.order, x);
      LinkIntoOrder(x, t);
      assert Counted(t');
      AddToBucket(x, bkt, t.buckets, t'.buckets);
    }

    /** The threshold test at the end of HASH_ADD_TO_BKT. */
    method ExpandIfFull(bkt: nat, ghost t: Table) returns (ghost t': Table)
      requires BucketsLinked(t.buckets) && Counted(t) && t.order != [] && bkt < |t.buckets| && OrderLinked(t.order)
      modifies this`buckets, this`chains, this`numBuckets, this`log2NumBuckets, this`idealChainMaxlen,
               this`nonidealItems, this`ineffExpands, this`noexpand, nodes`hhNext, nodes`hhPrev
      ensures buckets == old(buckets) || fresh(buckets)
      ensures BucketsLinked(t'.buckets) && Counted(t') && t'.order == t.order && OrderLinked(t'.order)
      ensures
        var b := t.buckets[bkt];
        if |b.chain| >= (b.mult + 1) * BKT_CAPACITY_THRESH && !t.noexpand then Expanded(t, t', hash) else t' == t
    {
      t' := t;
      assert CellLinked(buckets[..][bkt], chains[bkt], nodes);
      if buckets[bkt].count >= (buckets[bkt].mult + 1) * BKT_CAPACITY_THRESH && !noexpand {
        t' := ExpandBuckets(t);
      }
    }

    /** The first add makes the table. */
    method MakeIfEmpty(ghost t: Table)
      requires Holds(t) && (t.order == [] ==> t == MakeTable())
      modifies this`buckets, this`chains, this`numBuckets, this`log2NumBuckets, this`numItems, this`idealChainMaxlen,
               this`nonidealItems, this`ineffExpands, this`noexpand
      ensures buckets == old(buckets) || fresh(buckets)
      ensures BucketsLinked(t.buckets) && Counted(t)
    {
      if head == null {
        Make();
      }
    }

    lemma NotInBucket(x: Node, b: nat, bs: seq<Bucket>)
      requires BucketsLinked(bs) && x !in nodes && b < |bs|
      ensures x !in bs[b].chain
    {
      assert CellLinked(buckets[..][b], chains[b], nodes);
    }

    /** Which bucket a new node goes to, and the table with it linked in. */
    method ChooseBucket(x: Node, ghost t: Table) returns (bkt: nat, ghost linked: Table)
      requires BucketsLinked(t.buckets) && Counted(t) && x !in nodes
      ensures 0 < |t.buckets| && bkt == ToBucket(hash(x.elem.key), |t.buckets|) == hash(x.elem.key) % |t.buckets| < |t.buckets|
      ensures x !in t.buckets[bkt].chain && linked == HashModel.Linked(t, x, hash)
    {
      ToBucketOfPower(hash(x.elem.key), numBuckets, log2NumBuckets);
      bkt := ToBucket(hash(x.elem.key), numBuckets);
      NotInBucket(x, bkt, t.buckets);
      linked := HashModel.Linked(t, x, hash);
    }

    lemma AddedBy(x: Node, t: Table, bkt: nat, linked: Table, t': Table)
      requires 0 < |t.buckets| && bkt == ToBucket(hash(x.elem.key), |t.buckets|) < |t.buckets|
      requires linked == HashModel.Linked(t, x, hash)
      requires
        var b := linked.buckets[bkt];
        if |b.chain| >= (b.mult + 1) * BKT_CAPACITY_THRESH && !t.noexpand then Expanded(linked, t', hash) else t' == linked
      ensures Added(t, x, t', hash) && t'.order == t.order + [x]
    {
      IdealPositive(|t.order| + 1, t.log2);
    }

    /** Link a node in and expand if its bucket is full. */
    method LinkAndExpand(x: Node, ghost t: Table) returns (ghost t': Table)
      requires nodes == NodesOf(t.order) && OrderLinked(t.order)
      requires BucketsLinked(t.buckets) && Counted(t) && x !in t.order
      modifies this, buckets, nodes, x
      ensures buckets == old(buckets) || fresh(buckets)
      ensures nodes == NodesOf(t'.order) && OrderLinked(t'.order)
      ensures BucketsLinked(t'.buckets) && Counted(t') && t'.order != [] && Added(t, x, t', hash)
    {
      var bkt;
      ghost var linked;
      bkt, linked := ChooseBucket(x, t);
      LinkIn(x, bkt, t, linked);
      t' := ExpandIfFull(bkt, linked);
      AddedBy(x, t, bkt, linked, t');
    }

    /** HASH_ADD_KEYPTR on the memory. */
    method Insert(x: Node, ghost t: Table) returns (ghost t': Table)
      requires Holds(t) && x !in t.order && (t.order == [] ==> t == MakeTable())
      modifies this, buckets, nodes, x
      ensures Holds(t') && Added(t, x, t', hash) && (buckets == old(buckets) || fresh(buckets))
    {
      MakeIfEmpty(t);
      t' := LinkAndExpand(x, t);
    }

    /** HASH_ADD_KEYPTR. */
    method Add(x: Node)
      requires Valid() && x !in model.order
      modifies this, buckets, nodes, x
      ensures Valid() && Added(old(model), x, model, hash) && model.order == old(model).order + [x]
      ensures nodes == NodesOf(model.order) && (buckets == old(buckets) || fresh(buckets))
    {
      AddConsistent(model, x, hash);
      ghost var t' := Insert(x, model);
      Record(t');
    }

    ghost method Record(t: Table)
      requires Holds(t)
      modifies this`model
      ensures Holds(t) && model == t
    {
      model := t;
    }

    // -------------------------------------------------------------- HASH_DELETE

    /** Take a node out of the insertion order. */
    method UnlinkFromOrder(x: Node, ghost order: seq<Node>, ghost k: nat)
      requires OrderLinked(order) && 1 < |order| && k < |order| && order[k] == x
      modifies this`head, this`tail, nodes`next, nodes`prev
      ensures OrderLinked(Splices.Cut(order, k))
    {
      assert order[k].next == ListSort.Successor(order, k, false);
      assert order[k].prev == if k > 0 then order[k - 1] else null;
      if x == tail {
        tail := x.prev;
      }
      if x.prev != null {
        x.prev.next := x.next;
      } else {
        head := x.next;
      }
      if x.next != null {
        x.next.prev := x.prev;
      }
      Splices.CutNext(order, k, false, k - 1);
      Splices.CutPrev(order, k, HashOrder, if k + 1 < |order| then k + 1 else -1);
      Splices.CutDistinct(order, k);
    }

    /** HASH_DEL_IN_BKT. */
    method DeleteFromBucket(x: Node, bkt: nat, ghost bs: seq<Bucket>, ghost bs': seq<Bucket>, ghost j: nat)
      requires BucketsLinked(bs) && bkt < |bs| && j < |bs[bkt].chain| && bs[bkt].chain[j] == x
      requires bs' == bs[bkt := bs[bkt].(chain := bs[bkt].chain[..j] + bs[bkt].chain[j + 1..])]
      modifies this`chains, buckets, nodes`hhNext, nodes`hhPrev
      ensures BucketsLinked(bs')
    {
      RemoveFrom(buckets, bkt, x, chains, j, nodes, hash);
      ghost var cells := buckets[..];
      chains := chains[bkt := chains[bkt][..j] + chains[bkt][j + 1..]];
      assert buckets[..] == cells;
    }

    /** A node that is in neither structure any more is no longer the table's. */
    ghost method Forget(x: Node, t: Table)
      requires OrderLinked(t.order) && BucketsLinked(t.buckets) && x !in t.order
      requires forall b :: 0 <= b < |t.buckets| ==> x !in t.buckets[b].chain
      modifies this`nodes
      ensures OrderLinked(t.order) && BucketsLinked(t.buckets) && nodes == old(nodes) - {x}
    {
      assert forall b :: 0 <= b < |chains| ==> chains[b] == t.buckets[b].chain;
      NodeRemoved(buckets[..], chains, nodes, x);
      nodes := nodes - {x};
    }

    /** Take a node out of both structures. */
    method UnlinkBoth(x: Node, bkt: nat, ghost order: seq<Node>, ghost bs: seq<Bucket>, ghost bs': seq<Bucket>,
                      ghost k: nat, ghost j: nat)
      requires OrderLinked(order) && 1 < |order| && k < |order| && order[k] == x
      requires BucketsLinked(bs) && bkt < |bs| && j < |bs[bkt].chain| && bs[bkt].chain[j] == x
      requires bs' == bs[bkt := bs[bkt].(chain := bs[bkt].chain[..j] + bs[bkt].chain[j + 1..])]
      modifies this`head, this`tail, this`chains, buckets, nodes`next, nodes`prev, nodes`hhNext, nodes`hhPrev
      ensures OrderLinked(Splices.Cut(order, k)) && BucketsLinked(bs')
    {
      UnlinkFromOrder(x, order, k);
      DeleteFromBucket(x, bkt, bs, bs', j);
    }

    /** HASH_DELETE on the memory, when other items remain. */
    method Unlink(x: Node, ghost t: Table, ghost t': Table, ghost k: nat, ghost j: nat)
      requires Holds(t) && 1 < |t.order| && k < |t.order| && t.order[k] == x
      requires
        var b := hash(x.elem.key) % |t.buckets|;
        && j < |t.buckets[b].chain| && t.buckets[b].chain[j] == x
        && t' == t.(order := t.order[..k] + t.order[k + 1..],
                    buckets := t.buckets[b := t.buckets[b].(chain := t.buckets[b].chain[..j] + t.buckets[b].chain[j + 1..])])
      requires x !in t'.order && forall b :: 0 <= b < |t'.buckets| ==> x !in t'.buckets[b].chain
      modifies this`head, this`tail, this`nodes, this`numItems, this`chains, buckets, nodes
      ensures Holds(t')
    {
      var bkt := ToBucket(x.hashv, numBuckets);
      ToBucketOfPower(x.hashv, numBuckets, log2NumBuckets);
      UnlinkBoth(x, bkt, t.order, t.buckets, t'.buckets, k, j);
      DropItem(x, t, t', k);
    }

    /** Count the node out. */
    method DropItem(x: Node, ghost t: Table, ghost t': Table, ghost k: nat)
      requires nodes == NodesOf(t.order) && NoDuplicates(t.order) && k < |t.order| && t.order[k] == x && x !in t'.order
      requires t'.order == t.order[..k] + t.order[k + 1..] && |t'.buckets| == |t.buckets|
      requires t' == t.(order := t'.order, buckets := t'.buckets) && Counted(t)
      requires OrderLinked(t'.order) && BucketsLinked(t'.buckets)
      requires forall b :: 0 <= b < |t'.buckets| ==> x !in t'.buckets[b].chain
      modifies this`numItems, this`nodes
      ensures Holds(t')
    {
      NodesOfCut(t.order, k);
      numItems := numItems - 1;
      Forget(x, t');
    }

    /** Without neighbours the node is the only item. */
    lemma SoleNode(x: Node, t: Table)
      requires Holds(t) && x in t.order
      ensures x.prev == null && x.next == null <==> t.order == [x]
    {
      var k :| 0 <= k < |t.order| && t.order[k] == x;
      assert t.order[k].next == ListSort.Successor(t.order, k, false);
      assert t.order[k].prev == if k > 0 then t.order[k - 1] else null;
    }

    /** HASH_DELETE on the memory; deleting the only item frees the table. */
    method DeleteNode(x: Node, ghost t: Table, ghost t': Table, ghost k: nat, ghost j: nat)
      requires Holds(t) && x in t.order
      requires
        if t.order == [x] then t' == MakeTable()
        else
          && 1 < |t.order| && k < |t.order| && t.order[k] == x
          && var b := hash(x.elem.key) % |t.buckets|;
          && j < |t.buckets[b].chain| && t.buckets[b].chain[j] == x
          && t' == t.(order := t.order[..k] + t.order[k + 1..],
                      buckets := t.buckets[b := t.buckets[b].(chain := t.buckets[b].chain[..j] + t.buckets[b].chain[j + 1..])])
          && x !in t'.order && forall b :: 0 <= b < |t'.buckets| ==> x !in t'.buckets[b].chain
      modifies this`head, this`tail, this`nodes, this`numItems, this`chains, buckets, nodes
      ensures Holds(t')
    {
      SoleNode(x, t);
      if x.prev == null && x.next == null {
        head, nodes := null, {};
      } else {
        Unlink(x, t, t', k, j);
      }
    }

    /** HASH_DELETE. */
    method Delete(x: Node)
      requires Valid() && x in model.order
      modifies this`head, this`tail, this`nodes, this`numItems, this`chains, this`model, buckets, nodes
      ensures Valid() && model.order == Without(old(model).order, x) && Deleted(old(model), x, model, hash)
      ensures nodes == NodesOf(model.order)
    {
      DeleteConsistent(model, x, hash);
      ghost var t' := HashModel.Delete(model, x, hash);
      DeleteItem(x, model, t');
      Record(t');
    }

    method DeleteItem(x: Node, ghost t: Table, ghost t': Table)
      requires Holds(t) && Consistent(t, hash) && x in t.order && Deleted(t, x, t', hash)
      modifies this`head, this`tail, this`nodes, this`numItems, this`chains, buckets, nodes
      ensures Holds(t')
    {
      ghost var k, j := 0, 0;
      if t.order != [x] {
        k, j := DeletedParts(t, t', x, hash);
      }
      DeleteNode(x, t, t', k, j);
    }

    // -------------------------------------------------------------- HASH_SRT

    method SortOrder(cmp: MergeSorting.Compare, ghost order: seq<Node>) returns (ghost r: seq<Node>)
      requires OrderLinked(order) && nodes == NodesOf(order) && order != [] && MergeSorting.TotalPreorder(cmp)
      modifies this`head, this`tail, nodes`next, nodes`prev
      ensures r == MergeSorting.SortFrom(order, 1, cmp) && NoDuplicates(r)
      ensures nodes == NodesOf(r) && OrderLinked(r)
    {
      MergeSorting.SortKeepsMembers(order, cmp);
      head, tail, r := ListSort.SortList(head, HashOrder, cmp, order);
      assert forall i :: 0 <= i < |r| ==> r[i] in NodesOf(r);
    }

    method SortTable(cmp: MergeSorting.Compare, ghost t: Table) returns (ghost r: seq<Node>)
      requires Holds(t) && t.order != [] && MergeSorting.TotalPreorder(cmp)
      modifies this`head, this`tail, nodes`next, nodes`prev
      ensures r == MergeSorting.SortFrom(t.order, 1, cmp) && NoDuplicates(r) && Holds(t.(order := r))
    {
      r := SortOrder(cmp, t.order);
    }

    /** Sort the insertion order in place. The chains, and so all lookups, stay as they are. */
    method Sort(cmp: MergeSorting.Compare)
      requires Valid() && MergeSorting.TotalPreorder(cmp)
      modifies this`head, this`tail, this`model, nodes`next, nodes`prev
      ensures Valid() && MergeSorting.StablySorted(old(model).order, model.order, cmp)
      ensures model == old(model).(order := model.order) && SameLookups(model, old(model), hash)
    {
      if head != null {
        ghost var t := model;
        ghost var r := SortTable(cmp, t);
        MergeSorting.SortIsStable(t.order, cmp);
        ReorderedConsistent(t, r, hash);
        ReorderedLookups(t, r, hash);
        Record(t.(order := r));
      }
    }

    // -------------------------------------------------------------- walking the insertion order

    lemma NextItem(k: nat)
      requires Valid() && k < |model.order|
      ensures model.order[k].next == if k + 1 < |model.order| then model.order[k + 1] else null
    {
      assert model.order[k].next == ListSort.Successor(model.order, k, false);
    }

    // -------------------------------------------------------------- am_assca_release

    /** The cursors of the safe iteration: the first item and its successor. */
    ghost predicate AtFront(el: Node?, tmp: Node?)
      reads this`model
    {
      && el == (if model.order == [] then null else model.order[0])
      && tmp == (if |model.order| > 1 then model.order[1] else null)
    }

    lemma HeadSuccessor()
      requires Valid()
      ensures AtFront(head, if head != null then head.next else null)
    {
      assert model.order != [] ==> model.order[0].next == ListSort.Successor(model.order, 0, false);
    }

    /** One round of the releasing loop: delete the current item and step to the saved successor. */
    method ReleaseNext(el: Node, tmp: Node?) returns (el': Node?, tmp': Node?)
      requires Valid() && AtFront(el, tmp)
      modifies this`head, this`tail, this`nodes, this`numItems, this`chains, this`model, buckets, nodes
      ensures Valid() && model.order == old(model).order[1..] && nodes <= old(nodes) && AtFront(el', tmp')
    {
      Delete(el);
      el' := tmp;
      HeadSuccessor();
      tmp' := if tmp != null then tmp.next else null;
    }

    /** Delete every item while iterating over them; the successor is read before each delete. */
    method Release()
      requires Valid()
      modifies this`head, this`tail, this`nodes, this`numItems, this`chains, this`model, buckets, nodes
      ensures Valid() && model == MakeTable()
    {
      var el := head;
      var tmp := if head != null then head.next else null;
      HeadSuccessor();
      while el != null
        invariant Valid() && nodes <= old(nodes) && AtFront(el, tmp)
        decreases |model.order|
      {
        el, tmp := ReleaseNext(el, tmp);
      }
    }
  }
}
