/**
 * Bucket chains in memory: an array of bucket heads whose chains are linked through `hhNext`
 * and `hhPrev`, and the relinking that HASH_ADD_TO_BKT, HASH_DEL_IN_BKT and
 * HASH_EXPAND_BUCKETS do on it.
 */
module HashChains {
  import opened Bits
  import opened Elements
  import opened Sums
  import opened HashModel
  import opened HashConsistency

  /** UT_hash_bucket. */
  datatype Cell = Cell(hhHead: Node?, count: nat, mult: nat)

  ghost predicate ChainLinked(chain: seq<Node>, hhHead: Node?)
    reads chain`hhNext, chain`hhPrev
  {
    && hhHead == (if chain == [] then null else chain[0])
    && (forall i {:trigger chain[i].hhNext} :: 0 <= i < |chain| ==>
          chain[i].hhNext == if i + 1 < |chain| then chain[i + 1] else null)
    && (forall i {:trigger chain[i].hhPrev} :: 0 <= i < |chain| ==>
          chain[i].hhPrev == if i > 0 then chain[i - 1] else null)
  }

  ghost predicate CellLinked(cell: Cell, chain: seq<Node>, nodes: set<Node>)
    reads nodes`hhNext, nodes`hhPrev
  {
    && (forall i :: 0 <= i < |chain| ==> chain[i] in nodes)
    && cell.count == |chain|
    && ChainLinked(chain, cell.hhHead)
  }

  ghost predicate CellsLinked(cells: seq<Cell>, chains: seq<seq<Node>>, nodes: set<Node>)
    reads nodes`hhNext, nodes`hhPrev
  {
    |cells| == |chains| && forall b :: 0 <= b < |chains| ==> CellLinked(cells[b], chains[b], nodes)
  }

  /** Each chain holds distinct nodes whose hash selects it, so no two chains share a node. */
  ghost predicate Placed(chains: seq<seq<Node>>, hash: Hash) {
    forall b :: 0 <= b < |chains| ==> PlacedAt(chains[b], b, |chains|, hash)
  }

  ghost predicate PlacedAt(chain: seq<Node>, b: nat, n: nat, hash: Hash)
    requires 0 < n
  {
    NoDuplicates(chain) && forall i :: 0 <= i < |chain| ==> hash(chain[i].elem.key) % n == b
  }

  /** Push a node on the front of a bucket. */
  method PushOnto(cells: array<Cell>, b: nat, x: Node, ghost chains: seq<seq<Node>>, ghost nodes: set<Node>, hash: Hash)
    requires b < cells.Length && CellsLinked(cells[..], chains, nodes) && Placed(chains, hash)
    requires x in nodes && hash(x.elem.key) % |chains| == b && x !in chains[b]
    modifies cells, nodes`hhNext, nodes`hhPrev
    ensures cells[..] == old(cells[..])[b := Cell(x, old(cells[b]).count + 1, old(cells[b]).mult)]
    ensures CellsLinked(cells[..], chains[b := [x] + chains[b]], nodes) && Placed(chains[b := [x] + chains[b]], hash)
    ensures forall y :: y in nodes && y != x ==> y.hhNext == old(y.hhNext)
  {
    ghost var chain := chains[b];
    assert CellLinked(cells[..][b], chain, nodes) && PlacedAt(chain, b, |chains|, hash);
    var first := cells[b].hhHead;
    cells[b] := cells[b].(count := cells[b].count + 1);
    x.hhNext := first;
    x.hhPrev := null;
    if first != null {
      first.hhPrev := x;
    }
    cells[b] := cells[b].(hhHead := x);
    ghost var chains' := chains[b := [x] + chain];
    forall c | 0 <= c < |chains|
      ensures CellLinked(cells[..][c], chains'[c], nodes) && PlacedAt(chains'[c], c, |chains|, hash)
    {
      assert old(CellLinked(cells[..][c], chains[c], nodes)) && PlacedAt(chains[c], c, |chains|, hash);
    }
  }

  /** Take a node out of a chain. */
  method CutOut(cell: Cell, x: Node, ghost chain: seq<Node>, ghost k: nat) returns (cell': Cell)
    requires k < |chain| && chain[k] == x && NoDuplicates(chain)
    requires cell.count == |chain| && ChainLinked(chain, cell.hhHead)
    modifies chain`hhNext, chain`hhPrev
    ensures cell'.count == |chain| - 1 && cell'.mult == cell.mult
    ensures ChainLinked(chain[..k] + chain[k + 1..], cell'.hhHead)
  {
    assert chain[k].hhNext == (if k + 1 < |chain| then chain[k + 1] else null);
    assert chain[k].hhPrev == (if k > 0 then chain[k - 1] else null);
    cell' := cell.(count := cell.count - 1);
    if cell'.hhHead == x {
      cell' := cell'.(hhHead := x.hhNext);
    }
    if x.hhPrev != null {
      x.hhPrev.hhNext := x.hhNext;
    }
    if x.hhNext != null {
      x.hhNext.hhPrev := x.hhPrev;
    }
    ghost var chain' := chain[..k] + chain[k + 1..];
    assert forall i :: 0 <= i < |chain'| ==> chain'[i] == chain[if i < k then i else i + 1];
  }

  /** Take a node out of its bucket. */
  method RemoveFrom(cells: array<Cell>, b: nat, x: Node, ghost chains: seq<seq<Node>>, ghost k: nat,
                    ghost nodes: set<Node>, hash: Hash)
    requires b < cells.Length && CellsLinked(cells[..], chains, nodes) && Placed(chains, hash)
    requires k < |chains[b]| && chains[b][k] == x
    modifies cells, nodes`hhNext, nodes`hhPrev
    ensures |cells[..]| == |old(cells[..])| && cells[b].mult == old(cells[b]).mult
    ensures cells[..] == old(cells[..])[b := cells[b]]
    ensures CellsLinked(cells[..], chains[b := chains[b][..k] + chains[b][k + 1..]], nodes)
    ensures Placed(chains[b := chains[b][..k] + chains[b][k + 1..]], hash)
  {
    ghost var chain := chains[b];
    PlacedAfterCut(chains, b, k, hash);
    assert CellLinked(cells[..][b], chain, nodes) && PlacedAt(chain, b, |chains|, hash);
    var cell := CutOut(cells[b], x, chain, k);
    cells[b] := cell;
    forall c | 0 <= c < |chains|
      ensures CellLinked(cells[..][c], chains[b := chain[..k] + chain[k + 1..]][c], nodes)
    {
      assert old(CellLinked(cells[..][c], chains[c], nodes)) && PlacedAt(chains[c], c, |chains|, hash);
    }
  }

  lemma PlacedAfterCut(chains: seq<seq<Node>>, b: nat, k: nat, hash: Hash)
    requires b < |chains| && k < |chains[b]| && Placed(chains, hash)
    ensures Placed(chains[b := chains[b][..k] + chains[b][k + 1..]], hash)
  {
    assert PlacedAt(chains[b], b, |chains|, hash);
  }

  // ---------------------------------------------------------------- expansion

  ghost function ChainExcesses(chains: seq<seq<Node>>, ideal: nat): (e: seq<nat>)
    ensures |e| == |chains|
    ensures forall b :: 0 <= b < |chains| ==> e[b] == if |chains[b]| > ideal then |chains[b]| - ideal else 0
  {
    seq(|chains|, b requires 0 <= b < |chains| => if |chains[b]| > ideal then |chains[b]| - ideal else 0)
  }

  /** The statistics of a table under construction. */
  ghost predicate Scored(cells: seq<Cell>, chains: seq<seq<Node>>, ideal: nat, nonideal: nat)
    requires |cells| == |chains| && 0 < ideal
  {
    && (forall b :: 0 <= b < |chains| ==> cells[b].mult == MultOf(|chains[b]|, ideal))
    && nonideal == Sum(ChainExcesses(chains, ideal))
  }

  /** Move one node to its bucket in the new array, keeping count of the items beyond the ideal. */
  method MoveNode(cells: array<Cell>, x: Node, ideal: nat, nonideal0: nat, hash: Hash,
                  ghost chains: seq<seq<Node>>, ghost b: nat, ghost nodes: set<Node>)
    returns (nonideal: nat)
    requires 0 < ideal && CellsLinked(cells[..], chains, nodes) && Placed(chains, hash)
    requires Scored(cells[..], chains, ideal, nonideal0)
    requires x in nodes && x.hashv == hash(x.elem.key)
    requires b < |chains| && ToBucket(x.hashv, |chains|) == x.hashv % |chains| == b && x !in chains[b]
    modifies cells, nodes`hhNext, nodes`hhPrev
    ensures CellsLinked(cells[..], chains[b := [x] + chains[b]], nodes) && Placed(chains[b := [x] + chains[b]], hash)
    ensures Scored(cells[..], chains[b := [x] + chains[b]], ideal, nonideal)
    ensures forall y :: y in nodes && y != x ==> y.hhNext == old(y.hhNext)
  {
    var bkt := ToBucket(x.hashv, cells.Length);
    PushOnto(cells, bkt, x, chains, nodes, hash);
    ghost var chains' := chains[b := [x] + chains[b]];
    ghost var pushed := cells[..];
    assert CellLinked(pushed[b], chains'[b], nodes);
    nonideal := nonideal0;
    if cells[bkt].count > ideal {
      nonideal := nonideal + 1;
      cells[bkt] := cells[bkt].(mult := Quotient(cells[bkt].count, ideal));
    }
    Relabelled(pushed, cells[..], chains', nodes);
    ScoredStep(old(cells[..]), cells[..], chains, b, x, ideal, nonideal0);
  }

  lemma Relabelled(cells: seq<Cell>, cells': seq<Cell>, chains: seq<seq<Node>>, nodes: set<Node>)
    requires CellsLinked(cells, chains, nodes) && |cells'| == |cells|
    requires forall b :: 0 <= b < |cells| ==> cells'[b].hhHead == cells[b].hhHead && cells'[b].count == cells[b].count
    ensures CellsLinked(cells', chains, nodes)
  {
    forall c | 0 <= c < |chains|
      ensures CellLinked(cells'[c], chains[c], nodes)
    {
      assert CellLinked(cells[c], chains[c], nodes);
    }
  }

  lemma ScoredStep(cells: seq<Cell>, cells': seq<Cell>, chains: seq<seq<Node>>, b: nat, x: Node, ideal: nat, nonideal: nat)
    requires 0 < ideal && |cells| == |cells'| == |chains| && b < |chains| && Scored(cells, chains, ideal, nonideal)
    requires cells[b].count == |chains[b]|
    requires cells' == cells[b := cells'[b]]
    requires cells'[b].mult == if |chains[b]| + 1 > ideal then Quotient(|chains[b]| + 1, ideal) else cells[b].mult
    ensures Scored(cells', chains[b := [x] + chains[b]], ideal, nonideal + if |chains[b]| + 1 > ideal then 1 else 0)
  {
    var chains' := chains[b := [x] + chains[b]];
    var excesses := ChainExcesses(chains, ideal);
    var v := if |chains[b]| + 1 > ideal then |chains[b]| + 1 - ideal else 0;
    SumUpdate(excesses, b, v);
    assert ChainExcesses(chains', ideal) == excesses[b := v];
  }

  /** The part of old chain `c` that has been moved when the walk is at node `p` of bucket `bi`. */
  ghost function Walked(before: seq<seq<Node>>, bi: nat, p: nat, c: nat): seq<Node>
    requires c < |before| && bi <= |before| && (bi < |before| ==> p <= |before[bi]|)
  {
    if c < bi then before[c] else if c == bi then before[c][..p] else []
  }

  /** The new chains at that point of the walk. */
  ghost predicate MovedSoFar(chains: seq<seq<Node>>, before: seq<seq<Node>>, bi: nat, p: nat, hash: Hash) {
    && 0 < |before| && |chains| == 2 * |before| && bi <= |before| && (bi < |before| ==> p <= |before[bi]|)
    && forall nb :: 0 <= nb < |chains| ==>
         chains[nb] == Moved(Walked(before, bi, p, nb % |before|), nb, |chains|, hash)
  }

  lemma MovedStep(chain: seq<Node>, p: nat, nb: nat, n: nat, hash: Hash)
    requires p < |chain| && 0 < n
    ensures
      var rest := Moved(chain[..p], nb, n, hash);
      Moved(chain[..p + 1], nb, n, hash) == if ToBucket(hash(chain[p].elem.key), n) == nb then [chain[p]] + rest else rest
  {
    assert chain[..p + 1][..p] == chain[..p];
  }

  lemma MovedSoFarStep(chains: seq<seq<Node>>, before: seq<seq<Node>>, bi: nat, p: nat, nb: nat, hash: Hash)
    requires MovedSoFar(chains, before, bi, p, hash) && bi < |before| && p < |before[bi]| && nb < |chains|
    requires ToBucket(hash(before[bi][p].elem.key), |chains|) == nb && nb % |before| == bi
    requires NoDuplicates(before[bi])
    ensures before[bi][p] !in chains[nb]
    ensures MovedSoFar(chains[nb := [before[bi][p]] + chains[nb]], before, bi, p + 1, hash)
  {
    var x := before[bi][p];
    MovedContents(before[bi][..p], nb, |chains|, hash);
    forall c | 0 <= c < |chains|
      ensures chains[nb := [x] + chains[nb]][c] == Moved(Walked(before, bi, p + 1, c % |before|), c, |chains|, hash)
    {
      if c % |before| == bi {
        MovedStep(before[bi], p, c, |chains|, hash);
      }
    }
  }

  lemma MovedSoFarNext(chains: seq<seq<Node>>, before: seq<seq<Node>>, bi: nat, hash: Hash)
    requires bi < |before| && MovedSoFar(chains, before, bi, |before[bi]|, hash)
    ensures MovedSoFar(chains, before, bi + 1, 0, hash)
  {
    forall c | 0 <= c < |chains|
      ensures chains[c] == Moved(Walked(before, bi + 1, 0, c % |before|), c, |chains|, hash)
    {
      var r := c % |before|;
      if r == bi {
        assert before[bi][..|before[bi]|] == before[bi];
      } else if r == bi + 1 {
        assert before[r][..0] == [];
      }
    }
  }

  /** The nodes of an old chain from `p` on can still be walked. */
  ghost predicate Walkable(chain: seq<Node>, p: int)
    reads chain`hhNext
  {
    forall i {:trigger chain[i].hhNext} :: 0 <= p <= i < |chain| ==>
      chain[i].hhNext == if i + 1 < |chain| then chain[i + 1] else null
  }

  lemma TargetBucket(hashv: nat, m: nat, m': nat, n: nat) returns (b: nat)
    requires 0 < m && m' == 2 * m == Pow2(n)
    ensures b < m' && ToBucket(hashv, m') == hashv % m' == b && b % m == hashv % m
  {
    AndMask(hashv, n);
    ModOfDoubled(hashv, m);
    b := hashv % m';
  }

  /** The state of the redistribution when the walk is at node `p` of bucket `bi`. */
  ghost predicate Redistributing(cells: seq<Cell>, chains: seq<seq<Node>>, before: seq<seq<Node>>, bi: nat, p: nat,
                                 ideal: nat, nonideal: nat, nodes: set<Node>, hash: Hash)
    reads nodes`hhNext, nodes`hhPrev
  {
    && 0 < ideal
    && MovedSoFar(chains, before, bi, p, hash)
    && CellsLinked(cells, chains, nodes)
    && Placed(chains, hash)
    && Scored(cells, chains, ideal, nonideal)
  }

  /** Move the node the walk is at. */
  method MoveNext(cells: array<Cell>, x: Node, ideal: nat, nonideal0: nat, hash: Hash, ghost n: nat,
                  ghost chains0: seq<seq<Node>>, ghost before: seq<seq<Node>>, ghost bi: nat, ghost p: nat,
                  ghost nodes: set<Node>)
    returns (nonideal: nat, ghost chains: seq<seq<Node>>)
    requires Redistributing(cells[..], chains0, before, bi, p, ideal, nonideal0, nodes, hash)
    requires bi < |before| && p < |before[bi]| && x == before[bi][p] && 2 * |before| == Pow2(n)
    requires PlacedAt(before[bi], bi, |before|, hash) && x in nodes && x.hashv == hash(x.elem.key)
    modifies cells, nodes`hhNext, nodes`hhPrev
    ensures Redistributing(cells[..], chains, before, bi, p + 1, ideal, nonideal, nodes, hash)
    ensures forall y :: y in nodes && y != x ==> y.hhNext == old(y.hhNext)
  {
    ghost var b := TargetBucket(x.hashv, |before|, |chains0|, n);
    MovedSoFarStep(chains0, before, bi, p, b, hash);
    nonideal := MoveNode(cells, x, ideal, nonideal0, hash, chains0, b, nodes);
    chains := chains0[b := [x] + chains0[b]];
  }

  /** Walk one old chain from its head and move its nodes. */
  method MoveChain(cells: array<Cell>, first: Node?, ideal: nat, nonideal0: nat, hash: Hash, ghost n: nat,
                   ghost chains0: seq<seq<Node>>, ghost before: seq<seq<Node>>, ghost bi: nat, ghost nodes: set<Node>)
    returns (nonideal: nat, ghost chains: seq<seq<Node>>)
    requires bi < |before| && 2 * |before| == Pow2(n) && PlacedAt(before[bi], bi, |before|, hash)
    requires Redistributing(cells[..], chains0, before, bi, 0, ideal, nonideal0, nodes, hash)
    requires forall i :: 0 <= i < |before[bi]| ==> before[bi][i] in nodes && before[bi][i].hashv == hash(before[bi][i].elem.key)
    requires first == (if before[bi] == [] then null else before[bi][0]) && Walkable(before[bi], 0)
    modifies cells, nodes`hhNext, nodes`hhPrev
    ensures Redistributing(cells[..], chains, before, bi + 1, 0, ideal, nonideal, nodes, hash)
    ensures forall y :: y in nodes && y !in before[bi] ==> y.hhNext == old(y.hhNext)
  {
    ghost var p, chain := 0, before[bi];
    nonideal, chains := nonideal0, chains0;
    var thh := first;
    while thh != null
      invariant 0 <= p <= |chain| && thh == (if p < |chain| then chain[p] else null)
      invariant Redistributing(cells[..], chains, before, bi, p, ideal, nonideal, nodes, hash)
      invariant Walkable(chain, p)
      invariant forall y :: y in nodes && y !in chain ==> y.hhNext == old(y.hhNext)
      decreases |chain| - p
    {
      var next := thh.hhNext;
      nonideal, chains := MoveNext(cells, thh, ideal, nonideal, hash, n, chains, before, bi, p, nodes);
      thh, p := next, p + 1;
    }
    MovedSoFarNext(chains, before, bi, hash);
  }

  lemma NothingMoved(chains: seq<seq<Node>>, before: seq<seq<Node>>, hash: Hash)
    requires 0 < |before| && |chains| == 2 * |before| && forall b :: 0 <= b < |chains| ==> chains[b] == []
    ensures MovedSoFar(chains, before, 0, 0, hash) && Placed(chains, hash)
  {
    assert before[0][..0] == [];
  }

  method EmptyCells(size: nat, ideal: nat, ghost before: seq<seq<Node>>, ghost nodes: set<Node>, ghost hash: Hash)
    returns (cells: array<Cell>, ghost chains: seq<seq<Node>>)
    requires 0 < |before| && size == 2 * |before| && 0 < ideal
    ensures fresh(cells) && Redistributing(cells[..], chains, before, 0, 0, ideal, 0, nodes, hash)
  {
    cells := new Cell[size](_ => Cell(null, 0, 0));
    chains := seq(size, _ => []);
    NothingMoved(chains, before, hash);
    SumZeros(ChainExcesses(chains, ideal));
    assert forall b :: 0 <= b < |chains| ==> CellLinked(cells[..][b], chains[b], nodes);
  }

  /** The redistribution loop of HASH_EXPAND_BUCKETS. */
  method Redistribute(cells0: array<Cell>, ideal: nat, hash: Hash, ghost n: nat,
                      ghost before: seq<seq<Node>>, ghost nodes: set<Node>)
    returns (cells: array<Cell>, nonideal: nat, ghost chains: seq<seq<Node>>)
    requires 0 < ideal && 2 * |before| == Pow2(n) && CellsLinked(cells0[..], before, nodes) && Placed(before, hash)
    requires forall y :: y in nodes ==> y.hashv == hash(y.elem.key)
    modifies nodes`hhNext, nodes`hhPrev
    ensures fresh(cells) && Redistributing(cells[..], chains, before, |before|, 0, ideal, nonideal, nodes, hash)
  {
    cells, chains := EmptyCells(2 * cells0.Length, ideal, before, nodes, hash);
    nonideal := 0;
    var bi := 0;
    while bi < cells0.Length
      invariant 0 <= bi <= |before|
      invariant Redistributing(cells[..], chains, before, bi, 0, ideal, nonideal, nodes, hash)
      invariant forall b :: bi <= b < |before| ==> Walkable(before[b], 0)
    {
      assert old(CellLinked(cells0[..][bi], before[bi], nodes)) && PlacedAt(before[bi], bi, |before|, hash);
      nonideal, chains := MoveChain(cells, cells0[bi].hhHead, ideal, nonideal, hash, n, chains, before, bi, nodes);
      bi := bi + 1;
    }
  }

  // ---------------------------------------------------------------- relating memory and model

  ghost function BucketsOf(cells: seq<Cell>, chains: seq<seq<Node>>): (buckets: seq<Bucket>)
    requires |cells| == |chains|
    ensures |buckets| == |chains|
    ensures forall b :: 0 <= b < |chains| ==> buckets[b] == Bucket(chains[b], cells[b].mult)
  {
    seq(|chains|, b requires 0 <= b < |chains| => Bucket(chains[b], cells[b].mult))
  }

  lemma NodesAdded(cells: seq<Cell>, chains: seq<seq<Node>>, nodes: set<Node>, nodes': set<Node>)
    requires CellsLinked(cells, chains, nodes) && nodes <= nodes'
    ensures CellsLinked(cells, chains, nodes')
  {
    forall b | 0 <= b < |chains|
      ensures CellLinked(cells[b], chains[b], nodes')
    {
      assert CellLinked(cells[b], chains[b], nodes);
    }
  }

  lemma NodeRemoved(cells: seq<Cell>, chains: seq<seq<Node>>, nodes: set<Node>, x: Node)
    requires CellsLinked(cells, chains, nodes) && forall b :: 0 <= b < |chains| ==> x !in chains[b]
    ensures CellsLinked(cells, chains, nodes - {x})
  {
    forall b | 0 <= b < |chains|
      ensures CellLinked(cells[b], chains[b], nodes - {x})
    {
      assert CellLinked(cells[b], chains[b], nodes);
    }
  }

  /** A finished redistribution is the model's expansion. */
  lemma RedistributedBuckets(cells: seq<Cell>, chains: seq<seq<Node>>, cells0: seq<Cell>, before: seq<seq<Node>>,
                             ideal: nat, nonideal: nat, nodes: set<Node>, hash: Hash)
    requires |cells0| == |before|
    requires Redistributing(cells, chains, before, |before|, 0, ideal, nonideal, nodes, hash)
    ensures BucketsOf(cells, chains) == NewBuckets(BucketsOf(cells0, before), ideal, hash)
    ensures nonideal == Sum(Excesses(BucketsOf(cells, chains), ideal))
  {
    var buckets := BucketsOf(cells0, before);
    forall b | 0 <= b < |chains|
      ensures BucketsOf(cells, chains)[b] == NewBucket(buckets, b, ideal, hash)
    {
      var r := b % |before|;
      assert Walked(before, |before|, 0, r) == before[r] == buckets[r].chain;
    }
    assert Excesses(BucketsOf(cells, chains), ideal) == ChainExcesses(chains, ideal);
  }

  /** The redistribution, seen as the model's expansion. */
  method Rehash(cells0: array<Cell>, ideal: nat, hash: Hash, ghost n: nat, ghost t: Table,
                ghost before: seq<seq<Node>>, ghost nodes: set<Node>)
    returns (cells: array<Cell>, nonideal: nat, ghost chains: seq<seq<Node>>)
    requires 0 < ideal && 2 * |before| == Pow2(n) && CellsLinked(cells0[..], before, nodes) && Placed(before, hash)
    requires t.buckets == BucketsOf(cells0[..], before)
    requires forall y :: y in nodes ==> y.hashv == hash(y.elem.key)
    modifies nodes`hhNext, nodes`hhPrev
    ensures fresh(cells) && CellsLinked(cells[..], chains, nodes) && Placed(chains, hash)
    ensures |chains| == 2 * |t.buckets| && BucketsOf(cells[..], chains) == NewBuckets(t.buckets, ideal, hash)
    ensures nonideal == Sum(Excesses(NewBuckets(t.buckets, ideal, hash), ideal))
  {
    ghost var old0 := cells0[..];
    cells, nonideal, chains := Redistribute(cells0, ideal, hash, n, before, nodes);
    RedistributedBuckets(cells[..], chains, old0, before, ideal, nonideal, nodes, hash);
  }
}
