/**
 * uthash.h on sequences: the insertion order and the bucket chains as sequences of nodes, with
 * the statistics that steer bucket expansion. `HashTable` proves that the linked structure
 * follows these functions step by step.
 */
module HashModel {
  import opened Bits
  import opened Elements
  import opened Sums

  type Hash = Key -> nat

  const INITIAL_NUM_BUCKETS := 32
  const INITIAL_NUM_BUCKETS_LOG2 := 5
  const BKT_CAPACITY_THRESH := 10

  datatype Bucket = Bucket(chain: seq<Node>, mult: nat)

  /**
   * A table. The C table is allocated by the first add and freed by the delete that empties it,
   * so an empty table is always the freshly made one.
   */
  datatype Table = Table(order: seq<Node>, buckets: seq<Bucket>, log2: nat,
                         ideal: nat, nonideal: nat, ineff: nat, noexpand: bool)

  function MakeTable(): Table {
    Table([], seq(INITIAL_NUM_BUCKETS, _ => Bucket([], 0)), INITIAL_NUM_BUCKETS_LOG2, 0, 0, 0, false)
  }

  /** HASH_TO_BKT. */
  function ToBucket(hashv: nat, numBuckets: nat): nat
    requires 0 < numBuckets
  {
    And(hashv, numBuckets - 1)
  }

  ghost function Counts(buckets: seq<Bucket>): (c: seq<nat>)
    ensures |c| == |buckets| && forall b :: 0 <= b < |buckets| ==> c[b] == |buckets[b].chain|
  {
    seq(|buckets|, b requires 0 <= b < |buckets| => |buckets[b].chain|)
  }

  ghost function Mults(buckets: seq<Bucket>): (m: seq<nat>)
    ensures |m| == |buckets| && forall b :: 0 <= b < |buckets| ==> m[b] == buckets[b].mult
  {
    seq(|buckets|, b requires 0 <= b < |buckets| => buckets[b].mult)
  }

  /** How many items of each chain lie beyond the ideal length. */
  ghost function Excesses(buckets: seq<Bucket>, ideal: nat): (e: seq<nat>)
    ensures |e| == |buckets|
    ensures forall b :: 0 <= b < |buckets| ==>
      e[b] == if |buckets[b].chain| > ideal then |buckets[b].chain| - ideal else 0
  {
    seq(|buckets|, b requires 0 <= b < |buckets| =>
      if |buckets[b].chain| > ideal then |buckets[b].chain| - ideal else 0)
  }

  // ---------------------------------------------------------------- lookup

  /** HASH_FIND_IN_BKT: the first node of a chain with the key. */
  function FindInChain(chain: seq<Node>, key: Key): Node? {
    if chain == [] then null
    else if chain[0].elem.key == key then chain[0]
    else FindInChain(chain[1..], key)
  }

  function Find(t: Table, key: Key, hash: Hash): Node?
    requires 0 < |t.buckets| && ToBucket(hash(key), |t.buckets|) < |t.buckets|
  {
    if t.order == [] then null
    else FindInChain(t.buckets[ToBucket(hash(key), |t.buckets|)].chain, key)
  }

  // ---------------------------------------------------------------- expansion

  /**
   * The nodes of an old chain that land in new bucket `b`. Each is pushed on the front of its
   * new chain as the old one is walked from its head, so they end up reversed.
   */
  function Moved(chain: seq<Node>, b: nat, numBuckets: nat, hash: Hash): (r: seq<Node>)
    requires 0 < numBuckets
    ensures |r| <= |chain|
  {
    if chain == [] then []
    else
      var last := chain[|chain| - 1];
      var rest := Moved(chain[..|chain| - 1], b, numBuckets, hash);
      if ToBucket(hash(last.elem.key), numBuckets) == b then [last] + rest else rest
  }

  function Quotient(x: nat, d: nat): nat
    requires 0 < d
  {
    x / d
  }

  /** The multiplier that a bucket of `count` items gets when the ideal chain length is `ideal`. */
  function MultOf(count: nat, ideal: nat): nat
    requires 0 < ideal
  {
    if count > ideal then Quotient(count, ideal) else 0
  }

  /** The ideal chain length, by shift and mask as the macro computes it. */
  function IdealLength(items: nat, log2: nat): nat {
    ShiftRight(items, log2 + 1) + (if And(items, 2 * Pow2(log2) - 1) != 0 then 1 else 0)
  }

  function NewBucket(before: seq<Bucket>, b: nat, ideal: nat, hash: Hash): Bucket
    requires b < 2 * |before| && 0 < ideal
  {
    var chain := Moved(before[b % |before|].chain, b, 2 * |before|, hash);
    Bucket(chain, MultOf(|chain|, ideal))
  }

  function NewBuckets(before: seq<Bucket>, ideal: nat, hash: Hash): (after: seq<Bucket>)
    requires 0 < ideal
    ensures |after| == 2 * |before|
    ensures forall b :: 0 <= b < 2 * |before| ==> after[b] == NewBucket(before, b, ideal, hash)
  {
    seq(2 * |before|, b requires 0 <= b < 2 * |before| => NewBucket(before, b, ideal, hash))
  }

  /** HASH_EXPAND_BUCKETS. */
  ghost function Expand(t: Table, hash: Hash): Table
    requires 0 < IdealLength(|t.order|, t.log2)
  {
    var ideal := IdealLength(|t.order|, t.log2);
    var buckets := NewBuckets(t.buckets, ideal, hash);
    var nonideal := Sum(Excesses(buckets, ideal));
    var ineff := if nonideal > ShiftRight(|t.order|, 1) then t.ineff + 1 else 0;
    Table(t.order, buckets, t.log2 + 1, ideal, nonideal, ineff, t.noexpand || ineff > 1)
  }

  // ---------------------------------------------------------------- add and delete

  /** The table after the node is linked in and before any expansion. */
  function Linked(t: Table, x: Node, hash: Hash): Table
    requires 0 < |t.buckets| && ToBucket(hash(x.elem.key), |t.buckets|) < |t.buckets|
  {
    var b := ToBucket(hash(x.elem.key), |t.buckets|);
    t.(order := t.order + [x],
       buckets := t.buckets[b := t.buckets[b].(chain := [x] + t.buckets[b].chain)])
  }

  /** Whether adding the node fills its bucket and triggers an expansion. */
  predicate Triggers(t: Table, x: Node, hash: Hash)
    requires 0 < |t.buckets| && ToBucket(hash(x.elem.key), |t.buckets|) < |t.buckets|
  {
    var b := t.buckets[ToBucket(hash(x.elem.key), |t.buckets|)];
    |b.chain| + 1 >= (b.mult + 1) * BKT_CAPACITY_THRESH && !t.noexpand
  }

  /** HASH_ADD_KEYPTR. */
  ghost function Add(t: Table, x: Node, hash: Hash): Table
    requires 0 < |t.buckets| && ToBucket(hash(x.elem.key), |t.buckets|) < |t.buckets|
    requires 0 < IdealLength(|t.order| + 1, t.log2)
  {
    if Triggers(t, x, hash) then Expand(Linked(t, x, hash), hash) else Linked(t, x, hash)
  }

  /** `t'` is the table that adding `x` to `t` gives. */
  ghost predicate Added(t: Table, x: Node, t': Table, hash: Hash) {
    && 0 < |t.buckets| && ToBucket(hash(x.elem.key), |t.buckets|) < |t.buckets|
    && 0 < IdealLength(|t.order| + 1, t.log2)
    && t' == Add(t, x, hash)
  }

  ghost predicate Expanded(t: Table, t': Table, hash: Hash) {
    0 < IdealLength(|t.order|, t.log2) && t' == Expand(t, hash)
  }

  function Without(s: seq<Node>, x: Node): seq<Node> {
    if s == [] then []
    else if s[0] == x then s[1..]
    else [s[0]] + Without(s[1..], x)
  }

  /** HASH_DELETE: deleting the only item frees the table. */
  function Delete(t: Table, x: Node, hash: Hash): Table
    requires 0 < |t.buckets| && ToBucket(hash(x.elem.key), |t.buckets|) < |t.buckets|
  {
    if t.order == [x] then MakeTable()
    else
      var b := ToBucket(hash(x.elem.key), |t.buckets|);
      t.(order := Without(t.order, x),
         buckets := t.buckets[b := t.buckets[b].(chain := Without(t.buckets[b].chain, x))])
  }

  ghost predicate Deleted(t: Table, x: Node, t': Table, hash: Hash) {
    && 0 < |t.buckets| && ToBucket(hash(x.elem.key), |t.buckets|) < |t.buckets|
    && t' == Delete(t, x, hash)
  }

  // ---------------------------------------------------------------- the structural invariant

  /** What HASH_FSCK checks of the contents: each item sits once in the chain its hash selects. */
  ghost predicate Consistent(t: Table, hash: Hash)
  {
    && INITIAL_NUM_BUCKETS_LOG2 <= t.log2 && |t.buckets| == Pow2(t.log2)
    && NoDuplicates(t.order)
    && (forall b :: 0 <= b < |t.buckets| ==> ChainOf(t.buckets[b].chain, b, t, hash))
    && (forall x :: x in t.order ==> x in t.buckets[hash(x.elem.key) % |t.buckets|].chain)
    && Sum(Counts(t.buckets)) == |t.order|
    && (t.order == [] ==> t == MakeTable())
  }

  ghost predicate ChainOf(chain: seq<Node>, b: nat, t: Table, hash: Hash)
    requires 0 < |t.buckets|
  {
    && NoDuplicates(chain)
    && forall x :: x in chain ==> x in t.order && hash(x.elem.key) % |t.buckets| == b
  }

  lemma ToBucketOfPower(hashv: nat, n: nat, log2: nat)
    requires n == Pow2(log2)
    ensures ToBucket(hashv, n) == hashv % n < n
  {
    AndMask(hashv, log2);
  }

  lemma ToBucketIsMod(hashv: nat, t: Table, hash: Hash)
    requires Consistent(t, hash)
    ensures ToBucket(hashv, |t.buckets|) == hashv % |t.buckets| < |t.buckets|
  {
    ToBucketOfPower(hashv, |t.buckets|, t.log2);
  }

  lemma IdealIsCeiling(items: nat, log2: nat)
    ensures
      var n := 2 * Pow2(log2);
      IdealLength(items, log2) == items / n + (if items % n != 0 then 1 else 0)
  {
    assert Pow2(log2 + 1) == 2 * Pow2(log2);
    ShiftRightDivides(items, log2 + 1);
    AndMask(items, log2 + 1);
  }

  lemma IdealPositive(items: nat, log2: nat)
    requires 0 < items
    ensures 0 < IdealLength(items, log2)
  {
    IdealIsCeiling(items, log2);
    var n := 2 * Pow2(log2);
    assert items == n * (items / n) + items % n;
  }

  lemma {:induction false} PowersGrow(j: nat, k: nat)
    requires j <= k
    ensures Pow2(j) <= Pow2(k)
  {
    if j < k {
      PowersGrow(j, k - 1);
    }
  }

  lemma EnoughBuckets(t: Table, hash: Hash)
    requires Consistent(t, hash)
    ensures INITIAL_NUM_BUCKETS <= |t.buckets|
  {
    PowersGrow(5, t.log2);
    assert Pow2(5) == 32;
  }

  /** Consistent tables meet the preconditions of every operation. */
  lemma OperationsDefined(t: Table, key: Key, hash: Hash)
    requires Consistent(t, hash)
    ensures 0 < |t.buckets| && ToBucket(hash(key), |t.buckets|) < |t.buckets|
    ensures 0 < IdealLength(|t.order| + 1, t.log2)
  {
    ToBucketIsMod(hash(key), t, hash);
    IdealPositive(|t.order| + 1, t.log2);
  }

  lemma MakeTableConsistent(hash: Hash)
    ensures Consistent(MakeTable(), hash)
  {
    var t := MakeTable();
    assert Pow2(5) == 32;
    SumZeros(Counts(t.buckets));
  }
}
