/**
 * Whole runs of the hash table: every sequence of adds and deletes, together with a count of the
 * expansions so far and of the expansions there had been when each item was added.
 */
module HashRuns {
  import opened Bits
  import opened Elements
  import opened Sums
  import opened HashModel
  import opened HashConsistency
  import opened HashLoad

  datatype Op = Insert(x: Node) | Remove(x: Node)

  datatype History = History(table: Table, births: map<Node, nat>, expansions: nat)

  /** One operation. Adding a live item or deleting an absent one is a misuse and is skipped. */
  ghost function Step(h: History, op: Op, hash: Hash): History
    requires Consistent(h.table, hash)
  {
    OperationsDefined(h.table, op.x.elem.key, hash);
    match op
    case Insert(x) =>
      if x in h.table.order then h
      else History(Add(h.table, x, hash), h.births[x := h.expansions],
                   h.expansions + (if Triggers(h.table, x, hash) then 1 else 0))
    case Remove(x) =>
      if x in h.table.order then h.(table := Delete(h.table, x, hash)) else h
  }

  lemma StepConsistent(h: History, op: Op, hash: Hash)
    requires Consistent(h.table, hash)
    ensures Consistent(Step(h, op, hash).table, hash)
    ensures Step(h, op, hash).table.order == ReferenceStep(h.table.order, op)
  {
    if op.Insert? && op.x !in h.table.order {
      AddConsistent(h.table, op.x, hash);
    } else if op.Remove? && op.x in h.table.order {
      DeleteConsistent(h.table, op.x, hash);
    }
  }

  ghost function Run(ops: seq<Op>, hash: Hash): (h: History)
    ensures Consistent(h.table, hash)
  {
    if ops == [] then
      MakeTableConsistent(hash);
      History(MakeTable(), map[], 0)
    else
      var k := |ops| - 1;
      StepConsistent(Run(ops[..k], hash), ops[k], hash);
      Step(Run(ops[..k], hash), ops[k], hash)
  }

  // ---------------------------------------------------------------- agreement with an ordered map

  /** The reference: a plain list in insertion order. */
  function ReferenceStep(live: seq<Node>, op: Op): seq<Node> {
    match op
    case Insert(x) => if x in live then live else live + [x]
    case Remove(x) => if x in live then Without(live, x) else live
  }

  function Reference(ops: seq<Op>): seq<Node> {
    if ops == [] then [] else ReferenceStep(Reference(ops[..|ops| - 1]), ops[|ops| - 1])
  }

  lemma {:induction false} RunOrder(ops: seq<Op>, hash: Hash)
    ensures Run(ops, hash).table.order == Reference(ops)
  {
    if ops != [] {
      var k := |ops| - 1;
      RunOrder(ops[..k], hash);
      StepConsistent(Run(ops[..k], hash), ops[k], hash);
    }
  }

  /**
   * Every run agrees with the insertion-ordered list: same items in the same order, and lookup
   * finds an item exactly when a live item has the key - the one, if live keys are distinct.
   */
  lemma RunAgreesWithReference(ops: seq<Op>, key: Key, hash: Hash)
    ensures
      var t, live := Run(ops, hash).table, Reference(ops);
      && t.order == live
      && 0 < |t.buckets| && ToBucket(hash(key), |t.buckets|) < |t.buckets|
      && var r := Find(t, key, hash);
      && (r == null <==> forall x :: x in live ==> x.elem.key != key)
      && (r != null ==> r in live && r.elem.key == key)
      && ((forall x, y :: x in live && y in live && x != y ==> x.elem.key != y.elem.key) ==>
            forall x :: x in live && x.elem.key == key ==> r == x)
  {
    RunOrder(ops, hash);
    FindCorrect(Run(ops, hash).table, key, hash);
  }

  // ---------------------------------------------------------------- the load bound over runs

  lemma {:induction false} RunLoaded(ops: seq<Op>, hash: Hash)
    ensures Loaded(Run(ops, hash).table)
  {
    if ops == [] {
      MakeTableLoaded();
    } else {
      var k := |ops| - 1;
      RunLoaded(ops[..k], hash);
      var h := Run(ops[..k], hash);
      if ops[k].Insert? && ops[k].x !in h.table.order {
        AddLoaded(h.table, ops[k].x, hash);
      } else {
        DeleteLoaded(h.table, ops[k].x, hash);
      }
    }
  }

  /** In every reachable state that still expands, chains and table size are bounded. */
  lemma RunBounds(ops: seq<Op>, hash: Hash)
    ensures
      var t := Run(ops, hash).table;
      !t.noexpand ==>
        && Sum(Mults(t.buckets)) <= |t.buckets|
        && (forall b :: 0 <= b < |t.buckets| ==> |t.buckets[b].chain| <= 10 * (t.buckets[b].mult + 1))
        && |t.order| <= 20 * |t.buckets|
  {
    RunLoaded(ops, hash);
    var t := Run(ops, hash).table;
    if !t.noexpand {
      ItemsBounded(t, hash);
      forall b | 0 <= b < |t.buckets|
        ensures |t.buckets[b].chain| <= 10 * (t.buckets[b].mult + 1)
      {
        assert WithinThreshold(t.buckets[b]);
      }
    }
  }

  lemma ExpandingStep(h: History, op: Op, hash: Hash)
    requires Consistent(h.table, hash) && Loaded(h.table) && Step(h, op, hash).expansions == h.expansions + 1
    ensures 1 <= Step(h, op, hash).table.ideal <= 10
    ensures ExpandedExactly(h.table, Step(h, op, hash).table)
  {
    AddLoaded(h.table, op.x, hash);
    LinkedConsistent(h.table, op.x, hash);
    ExpandExact(Linked(h.table, op.x, hash), hash);
  }

  /**
   * Every expansion of every run computes an ideal length from 1 to 10, and so never divides by
   * zero, doubles the buckets and leaves exact multipliers and statistics.
   */
  lemma EveryExpansionIsExact(ops: seq<Op>, k: nat, hash: Hash)
    requires k < |ops| && Run(ops[..k + 1], hash).expansions == Run(ops[..k], hash).expansions + 1
    ensures 1 <= Run(ops[..k + 1], hash).table.ideal <= 10
    ensures ExpandedExactly(Run(ops[..k], hash).table, Run(ops[..k + 1], hash).table)
  {
    assert ops[..k + 1] == ops[..k] + [ops[k]];
    RunExtended(ops[..k], ops[k], hash);
    RunLoaded(ops[..k], hash);
    ExpandingStep(Run(ops[..k], hash), ops[k], hash);
  }

  /** Only expansions, and the freeing of an emptied table, touch the multipliers and statistics. */
  lemma QuietStep(h: History, op: Op, hash: Hash)
    requires Consistent(h.table, hash) && Step(h, op, hash).expansions == h.expansions && Step(h, op, hash).table.order != []
    ensures
      var t, t' := h.table, Step(h, op, hash).table;
      && Mults(t'.buckets) == Mults(t.buckets) && t'.log2 == t.log2 && t'.ideal == t.ideal
      && t'.nonideal == t.nonideal && t'.ineff == t.ineff && t'.noexpand == t.noexpand
  {
    OperationsDefined(h.table, op.x.elem.key, hash);
  }

  /** Expansion is given up exactly by the second ineffective expansion in a row. */
  predicate StopsAfterTwo(t: Table) {
    t.ineff <= 2 && (t.noexpand <==> t.ineff == 2)
  }

  lemma StepStopsAfterTwo(h: History, op: Op, hash: Hash)
    requires Consistent(h.table, hash) && StopsAfterTwo(h.table)
    ensures StopsAfterTwo(Step(h, op, hash).table)
  {
    OperationsDefined(h.table, op.x.elem.key, hash);
  }

  /** In every reachable state, expansion has stopped exactly if the last two expansions were ineffective. */
  lemma {:induction false} RunStopsAfterTwo(ops: seq<Op>, hash: Hash)
    ensures StopsAfterTwo(Run(ops, hash).table)
  {
    if ops != [] {
      var k := |ops| - 1;
      RunStopsAfterTwo(ops[..k], hash);
      StepStopsAfterTwo(Run(ops[..k], hash), ops[k], hash);
    }
  }

  // ---------------------------------------------------------------- items that share a key

  ghost predicate Before(s: seq<Node>, u: Node, v: Node) {
    exists i, j :: 0 <= i < j < |s| && s[i] == u && s[j] == v
  }

  /**
   * `u` precedes `v` in a chain: either `u` is the newer and the number of expansions since it
   * was added is even, or `v` is the newer and that number is odd.
   */
  ghost predicate PairParity(h: History, u: Node, v: Node) {
    && u in h.births && v in h.births
    && h.births[u] <= h.expansions && h.births[v] <= h.expansions
    && (if (h.expansions - h.births[u]) % 2 == 0 && Before(h.table.order, v, u) then true
        else (h.expansions - h.births[v]) % 2 == 1 && Before(h.table.order, u, v))
  }

  ghost predicate Dated(h: History) {
    forall x :: x in h.table.order ==> x in h.births && h.births[x] <= h.expansions
  }

  ghost predicate ChainInParity(h: History, chain: seq<Node>) {
    forall i, j :: 0 <= i < j < |chain| ==> PairParity(h, chain[i], chain[j])
  }

  ghost predicate ChainsInParity(h: History) {
    Dated(h) && forall b :: 0 <= b < |h.table.buckets| ==> ChainInParity(h, h.table.buckets[b].chain)
  }

  lemma ParityOfPair(h: History, chain: seq<Node>, u: Node, v: Node)
    requires ChainInParity(h, chain) && Before(chain, u, v)
    ensures PairParity(h, u, v)
  {
  }

  lemma BeforeMembers(s: seq<Node>, u: Node, v: Node)
    requires Before(s, u, v)
    ensures u in s && v in s
    ensures NoDuplicates(s) ==> u != v && !Before(s, v, u)
  {
  }

  lemma BeforeAppended(s: seq<Node>, x: Node, u: Node, v: Node)
    ensures Before(s, u, v) ==> Before(s + [x], u, v)
    ensures u in s ==> Before(s + [x], u, x)
  {
    if Before(s, u, v) {
      var i, j :| 0 <= i < j < |s| && s[i] == u && s[j] == v;
      assert (s + [x])[i] == u && (s + [x])[j] == v;
    }
    if u in s {
      var i :| 0 <= i < |s| && s[i] == u;
      assert (s + [x])[i] == u && (s + [x])[|s|] == x;
    }
  }

  lemma BeforePrepended(s: seq<Node>, x: Node, u: Node, v: Node)
    requires Before([x] + s, u, v)
    ensures Before(s, u, v) || (u == x && v in s)
  {
    var i, j :| 0 <= i < j < |[x] + s| && ([x] + s)[i] == u && ([x] + s)[j] == v;
    assert s[j - 1] == v;
    if i > 0 {
      assert s[i - 1] == u;
    }
  }

  lemma BeforeAfterCut(s: seq<Node>, k: nat, u: Node, v: Node)
    requires k < |s| && Before(s[..k] + s[k + 1..], u, v)
    ensures Before(s, u, v)
  {
    var r := s[..k] + s[k + 1..];
    var i, j :| 0 <= i < j < |r| && r[i] == u && r[j] == v;
    var i', j' := if i < k then i else i + 1, if j < k then j else j + 1;
    assert s[i'] == u && s[j'] == v;
  }

  lemma BeforeKeptByCut(s: seq<Node>, k: nat, u: Node, v: Node)
    requires k < |s| && Before(s, u, v) && u != s[k] && v != s[k]
    ensures Before(s[..k] + s[k + 1..], u, v)
  {
    var r := s[..k] + s[k + 1..];
    var i, j :| 0 <= i < j < |s| && s[i] == u && s[j] == v;
    var i', j' := if i < k then i else i - 1, if j < k then j else j - 1;
    assert r[i'] == u && r[j'] == v;
  }

  lemma BeforeWithout(s: seq<Node>, x: Node, u: Node, v: Node)
    requires x in s
    ensures Before(Without(s, x), u, v) ==> Before(s, u, v)
    ensures Before(s, u, v) && u != x && v != x ==> Before(Without(s, x), u, v)
  {
    var k := WithoutIsCut(s, x);
    if Before(Without(s, x), u, v) {
      BeforeAfterCut(s, k, u, v);
    }
    if Before(s, u, v) && u != x && v != x {
      BeforeKeptByCut(s, k, u, v);
    }
  }

  /** An expansion reverses the order within every chain. */
  lemma {:induction false} MovedReverses(chain: seq<Node>, b: nat, n: nat, hash: Hash, u: Node, v: Node)
    requires 0 < n && Before(Moved(chain, b, n, hash), u, v)
    ensures Before(chain, v, u)
  {
    if chain != [] {
      var k := |chain| - 1;
      var rest := Moved(chain[..k], b, n, hash);
      assert chain == chain[..k] + [chain[k]];
      if Before(rest, u, v) {
        MovedReverses(chain[..k], b, n, hash, u, v);
        BeforeAppended(chain[..k], chain[k], v, u);
      } else {
        BeforePrepended(rest, chain[k], u, v);
        MovedContents(chain[..k], b, n, hash);
        BeforeAppended(chain[..k], chain[k], v, u);
      }
    }
  }

  // ---------------------------------------------------------------- every step keeps the parity law

  lemma LinkedParity(h: History, h': History, x: Node, u: Node, v: Node)
    requires PairParity(h, u, v) && u != x && v != x
    requires h'.table.order == h.table.order + [x] && h'.births == h.births[x := h.expansions]
    requires h'.expansions == h.expansions
    ensures PairParity(h', u, v)
  {
    BeforeAppended(h.table.order, x, u, v);
    BeforeAppended(h.table.order, x, v, u);
  }

  lemma NewcomerParity(h: History, h': History, x: Node, v: Node)
    requires Dated(h) && v in h.table.order && v != x
    requires h'.table.order == h.table.order + [x] && h'.births == h.births[x := h.expansions]
    requires h'.expansions == h.expansions
    ensures PairParity(h', x, v)
  {
    BeforeAppended(h.table.order, x, v, x);
  }

  lemma LinkedChainParity(h: History, h': History, x: Node, chain: seq<Node>)
    requires Dated(h) && ChainInParity(h, chain) && x !in chain
    requires forall y :: y in chain ==> y in h.table.order
    requires h'.table.order == h.table.order + [x] && h'.births == h.births[x := h.expansions]
    requires h'.expansions == h.expansions
    ensures ChainInParity(h', chain) && ChainInParity(h', [x] + chain)
  {
    forall i, j | 0 <= i < j < |chain|
      ensures PairParity(h', chain[i], chain[j])
    {
      LinkedParity(h, h', x, chain[i], chain[j]);
    }
    var chain' := [x] + chain;
    forall i, j | 0 <= i < j < |chain'|
      ensures PairParity(h', chain'[i], chain'[j])
    {
      assert chain'[j] == chain[j - 1];
      if i == 0 {
        NewcomerParity(h, h', x, chain[j - 1]);
      } else {
        assert chain'[i] == chain[i - 1];
      }
    }
  }

  lemma InsertKeepsParity(h: History, x: Node, hash: Hash)
    requires Consistent(h.table, hash) && ChainsInParity(h) && x !in h.table.order
    ensures 0 < |h.table.buckets| && ToBucket(hash(x.elem.key), |h.table.buckets|) < |h.table.buckets|
    ensures ChainsInParity(History(Linked(h.table, x, hash), h.births[x := h.expansions], h.expansions))
  {
    var t := h.table;
    ToBucketIsMod(hash(x.elem.key), t, hash);
    var h' := History(Linked(t, x, hash), h.births[x := h.expansions], h.expansions);
    forall b | 0 <= b < |t.buckets|
      ensures ChainInParity(h', h'.table.buckets[b].chain)
    {
      assert ChainOf(t.buckets[b].chain, b, t, hash) && ChainInParity(h, t.buckets[b].chain);
      LinkedChainParity(h, h', x, t.buckets[b].chain);
    }
  }

  lemma FlippedParity(h: History, t': Table, u: Node, v: Node)
    requires PairParity(h, v, u) && t'.order == h.table.order
    ensures PairParity(History(t', h.births, h.expansions + 1), u, v)
  {
  }

  lemma ExpandFlipsParity(h: History, hash: Hash)
    requires Consistent(h.table, hash) && ChainsInParity(h) && h.table.order != []
    ensures 0 < IdealLength(|h.table.order|, h.table.log2)
    ensures ChainsInParity(History(Expand(h.table, hash), h.births, h.expansions + 1))
  {
    var t := h.table;
    IdealPositive(|t.order|, t.log2);
    var t' := Expand(t, hash);
    var h' := History(t', h.births, h.expansions + 1);
    forall b | 0 <= b < |t'.buckets|
      ensures ChainInParity(h', t'.buckets[b].chain)
    {
      var from, chain := t.buckets[b % |t.buckets|].chain, t'.buckets[b].chain;
      assert ChainInParity(h, from);
      assert chain == Moved(from, b, 2 * |t.buckets|, hash);
      forall i, j | 0 <= i < j < |chain|
        ensures PairParity(h', chain[i], chain[j])
      {
        MovedReverses(from, b, 2 * |t.buckets|, hash, chain[i], chain[j]);
        ParityOfPair(h, from, chain[j], chain[i]);
        FlippedParity(h, t', chain[i], chain[j]);
      }
    }
  }

  lemma UnlinkedParity(h: History, t': Table, x: Node, u: Node, v: Node)
    requires NoDuplicates(h.table.order) && x in h.table.order && t'.order == Without(h.table.order, x)
    requires PairParity(h, u, v) && u != x && v != x
    ensures PairParity(h.(table := t'), u, v)
  {
    BeforeWithout(h.table.order, x, u, v);
    BeforeWithout(h.table.order, x, v, u);
  }

  lemma UnlinkedChainParity(h: History, t': Table, x: Node, chain: seq<Node>, chain': seq<Node>)
    requires NoDuplicates(h.table.order) && x in h.table.order && t'.order == Without(h.table.order, x)
    requires ChainInParity(h, chain) && NoDuplicates(chain) && x !in chain'
    requires chain' == chain || (x in chain && chain' == Without(chain, x))
    ensures ChainInParity(h.(table := t'), chain')
  {
    forall i, j | 0 <= i < j < |chain'|
      ensures PairParity(h.(table := t'), chain'[i], chain'[j])
    {
      var u, v := chain'[i], chain'[j];
      assert Before(chain', u, v);
      if chain' != chain {
        BeforeWithout(chain, x, u, v);
      }
      ParityOfPair(h, chain, u, v);
      UnlinkedParity(h, t', x, u, v);
    }
  }

  lemma WithoutDated(h: History, t': Table, x: Node)
    requires Dated(h) && t'.order == Without(h.table.order, x) && x in h.table.order
    requires NoDuplicates(h.table.order)
    ensures Dated(h.(table := t'))
  {
    WithoutContents(h.table.order, x);
  }

  lemma DeletedChain(t: Table, x: Node, b: nat, hash: Hash)
    requires Consistent(t, hash) && x in t.order && t.order != [x] && b < |t.buckets|
    ensures 0 < |t.buckets| && ToBucket(hash(x.elem.key), |t.buckets|) < |t.buckets|
    ensures |Delete(t, x, hash).buckets| == |t.buckets| && NoDuplicates(t.buckets[b].chain)
    ensures
      var chain, chain' := t.buckets[b].chain, Delete(t, x, hash).buckets[b].chain;
      x !in chain' && (chain' == chain || (x in chain && chain' == Without(chain, x)))
  {
    ToBucketIsMod(hash(x.elem.key), t, hash);
    var chain := t.buckets[b].chain;
    assert ChainOf(chain, b, t, hash);
    if b == hash(x.elem.key) % |t.buckets| {
      WithoutContents(chain, x);
    }
  }

  lemma RemoveKeepsParity(h: History, x: Node, hash: Hash)
    requires Consistent(h.table, hash) && ChainsInParity(h) && x in h.table.order && h.table.order != [x]
    ensures 0 < |h.table.buckets| && ToBucket(hash(x.elem.key), |h.table.buckets|) < |h.table.buckets|
    ensures ChainsInParity(h.(table := Delete(h.table, x, hash)))
  {
    var t := h.table;
    ToBucketIsMod(hash(x.elem.key), t, hash);
    var t' := Delete(t, x, hash);
    var h' := h.(table := t');
    WithoutDated(h, t', x);
    forall b | 0 <= b < |t'.buckets|
      ensures ChainInParity(h', t'.buckets[b].chain)
    {
      DeletedChain(t, x, b, hash);
      assert ChainInParity(h, t.buckets[b].chain);
      UnlinkedChainParity(h, t', x, t.buckets[b].chain, t'.buckets[b].chain);
    }
  }

  lemma EmptyInParity(h: History)
    requires h.table == MakeTable()
    ensures ChainsInParity(h)
  {
  }

  lemma StepKeepsParity(h: History, op: Op, hash: Hash)
    requires Consistent(h.table, hash) && ChainsInParity(h)
    ensures ChainsInParity(Step(h, op, hash))
  {
    var x := op.x;
    if op.Insert? && x !in h.table.order {
      InsertKeepsParity(h, x, hash);
      var linked := History(Linked(h.table, x, hash), h.births[x := h.expansions], h.expansions);
      if Triggers(h.table, x, hash) {
        LinkedConsistent(h.table, x, hash);
        ExpandFlipsParity(linked, hash);
        assert Step(h, op, hash) == History(Expand(linked.table, hash), linked.births, linked.expansions + 1);
      } else {
        assert Step(h, op, hash) == linked;
      }
    } else if op.Remove? && h.table.order == [x] {
      EmptyInParity(Step(h, op, hash));
    } else if op.Remove? && x in h.table.order {
      RemoveKeepsParity(h, x, hash);
    }
  }

  lemma {:induction false} RunKeepsParity(ops: seq<Op>, hash: Hash)
    ensures ChainsInParity(Run(ops, hash))
  {
    if ops != [] {
      var k := |ops| - 1;
      RunKeepsParity(ops[..k], hash);
      StepKeepsParity(Run(ops[..k], hash), ops[k], hash);
    }
  }

  // ---------------------------------------------------------------- which of them a lookup returns

  /** The item found precedes every other item of its key in its chain. */
  lemma FoundIsFirst(t: Table, key: Key, hash: Hash, w: Node)
    requires Consistent(t, hash) && w in t.order && w.elem.key == key
    ensures 0 < |t.buckets| && ToBucket(hash(key), |t.buckets|) < |t.buckets|
    ensures
      var r := Find(t, key, hash);
      r != null && (r == w || Before(t.buckets[hash(key) % |t.buckets|].chain, r, w))
  {
    ToBucketIsMod(hash(key), t, hash);
    var chain := t.buckets[hash(key) % |t.buckets|].chain;
    FindInChainFirst(chain, key);
    var r := Find(t, key, hash);
    assert w in chain;
    var i :| 0 <= i < |chain| && chain[i] == r && forall j :: 0 <= j < i ==> chain[j].elem.key != key;
    var j :| 0 <= j < |chain| && chain[j] == w;
    assert j >= i;
  }

  /** `v` is the newest live item of its key. */
  ghost predicate Newest(t: Table, v: Node) {
    v in t.order && forall u :: u in t.order && u.elem.key == v.elem.key && u != v ==> Before(t.order, u, v)
  }

  lemma ChainHeadParity(h: History, chain: seq<Node>, r: Node, u: Node, v: Node)
    requires Dated(h) && NoDuplicates(h.table.order) && Newest(h.table, v) && ChainInParity(h, chain)
    requires u in h.table.order && u != v && u.elem.key == v.elem.key
    requires r in h.table.order && r.elem.key == v.elem.key
    requires r == v || Before(chain, r, v)
    requires r == u || Before(chain, r, u)
    ensures v in h.births && h.births[v] <= h.expansions
    ensures r == v <==> (h.expansions - h.births[v]) % 2 == 0
  {
    if r == v {
      ParityOfPair(h, chain, v, u);
      BeforeMembers(h.table.order, u, v);
    } else {
      ParityOfPair(h, chain, r, v);
      BeforeMembers(h.table.order, r, v);
    }
  }

  /** Lookup of the key of `v` returns `v` exactly after an even number of expansions since its add. */
  ghost predicate FoundByParity(h: History, v: Node, hash: Hash) {
    && v in h.births && h.births[v] <= h.expansions
    && 0 < |h.table.buckets| && ToBucket(hash(v.elem.key), |h.table.buckets|) < |h.table.buckets|
    && (Find(h.table, v.elem.key, hash) == v <==> (h.expansions - h.births[v]) % 2 == 0)
  }

  lemma NewestFoundByParity(h: History, v: Node, u: Node, hash: Hash)
    requires Consistent(h.table, hash) && ChainsInParity(h) && Newest(h.table, v)
    requires u in h.table.order && u != v && u.elem.key == v.elem.key
    ensures FoundByParity(h, v, hash)
  {
    var t, key := h.table, v.elem.key;
    FoundIsFirst(t, key, hash, v);
    FoundIsFirst(t, key, hash, u);
    FindCorrect(t, key, hash);
    var chain := t.buckets[hash(key) % |t.buckets|].chain;
    assert ChainInParity(h, chain);
    ChainHeadParity(h, chain, Find(t, key, hash), u, v);
  }

  /**
   * When two or more live items share a key, lookup returns the newest exactly when the number
   * of expansions since it was added, its own included, is even.
   */
  lemma LookupParity(ops: seq<Op>, v: Node, u: Node, hash: Hash)
    requires
      var t := Run(ops, hash).table;
      Newest(t, v) && u in t.order && u != v && u.elem.key == v.elem.key
    ensures FoundByParity(Run(ops, hash), v, hash)
  {
    RunKeepsParity(ops, hash);
    NewestFoundByParity(Run(ops, hash), v, u, hash);
  }

  lemma RunExtended(ops: seq<Op>, op: Op, hash: Hash)
    ensures Run(ops + [op], hash) == Step(Run(ops, hash), op, hash)
  {
    assert (ops + [op])[..|ops|] == ops;
  }

  lemma InsertIsNewest(h: History, x: Node, hash: Hash)
    requires Consistent(h.table, hash) && x !in h.table.order
    ensures 0 < |h.table.buckets| && ToBucket(hash(x.elem.key), |h.table.buckets|) < |h.table.buckets|
    ensures
      var h' := Step(h, Insert(x), hash);
      && h'.table.order == h.table.order + [x] && Newest(h'.table, x)
      && x in h'.births && h'.expansions - h'.births[x] == if Triggers(h.table, x, hash) then 1 else 0
  {
    AddConsistent(h.table, x, hash);
    var order := h.table.order;
    forall u | u in order + [x] && u != x
      ensures Before(order + [x], u, x)
    {
      BeforeAppended(order, x, u, x);
    }
  }

  lemma SoleItemFound(t: Table, x: Node, hash: Hash)
    requires Consistent(t, hash) && x in t.order
    requires forall u :: u in t.order && u != x ==> u.elem.key != x.elem.key
    ensures 0 < |t.buckets| && ToBucket(hash(x.elem.key), |t.buckets|) < |t.buckets|
    ensures Find(t, x.elem.key, hash) == x
  {
    FindCorrect(t, x.elem.key, hash);
  }

  /**
   * Adding an item under a key that is already live replaces nothing: the key reads back as the
   * new item exactly when the add triggers no expansion or no other live item has the key.
   */
  lemma ReadAfterWrite(ops: seq<Op>, x: Node, hash: Hash)
    requires x !in Reference(ops)
    ensures
      var t, t', key := Run(ops, hash).table, Run(ops + [Insert(x)], hash).table, x.elem.key;
      && 0 < |t.buckets| && ToBucket(hash(key), |t.buckets|) < |t.buckets|
      && 0 < |t'.buckets| && ToBucket(hash(key), |t'.buckets|) < |t'.buckets|
      && t'.order == t.order + [x]
      && (Find(t', key, hash) == x <==>
            !Triggers(t, x, hash) || forall u :: u in t.order ==> u.elem.key != key)
  {
    var h, key, ops' := Run(ops, hash), x.elem.key, ops + [Insert(x)];
    RunOrder(ops, hash);
    RunExtended(ops, Insert(x), hash);
    InsertIsNewest(h, x, hash);
    if u :| u in h.table.order && u.elem.key == key {
      LookupParity(ops', x, u, hash);
    } else {
      SoleItemFound(Run(ops', hash).table, x, hash);
    }
  }
}
