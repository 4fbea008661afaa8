/** Whole runs in memory: a table that is made and then used by any sequence of adds and deletes. */
module HashSessions {
  import opened Elements
  import opened HashModel
  import opened HashRuns
  import opened HashTables

  /** Adds are of nodes that are not in the table and deletes of nodes that are. */
  predicate Legal(ops: seq<Op>) {
    forall k :: 0 <= k < |ops| ==> (ops[k].Insert? <==> ops[k].x !in Reference(ops[..k]))
  }

  ghost function NodesUsed(ops: seq<Op>): set<Node> {
    set k | 0 <= k < |ops| :: ops[k].x
  }

  lemma {:induction false} ReferenceUses(ops: seq<Op>, k: nat)
    requires k <= |ops|
    ensures NodesOf(Reference(ops[..k])) <= NodesUsed(ops)
  {
    if k > 0 {
      ReferenceUses(ops, k - 1);
      assert ops[..k][..k - 1] == ops[..k - 1] && ops[..k][k - 1] == ops[k - 1];
      StepUses(Reference(ops[..k - 1]), ops[k - 1]);
    }
  }

  lemma StepUses(live: seq<Node>, op: Op)
    ensures NodesOf(ReferenceStep(live, op)) <= NodesOf(live) + {op.x}
  {
    forall y | y in ReferenceStep(live, op)
      ensures y in live || y == op.x
    {
      WithoutMember(live, op.x, y);
    }
  }

  lemma {:induction false} WithoutMember(s: seq<Node>, x: Node, y: Node)
    ensures y in Without(s, x) ==> y in s
  {
    if s != [] {
      assert s == [s[0]] + s[1..];
      WithoutMember(s[1..], x, y);
    }
  }

  /** The table after the first `k` operations. */
  ghost predicate StateAfter(t: Table, ops: seq<Op>, k: nat, hash: Hash) {
    k <= |ops| && t == Run(ops[..k], hash).table
  }

  lemma NextState(t: Table, ops: seq<Op>, k: nat, hash: Hash)
    requires StateAfter(t, ops, k, hash) && k < |ops|
    ensures t.order == Reference(ops[..k]) && Consistent(t, hash)
    ensures forall births, n :: StateAfter(Step(History(t, births, n), ops[k], hash).table, ops, k + 1, hash)
  {
    assert ops[..k + 1] == ops[..k] + [ops[k]];
    RunExtended(ops[..k], ops[k], hash);
    RunOrder(ops[..k], hash);
    var h := Run(ops[..k], hash);
    forall births, n
      ensures Step(History(t, births, n), ops[k], hash).table == Step(h, ops[k], hash).table
    {
    }
  }

  lemma StateOrder(t: Table, ops: seq<Op>, k: nat, hash: Hash)
    requires StateAfter(t, ops, k, hash)
    ensures NodesOf(t.order) <= NodesUsed(ops)
  {
    RunOrder(ops[..k], hash);
    ReferenceUses(ops, k);
  }

  lemma StepAdds(t: Table, x: Node, t': Table, hash: Hash)
    requires Consistent(t, hash) && x !in t.order && Added(t, x, t', hash)
    ensures Step(History(t, map[], 0), Insert(x), hash).table == t'
  {
  }

  lemma StepDeletes(t: Table, x: Node, t': Table, hash: Hash)
    requires Consistent(t, hash) && x in t.order && Deleted(t, x, t', hash)
    ensures Step(History(t, map[], 0), Remove(x), hash).table == t'
  {
  }

  /** One operation on the memory is the step of the run. */
  method Perform(table: HashTable, op: Op)
    requires table.Valid() && (op.Insert? <==> op.x !in table.model.order)
    modifies table, table.buckets, table.nodes, op.x
    ensures table.Valid() && table.model == Step(History(old(table.model), map[], 0), op, table.hash).table
    ensures table.nodes == NodesOf(table.model.order) && (table.buckets == old(table.buckets) || fresh(table.buckets))
  {
    ghost var t := table.model;
    match op
    case Insert(x) =>
      table.Add(x);
      StepAdds(t, x, table.model, table.hash);
    case Remove(x) =>
      table.Delete(x);
      StepDeletes(t, x, table.model, table.hash);
  }

  method PerformNext(table: HashTable, ops: seq<Op>, k: nat)
    requires Legal(ops) && k < |ops| && table.Valid() && StateAfter(table.model, ops, k, table.hash)
    modifies table, table.buckets, table.nodes, ops[k].x
    ensures table.Valid() && StateAfter(table.model, ops, k + 1, table.hash) && table.nodes <= NodesUsed(ops)
    ensures table.buckets == old(table.buckets) || fresh(table.buckets)
  {
    NextState(table.model, ops, k, table.hash);
    Perform(table, ops[k]);
    StateOrder(table.model, ops, k + 1, table.hash);
  }

  /** After every legal run the memory is valid and holds the table of the run. */
  method Session(ops: seq<Op>, hash: Hash) returns (table: HashTable)
    requires Legal(ops)
    modifies NodesUsed(ops)
    ensures fresh(table) && table.hash == hash && table.Valid() && table.model == Run(ops, hash).table
  {
    table := new HashTable(hash);
    for k := 0 to |ops|
      invariant fresh(table) && fresh(table.buckets) && table.hash == hash && table.nodes <= NodesUsed(ops)
      invariant table.Valid() && StateAfter(table.model, ops, k, hash)
    {
      PerformNext(table, ops, k);
    }
    assert ops[..|ops|] == ops;
  }
}
