/**
 * What cutting a node out of a linked list, or splicing one in, does to the links: one link of
 * each direction changes and the lists without or with the node are linked again.
 */
module Splices {
  import opened Elements
  import opened ListSort

  /** The node whose `next` leads to node `k`, or -1. */
  function Predecessor(n: nat, k: nat, circular: bool): int
    requires k < n
  {
    if k > 0 then k - 1 else if circular then n - 1 else -1
  }

  /** The node whose `prev` is node `k`, or -1. */
  function Follower(n: nat, k: nat, shape: Shape): int
    requires k < n
  {
    if k + 1 < n then k + 1 else if shape.HashOrder? then -1 else 0
  }

  function Cut<T>(s: seq<T>, k: nat): (r: seq<T>)
    requires k < |s|
    ensures |r| == |s| - 1 && forall i :: 0 <= i < |r| ==> r[i] == s[if i < k then i else i + 1]
  {
    s[..k] + s[k + 1..]
  }

  function Spliced<T>(s: seq<T>, k: nat, x: T): (r: seq<T>)
    requires k <= |s|
    ensures |r| == |s| + 1 && forall i :: 0 <= i < |r| ==> r[i] == if i < k then s[i] else if i == k then x else s[i - 1]
  {
    s[..k] + [x] + s[k..]
  }

  /** What the back link of node `i` is in a list of the shape. */
  ghost function Back(s: seq<Node>, i: int, shape: Shape): Node?
    requires 0 <= i < |s|
  {
    if i > 0 then s[i - 1] else if shape.HashOrder? then null else s[|s| - 1]
  }

  /** Node `k` is passed over and the other links are as they were. */
  lemma CutNext(s: seq<Node>, k: nat, circular: bool, p: int)
    requires k < |s| && p == Predecessor(|s|, k, circular)
    requires p >= 0 && p != k ==> s[p].next == Successor(s, k, circular)
    requires forall i {:trigger s[i].next} :: 0 <= i < |s| && i != k && i != p ==> s[i].next == Successor(s, i, circular)
    ensures NextLinked(Cut(s, k), circular)
  {
    var r := Cut(s, k);
    forall i {:trigger r[i].next} | 0 <= i < |r|
      ensures r[i].next == Successor(r, i, circular)
    {
      var j := if i < k then i else i + 1;
      assert r[i] == s[j];
    }
  }

  lemma CutPrev(s: seq<Node>, k: nat, shape: Shape, q: int)
    requires k < |s| && q == Follower(|s|, k, shape)
    requires q >= 0 && q != k ==> s[q].prev == Back(s, k, shape)
    requires forall i {:trigger s[i].prev} :: 0 <= i < |s| && i != k && i != q ==> s[i].prev == Back(s, i, shape)
    ensures PrevLinked(Cut(s, k), shape)
  {
    var r := Cut(s, k);
    forall i {:trigger r[i].prev} | 0 <= i < |r|
      ensures r[i].prev == Back(r, i, shape)
    {
      var j := if i < k then i else i + 1;
      assert r[i] == s[j];
    }
  }

  /** A node is put before node `k` and the other links are as they were. */
  lemma SplicedNext(s: seq<Node>, k: nat, add: Node, circular: bool, p: int)
    requires k < |s| && p == Predecessor(|s|, k, circular) && add.next == s[k] && (p >= 0 ==> s[p].next == add)
    requires forall i {:trigger s[i].next} :: 0 <= i < |s| && i != p ==> s[i].next == Successor(s, i, circular)
    ensures NextLinked(Spliced(s, k, add), circular)
  {
    var r := Spliced(s, k, add);
    forall i {:trigger r[i].next} | 0 <= i < |r|
      ensures r[i].next == Successor(r, i, circular)
    {
      if i != k {
        var j := if i < k then i else i - 1;
        assert r[i] == s[j];
      }
    }
  }

  lemma SplicedPrev(s: seq<Node>, k: nat, add: Node, shape: Shape)
    requires k < |s| && !shape.HashOrder? && add.prev == Back(s, k, shape) && s[k].prev == add
    requires forall i {:trigger s[i].prev} :: 0 <= i < |s| && i != k ==> s[i].prev == Back(s, i, shape)
    ensures PrevLinked(Spliced(s, k, add), shape)
  {
    var r := Spliced(s, k, add);
    forall i {:trigger r[i].prev} | 0 <= i < |r|
      ensures r[i].prev == Back(r, i, shape)
    {
      if i != k {
        var j := if i < k then i else i - 1;
        assert r[i] == s[j];
      }
    }
  }

  lemma CutDistinct(s: seq<Node>, k: nat)
    requires k < |s| && NoDuplicates(s)
    ensures NoDuplicates(Cut(s, k))
  {
  }

  lemma SplicedDistinct(s: seq<Node>, k: nat, add: Node)
    requires k <= |s| && NoDuplicates(s) && add !in s
    ensures NoDuplicates(Spliced(s, k, add))
  {
  }
}
