/**
 * The record that the list and hash macros link together: a payload that never changes, the
 * two links of an ordinary list (or of the hash table's insertion order), and the two links of
 * a bucket chain.
 */
module Elements {
  type Key(==, !new) = seq<char>
  datatype Elem = Elem(key: Key, data: seq<char>)

  class Node {
    const elem: Elem
    var hashv: nat
    var prev: Node?
    var next: Node?
    var hhPrev: Node?
    var hhNext: Node?

    constructor (elem: Elem)
      ensures this.elem == elem
    {
      this.elem := elem;
    }
  }

  ghost predicate NoDuplicates<T>(s: seq<T>) {
    forall i, j :: 0 <= i < j < |s| ==> s[i] != s[j]
  }

  ghost function NodesOf(s: seq<Node>): set<Node> {
    set n | n in s
  }

  lemma NodesOfAppended(s: seq<Node>, x: Node)
    ensures NodesOf(s + [x]) == NodesOf(s) + {x}
  {
  }

  lemma NodesOfCut(s: seq<Node>, k: nat)
    requires k < |s| && NoDuplicates(s)
    ensures NodesOf(s[..k] + s[k + 1..]) == NodesOf(s) - {s[k]}
  {
    assert s == s[..k] + [s[k]] + s[k + 1..];
  }

  /** Which of the list macros' shapes a sequence of linked nodes has. */
  datatype Shape = Singly | Doubly | Circular | HashOrder
}
