/**
 * The doubly linked and the circular list operations of utlist.h. A list is reached through its
 * head; each operation relinks nodes in place and is proved to do to the sequence of nodes what
 * its name says.
 */
module LinkedLists {
  import opened Elements
  import opened ListSort
  import opened Splices

  /** `head` leads to the nodes of `s`, linked as the shape asks. */
  ghost predicate List(head: Node?, s: seq<Node>, shape: Shape)
    reads s`next, s`prev
  {
    head == (if s == [] then null else s[0]) && Linked(s, shape)
  }

  /** What the links of node `k` are. */
  lemma LinksAt(head: Node?, s: seq<Node>, shape: Shape, k: nat)
    requires List(head, s, shape) && k < |s| && (shape.Doubly? || shape.Circular?)
    ensures s[k].next == Successor(s, k, shape.Circular?)
    ensures s[k].prev == if k > 0 then s[k - 1] else s[|s| - 1]
  {
  }

  // ---------------------------------------------------------------- null-ended lists

  /** DL_PREPEND. */
  method Prepend(head: Node?, add: Node, ghost s: seq<Node>) returns (head': Node)
    requires List(head, s, Doubly) && add !in s
    modifies s`next, s`prev, add`next, add`prev
    ensures List(head', [add] + s, Doubly)
  {
    ghost var r := [add] + s;
    add.next := head;
    if head != null {
      LinksAt(head, s, Doubly, 0);
      add.prev := head.prev;
      head.prev := add;
    } else {
      add.prev := add;
    }
    head' := add;
    assert forall i :: 1 <= i < |r| ==> r[i] == s[i - 1] && r[i] != add;
  }

  /** DL_APPEND. */
  method Append(head: Node?, add: Node, ghost s: seq<Node>) returns (head': Node)
    requires List(head, s, Doubly) && add !in s
    modifies s`next, s`prev, add`next, add`prev
    ensures List(head', s + [add], Doubly)
  {
    ghost var r := s + [add];
    if head != null {
      LinksAt(head, s, Doubly, 0);
      add.prev := head.prev;
      head.prev.next := add;
      head.prev := add;
      add.next := null;
      head' := head;
    } else {
      head' := add;
      head'.prev := head';
      head'.next := null;
    }
    assert forall i :: 0 <= i < |s| ==> r[i] == s[i] && r[i] != add;
  }

  /** DL_CONCAT: append the second list to the first. */
  method Concat(head1: Node?, head2: Node?, ghost s: seq<Node>, ghost t: seq<Node>) returns (head: Node?)
    requires List(head1, s, Doubly) && List(head2, t, Doubly)
    requires forall i, j :: 0 <= i < |s| && 0 <= j < |t| ==> s[i] != t[j]
    modifies s`next, s`prev, t`prev
    ensures List(head, s + t, Doubly)
  {
    ghost var r := s + t;
    head := head1;
    if head2 != null {
      if head1 != null {
        LinksAt(head1, s, Doubly, 0);
        LinksAt(head2, t, Doubly, 0);
        var last := head2.prev;
        head2.prev := head1.prev;
        head1.prev.next := head2;
        head1.prev := last;
      } else {
        head := head2;
      }
    }
    assert forall i :: 0 <= i < |r| ==> r[i] == if i < |s| then s[i] else t[i - |s|];
  }

  /** DL_DELETE. */
  method Delete(head: Node, del: Node, ghost s: seq<Node>, ghost k: nat) returns (head': Node?)
    requires List(head, s, Doubly) && k < |s| && s[k] == del
    modifies s`next, s`prev
    ensures List(head', Cut(s, k), Doubly)
  {
    LinksAt(head, s, Doubly, k);
    LinksAt(head, s, Doubly, 0);
    head' := head;
    if del.prev == del {
      head' := null;
    } else if del == head {
      del.next.prev := del.prev;
      head' := del.next;
    } else {
      del.prev.next := del.next;
      if del.next != null {
        del.next.prev := del.prev;
      } else {
        head.prev := del.prev;
      }
    }
    CutNext(s, k, false, Predecessor(|s|, k, false));
    CutPrev(s, k, Doubly, Follower(|s|, k, Doubly));
    CutDistinct(s, k);
  }

  /** DL_REPLACE_ELEM. */
  method Replace(head: Node, el: Node, add: Node, ghost s: seq<Node>, ghost k: nat) returns (head': Node)
    requires List(head, s, Doubly) && k < |s| && s[k] == el && add !in s
    modifies s`next, s`prev, add`next, add`prev
    ensures List(head', s[k := add], Doubly)
  {
    LinksAt(head, s, Doubly, k);
    LinksAt(head, s, Doubly, 0);
    if head == el {
      head' := add;
      add.next := el.next;
      if el.next == null {
        add.prev := add;
      } else {
        add.prev := el.prev;
        add.next.prev := add;
      }
    } else {
      head' := head;
      add.next := el.next;
      add.prev := el.prev;
      add.prev.next := add;
      if el.next == null {
        head.prev := add;
      } else {
        add.next.prev := add;
      }
    }
    assert forall i :: 0 <= i < |s| && i != k ==> s[k := add][i] == s[i] && s[i] != add;
  }

  /** DL_PREPEND_ELEM: insert before an element. */
  method InsertBefore(head: Node, el: Node, add: Node, ghost s: seq<Node>, ghost k: nat) returns (head': Node)
    requires List(head, s, Doubly) && k < |s| && s[k] == el && add !in s
    modifies s`next, s`prev, add`next, add`prev
    ensures List(head', Spliced(s, k, add), Doubly)
  {
    LinksAt(head, s, Doubly, k);
    LinksAt(head, s, Doubly, 0);
    add.next := el;
    add.prev := el.prev;
    el.prev := add;
    if head == el {
      head' := add;
    } else {
      head' := head;
      add.prev.next := add;
    }
    SplicedNext(s, k, add, false, Predecessor(|s|, k, false));
    SplicedPrev(s, k, add, Doubly);
    SplicedDistinct(s, k, add);
  }

  // ---------------------------------------------------------------- circular lists

  /** CDL_PREPEND. */
  method PrependCircular(head: Node?, add: Node, ghost s: seq<Node>) returns (head': Node)
    requires List(head, s, Circular) && add !in s
    modifies s`next, s`prev, add`next, add`prev
    ensures List(head', [add] + s, Circular)
  {
    ghost var r := [add] + s;
    if head != null {
      LinksAt(head, s, Circular, 0);
      add.prev := head.prev;
      add.next := head;
      head.prev := add;
      add.prev.next := add;
    } else {
      add.prev := add;
      add.next := add;
    }
    head' := add;
    assert forall i :: 1 <= i < |r| ==> r[i] == s[i - 1] && r[i] != add;
  }

  /** CDL_DELETE. */
  method DeleteCircular(head: Node, del: Node, ghost s: seq<Node>, ghost k: nat) returns (head': Node?)
    requires List(head, s, Circular) && k < |s| && s[k] == del
    modifies s`next, s`prev
    ensures List(head', Cut(s, k), Circular)
  {
    LinksAt(head, s, Circular, k);
    LinksAt(head, s, Circular, 0);
    head' := head;
    if head == del && head.next == head {
      head' := null;
    } else {
      del.next.prev := del.prev;
      del.prev.next := del.next;
      if del == head {
        head' := del.next;
      }
    }
    CutNext(s, k, true, Predecessor(|s|, k, true));
    CutPrev(s, k, Circular, Follower(|s|, k, Circular));
    CutDistinct(s, k);
  }

  /** CDL_REPLACE_ELEM. */
  method ReplaceCircular(head: Node, el: Node, add: Node, ghost s: seq<Node>, ghost k: nat) returns (head': Node)
    requires List(head, s, Circular) && k < |s| && s[k] == el && add !in s
    modifies s`next, s`prev, add`next, add`prev
    ensures List(head', s[k := add], Circular)
  {
    LinksAt(head, s, Circular, k);
    head' := head;
    if el.next == el {
      add.next := add;
      add.prev := add;
      head' := add;
    } else {
      add.next := el.next;
      add.prev := el.prev;
      add.next.prev := add;
      add.prev.next := add;
      if head == el {
        head' := add;
      }
    }
    assert forall i :: 0 <= i < |s| && i != k ==> s[k := add][i] == s[i] && s[i] != add;
  }

  /** CDL_PREPEND_ELEM. */
  method InsertBeforeCircular(head: Node, el: Node, add: Node, ghost s: seq<Node>, ghost k: nat) returns (head': Node)
    requires List(head, s, Circular) && k < |s| && s[k] == el && add !in s
    modifies s`next, s`prev, add`next, add`prev
    ensures List(head', Spliced(s, k, add), Circular)
  {
    LinksAt(head, s, Circular, k);
    LinksAt(head, s, Circular, 0);
    add.next := el;
    add.prev := el.prev;
    el.prev := add;
    add.prev.next := add;
    head' := if head == el then add else head;
    SplicedNext(s, k, add, true, Predecessor(|s|, k, true));
    SplicedPrev(s, k, add, Circular);
    SplicedDistinct(s, k, add);
  }
}
