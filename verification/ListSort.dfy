/**
 * The in-place list merge sorts: LL_SORT, DL_SORT and CDL_SORT of utlist.h and HASH_SRT of
 * uthash.h. The four macros share one algorithm and differ in how the ends are linked, so the
 * passes take the shape as a parameter. They are proved to relink the nodes into exactly the
 * sequence that `MergeSorting.SortFrom` computes.
 */
module ListSort {
  import opened Elements
  import opened MergeSorting

  // ---------------------------------------------------------------- shapes of linked lists

  ghost function Successor(s: seq<Node>, i: int, circular: bool): Node?
    requires 0 <= i < |s|
  {
    if i + 1 < |s| then s[i + 1] else if circular then s[0] else null
  }

  ghost predicate NextLinked(s: seq<Node>, circular: bool)
    reads s`next
  {
    forall i {:trigger s[i].next} :: 0 <= i < |s| ==> s[i].next == Successor(s, i, circular)
  }

  /** Back links; the head's back link is the tail, except in the hash table's order. */
  ghost predicate PrevLinked(s: seq<Node>, shape: Shape)
    reads s`prev
  {
    forall i {:trigger s[i].prev} :: 0 <= i < |s| ==>
      s[i].prev == if i > 0 then s[i - 1] else if shape.HashOrder? then null else s[|s| - 1]
  }

  ghost predicate Linked(s: seq<Node>, shape: Shape)
    reads s`next, s`prev
  {
    && NoDuplicates(s)
    && NextLinked(s, shape.Circular?)
    && (shape.Singly? || PrevLinked(s, shape))
  }

  /** The node at position `i`, or null past the end. */
  ghost function NodeAt(s: seq<Node>, i: int): Node?
    requires 0 <= i <= |s|
  {
    if i < |s| then s[i] else null
  }

  // ---------------------------------------------------------------- the state of a pass

  /** Nodes `lo..hi` of the list a pass started from still have their links. */
  ghost predicate Intact(s: seq<Node>, lo: int, hi: int, circular: bool)
    requires 0 <= lo && hi <= |s|
    reads s`next
  {
    forall i {:trigger s[i].next} :: lo <= i < hi ==> s[i].next == Successor(s, i, circular)
  }

  /** The nodes emitted so far are linked to each other; the last one's `next` is still open. */
  ghost predicate Emitted(out: seq<Node>, shape: Shape, list: Node?, tail: Node?)
    reads out`next, out`prev
  {
    && NoDuplicates(out)
    && (forall i {:trigger out[i].next} :: 0 <= i < |out| - 1 ==> out[i].next == out[i + 1])
    && (shape.Singly? || forall i {:trigger out[i].prev} :: 0 <= i < |out| ==> out[i].prev == if i > 0 then out[i - 1] else null)
    && (if out == [] then list == null && tail == null else list == out[0] && tail == out[|out| - 1])
  }

  ghost predicate NotEmitted(s: seq<Node>, lo: int, hi: int, out: seq<Node>)
    requires 0 <= lo && hi <= |s|
  {
    forall i :: lo <= i < hi ==> s[i] !in out
  }

  /** The end of a run that would end at `i`. */
  ghost function Clamp(i: int, s: seq<Node>): int {
    if i <= |s| then i else |s|
  }

  ghost predicate Within(s: seq<Node>, nodes: set<Node>) {
    forall i :: 0 <= i < |s| ==> s[i] in nodes
  }

  /** What is emitted and what is still to be emitted make up the goal. */
  ghost predicate Splits(goal: seq<Node>, out: seq<Node>, rest: seq<Node>) {
    goal == out + rest
  }

  lemma SplitsAdvance(goal: seq<Node>, out: seq<Node>, part: seq<Node>, rest: seq<Node>)
    requires Splits(goal, out, part + rest)
    ensures Splits(goal, out + part, rest)
  {
  }

  /** A merge under way: `x..pe` and `y..qe` are what is left of the two runs. */
  ghost predicate Merging(goal: seq<Node>, out: seq<Node>, s: seq<Node>, x: int, pe: int, y: int, qe: int, cmp: Compare) {
    0 <= x <= pe <= y <= qe <= |s| && Splits(goal, out, Merge(s[x..pe], s[y..qe], cmp))
  }

  lemma TakeLeft(goal: seq<Node>, out: seq<Node>, s: seq<Node>, x: int, pe: int, y: int, qe: int, cmp: Compare)
    requires Merging(goal, out, s, x, pe, y, qe, cmp) && x < pe
    requires y == qe || cmp(s[x].elem, s[y].elem) <= 0
    ensures Merging(goal, out + [s[x]], s, x + 1, pe, y, qe, cmp)
  {
    assert s[x..pe][1..] == s[x + 1..pe];
    SplitsAdvance(goal, out, [s[x]], Merge(s[x + 1..pe], s[y..qe], cmp));
  }

  lemma TakeRight(goal: seq<Node>, out: seq<Node>, s: seq<Node>, x: int, pe: int, y: int, qe: int, cmp: Compare)
    requires Merging(goal, out, s, x, pe, y, qe, cmp) && y < qe
    requires x == pe || cmp(s[x].elem, s[y].elem) > 0
    ensures Merging(goal, out + [s[y]], s, x, pe, y + 1, qe, cmp)
  {
    assert s[y..qe][1..] == s[y + 1..qe];
    SplitsAdvance(goal, out, [s[y]], Merge(s[x..pe], s[y + 1..qe], cmp));
  }

  lemma MergeDone(goal: seq<Node>, out: seq<Node>, s: seq<Node>, x: int, y: int, cmp: Compare)
    requires Merging(goal, out, s, x, x, y, y, cmp)
    ensures out == goal
  {
  }

  /** Read a node's successor; the circular macro stops at the old head. */
  method Advance(n: Node, oldHead: Node, circular: bool, ghost s: seq<Node>, ghost i: int) returns (next: Node?)
    requires 0 <= i < |s| && s[i] == n && s[0] == oldHead && NoDuplicates(s) && n.next == Successor(s, i, circular)
    ensures next == NodeAt(s, i + 1)
  {
    next := n.next;
    if circular && next == oldHead {
      next := null;
    }
  }

  /** Append one node to the output. */
  method Emit(list: Node?, tail: Node?, e: Node, shape: Shape, ghost out: seq<Node>) returns (list': Node)
    requires Emitted(out, shape, list, tail) && e !in out
    modifies (if tail == null then {} else {tail})`next, e`prev
    ensures Emitted(out + [e], shape, list', e)
  {
    if tail != null {
      tail.next := e;
      list' := list;
    } else {
      list' := e;
    }
    if shape != Singly {
      e.prev := tail;
    }
    assert forall i :: 0 <= i < |out| ==> (out + [e])[i] == out[i] && out[i] != e;
  }

  /** Step `q` past the first run. */
  method SkipRun(p: Node, oldHead: Node, k: nat, circular: bool, ghost s: seq<Node>, ghost x: int)
    returns (q: Node?, psize: nat)
    requires 0 <= x < |s| && s[x] == p && s[0] == oldHead && NoDuplicates(s) && 0 < k
    requires Intact(s, x, |s|, circular)
    ensures x + psize == Clamp(x + k, s)
    ensures q == NodeAt(s, x + psize)
  {
    q, psize := p, 0;
    var i := 0;
    while i < k
      invariant 0 <= i <= k && psize == i && x + i <= |s|
      invariant q == NodeAt(s, x + i)
      invariant i < k ==> x + i < |s|
      decreases k - i
    {
      psize := psize + 1;
      q := Advance(q, oldHead, circular, s, x + i);
      if q == null {
        break;
      }
      i := i + 1;
    }
  }

  /** Choose the node to emit next and step past it. */
  method TakeNext(p: Node?, q: Node?, psize: nat, qsize: nat, oldHead: Node, circular: bool, cmp: Compare,
                  ghost s: seq<Node>, ghost x: int, ghost pe: int, ghost y: int, ghost qe: int,
                  ghost out: seq<Node>, ghost goal: seq<Node>)
    returns (e: Node, p': Node?, q': Node?, psize': nat, qsize': nat, ghost x': int, ghost y': int, ghost out': seq<Node>)
    requires Merging(goal, out, s, x, pe, y, qe, cmp) && psize == pe - x && qe == Clamp(y + qsize, s)
    requires psize > 0 || (qsize > 0 && q != null)
    requires (x < pe ==> p == s[x]) && q == NodeAt(s, y)
    requires 0 < |s| && s[0] == oldHead && NoDuplicates(s) && Intact(s, x, pe, circular) && Intact(s, y, |s|, circular)
    ensures (x < pe && e == s[x] && x' == x + 1 && y' == y) || (y < qe && e == s[y] && x' == x && y' == y + 1)
    ensures Merging(goal, out', s, x', pe, y', qe, cmp) && out' == out + [e]
    ensures psize' == pe - x' && qsize' + y' == qsize + y
    ensures (x' < pe ==> p' == s[x']) && q' == NodeAt(s, y')
  {
    p', q', psize', qsize', x', y' := p, q, psize, qsize, x, y;
    var takeQ: bool;
    if psize == 0 {
      takeQ := true;
    } else if qsize == 0 || q == null {
      takeQ := false;
    } else if cmp(p.elem, q.elem) <= 0 {
      takeQ := false;
    } else {
      takeQ := true;
    }
    if takeQ {
      TakeRight(goal, out, s, x, pe, y, qe, cmp);
      e, out' := q, out + [s[y]];
      q' := Advance(q, oldHead, circular, s, y);
      qsize', y' := qsize - 1, y + 1;
    } else {
      TakeLeft(goal, out, s, x, pe, y, qe, cmp);
      e, out' := p, out + [s[x]];
      p' := Advance(p, oldHead, circular, s, x);
      psize', x' := psize - 1, x + 1;
    }
  }

  /** The heap while two runs are merged: the rest of both is intact, the output is linked. */
  ghost predicate MergeState(s: seq<Node>, x: int, pe: int, y: int, qe: int, out: seq<Node>, goal: seq<Node>,
                             shape: Shape, list: Node?, tail: Node?, cmp: Compare)
    reads s`next, out`next, out`prev
  {
    && Merging(goal, out, s, x, pe, y, qe, cmp)
    && Intact(s, x, pe, shape.Circular?) && Intact(s, y, |s|, shape.Circular?)
    && NotEmitted(s, x, pe, out) && NotEmitted(s, y, |s|, out)
    && Emitted(out, shape, list, tail)
  }

  /** Emit the node that was chosen. */
  method EmitNext(e: Node, list: Node?, tail: Node?, shape: Shape, cmp: Compare, ghost s: seq<Node>,
                  ghost x: int, ghost pe: int, ghost y: int, ghost qe: int, ghost x': int, ghost y': int,
                  ghost out: seq<Node>, ghost goal: seq<Node>, ghost nodes: set<Node>)
    returns (list': Node)
    requires NoDuplicates(s) && MergeState(s, x, pe, y, qe, out, goal, shape, list, tail, cmp)
    requires (x < pe && e == s[x] && x' == x + 1 && y' == y) || (y < qe && e == s[y] && x' == x && y' == y + 1)
    requires Merging(goal, out + [e], s, x', pe, y', qe, cmp) && Within(s, nodes) && Within(out, nodes)
    modifies nodes`next, nodes`prev
    ensures MergeState(s, x', pe, y', qe, out + [e], goal, shape, list', e, cmp) && Within(out + [e], nodes)
  {
    list' := Emit(list, tail, e, shape, out);
  }

  /** One round of a merge: choose a node, step past it and emit it. */
  method MergeStep(p: Node?, q: Node?, psize: nat, qsize: nat, oldHead: Node, list: Node?, tail: Node?, shape: Shape, cmp: Compare,
                   ghost s: seq<Node>, ghost x: int, ghost pe: int, ghost y: int, ghost qe: int,
                   ghost out: seq<Node>, ghost goal: seq<Node>, ghost nodes: set<Node>)
    returns (p': Node?, q': Node?, psize': nat, qsize': nat, list': Node, e: Node, ghost x': int, ghost y': int, ghost out': seq<Node>)
    requires MergeState(s, x, pe, y, qe, out, goal, shape, list, tail, cmp) && psize == pe - x && qe == Clamp(y + qsize, s)
    requires psize > 0 || (qsize > 0 && q != null)
    requires (x < pe ==> p == s[x]) && q == NodeAt(s, y)
    requires 0 < |s| && s[0] == oldHead && NoDuplicates(s) && Within(s, nodes) && Within(out, nodes)
    modifies nodes`next, nodes`prev
    ensures (x' == x + 1 && y' == y) || (x' == x && y' == y + 1)
    ensures MergeState(s, x', pe, y', qe, out', goal, shape, list', e, cmp) && Within(out', nodes)
    ensures psize' == pe - x' && qsize' + y' == qsize + y
    ensures (x' < pe ==> p' == s[x']) && q' == NodeAt(s, y')
  {
    e, p', q', psize', qsize', x', y', out' :=
      TakeNext(p, q, psize, qsize, oldHead, shape.Circular?, cmp, s, x, pe, y, qe, out, goal);
    list' := EmitNext(e, list, tail, shape, cmp, s, x, pe, y, qe, x', y', out, goal, nodes);
  }

  /** Merge the run that starts at `p` with the run that starts at `q` onto the output. */
  method MergeRuns(p0: Node, q0: Node?, psize0: nat, oldHead: Node, k: nat, list0: Node?, tail0: Node?,
                   shape: Shape, cmp: Compare,
                   ghost s: seq<Node>, ghost x0: int, ghost qe: int, ghost out0: seq<Node>, ghost goal: seq<Node>,
                   ghost nodes: set<Node>)
    returns (q: Node?, list: Node, tail: Node, ghost out: seq<Node>)
    requires 0 <= x0 < |s| && NoDuplicates(s) && s[0] == oldHead && 0 < psize0 <= k && x0 + psize0 <= |s|
    requires p0 == s[x0] && q0 == NodeAt(s, x0 + psize0) && qe == Clamp(x0 + psize0 + k, s)
    requires MergeState(s, x0, x0 + psize0, x0 + psize0, qe, out0, goal, shape, list0, tail0, cmp)
    requires Within(s, nodes) && Within(out0, nodes)
    modifies nodes`next, nodes`prev
    ensures out == goal && q == NodeAt(s, qe)
    ensures MergeState(s, x0 + psize0, x0 + psize0, qe, qe, out, goal, shape, list, tail, cmp) && Within(out, nodes)
  {
    ghost var x, pe := x0, x0 + psize0;
    ghost var y := pe;
    out := out0;
    var p: Node?, psize, qsize := p0, psize0, k;
    q := q0;
    var l, t := list0, tail0;
    while psize > 0 || (qsize > 0 && q != null)
      invariant x0 <= x && psize == pe - x && qsize == pe + k - y
      invariant MergeState(s, x, pe, y, qe, out, goal, shape, l, t, cmp) && Within(out, nodes)
      invariant (x < pe ==> p == s[x]) && q == NodeAt(s, y)
      decreases pe - x + qe - y
    {
      p, q, psize, qsize, l, t, x, y, out :=
        MergeStep(p, q, psize, qsize, oldHead, l, t, shape, cmp, s, x, pe, y, qe, out, goal, nodes);
    }
    MergeDone(goal, out, s, x, y, cmp);
    list, tail := l, t;
  }

  /** A pass under way: everything before `x` has been merged onto the output. */
  ghost predicate Passing(goal: seq<Node>, out: seq<Node>, s: seq<Node>, x: int, k: nat, cmp: Compare) {
    0 <= x <= |s| && 0 < k && Splits(goal, out, Pass(s[x..], k, cmp))
  }

  lemma PassStep(goal: seq<Node>, out: seq<Node>, s: seq<Node>, x: int, pe: int, qe: int, k: nat, cmp: Compare,
                 out': seq<Node>)
    requires Passing(goal, out, s, x, k, cmp) && x < |s| && pe == Clamp(x + k, s) && qe == Clamp(pe + k, s)
    requires out' == out + Merge(s[x..pe], s[pe..qe], cmp)
    ensures Merging(out', out, s, x, pe, pe, qe, cmp) && Passing(goal, out', s, qe, k, cmp)
  {
    PassUnfolds(s, x, pe, qe, k, cmp);
    SplitsAdvance(goal, out, Merge(s[x..pe], s[pe..qe], cmp), Pass(s[qe..], k, cmp));
  }

  /** A pass merges the first two runs, however short, and goes on with the rest. */
  lemma PassFirst(t: seq<Node>, k: nat, a: nat, b: nat, cmp: Compare)
    requires 0 < |t| && 0 < k && a == Clamp(k, t) && b == Clamp(a + k, t)
    ensures Pass(t, k, cmp) == Merge(t[..a], t[a..b], cmp) + Pass(t[b..], k, cmp)
  {
    if b == |t| {
      assert t[b..] == [] && t[a..b] == t[a..];
      if a == |t| {
        assert t[..a] == t && t[a..] == [];
      }
    } else {
      assert a == k && b == 2 * k;
    }
  }

  lemma PassUnfolds(s: seq<Node>, x: int, pe: int, qe: int, k: nat, cmp: Compare)
    requires 0 <= x < |s| && 0 < k && pe == Clamp(x + k, s) && qe == Clamp(pe + k, s)
    ensures Pass(s[x..], k, cmp) == Merge(s[x..pe], s[pe..qe], cmp) + Pass(s[qe..], k, cmp)
  {
    var t, a, b := s[x..], pe - x, qe - x;
    PassFirst(t, k, a, b, cmp);
    assert t[..a] == s[x..pe] && t[a..b] == s[pe..qe] && t[b..] == s[qe..];
  }

  /** Close the ends of the list that a pass has relinked. */
  method CloseEnds(list: Node, tail: Node, shape: Shape, ghost out: seq<Node>)
    requires out != [] && Emitted(out, shape, list, tail)
    modifies tail`next, list`prev
    ensures Linked(out, shape)
  {
    if shape == Doubly || shape == Circular {
      list.prev := tail;
    }
    if shape == Circular {
      tail.next := list;
    } else {
      tail.next := null;
    }
  }

  lemma PassStart(goal: seq<Node>, s: seq<Node>, k: nat, cmp: Compare)
    requires 0 < k && goal == Pass(s, k, cmp)
    ensures Passing(goal, [], s, 0, k, cmp) && |goal| == |s|
  {
    assert s[0..] == s && [] + goal == goal;
  }

  lemma PassDone(goal: seq<Node>, out: seq<Node>, s: seq<Node>, k: nat, cmp: Compare)
    requires Passing(goal, out, s, |s|, k, cmp)
    ensures out == goal
  {
  }

  /** The heap between two merges of a pass. */
  ghost predicate PassState(s: seq<Node>, x: int, k: nat, out: seq<Node>, goal: seq<Node>,
                            shape: Shape, list: Node?, tail: Node?, cmp: Compare)
    reads s`next, out`next, out`prev
  {
    && Passing(goal, out, s, x, k, cmp)
    && Intact(s, x, |s|, shape.Circular?)
    && NotEmitted(s, x, |s|, out)
    && Emitted(out, shape, list, tail)
  }

  /** Merge the next two runs of a pass. */
  method MergePair(p: Node, head: Node, k: nat, list0: Node?, tail0: Node?, shape: Shape, cmp: Compare,
                   ghost s: seq<Node>, ghost x: int, ghost out0: seq<Node>, ghost goal: seq<Node>, ghost nodes: set<Node>)
    returns (q: Node?, list: Node, tail: Node, ghost out: seq<Node>)
    requires 0 <= x < |s| && p == s[x] && head == s[0] && NoDuplicates(s)
    requires PassState(s, x, k, out0, goal, shape, list0, tail0, cmp)
    requires Within(s, nodes) && Within(out0, nodes)
    modifies nodes`next, nodes`prev
    ensures PassState(s, Clamp(x + 2 * k, s), k, out, goal, shape, list, tail, cmp)
    ensures q == NodeAt(s, Clamp(x + 2 * k, s)) && out != [] && Within(out, nodes)
  {
    var psize: nat;
    q, psize := SkipRun(p, head, k, shape.Circular?, s, x);
    ghost var qe := Clamp(x + psize + k, s);
    assert qe == Clamp(x + 2 * k, s);
    ghost var out' := out0 + Merge(s[x..x + psize], s[x + psize..qe], cmp);
    PassStep(goal, out0, s, x, x + psize, qe, k, cmp, out');
    q, list, tail, out := MergeRuns(p, q, psize, head, k, list0, tail0, shape, cmp, s, x, qe, out0, out', nodes);
  }

  /** Merge the pairs of runs of one pass, one after the other. */
  method MergePairs(head: Node, k: nat, shape: Shape, cmp: Compare,
                    ghost s: seq<Node>, ghost goal: seq<Node>, ghost nodes: set<Node>)
    returns (list: Node, tail: Node, nmerges: nat)
    requires 0 < |s| && head == s[0] && NoDuplicates(s) && Within(s, nodes)
    requires PassState(s, 0, k, [], goal, shape, null, null, cmp)
    modifies nodes`next, nodes`prev
    ensures goal != [] && Emitted(goal, shape, list, tail) && Within(goal, nodes)
    ensures nmerges <= 1 <==> |s| <= 2 * k
  {
    var p: Node?, l: Node?, t: Node? := head, null, null;
    nmerges := 0;
    ghost var x, out: seq<Node> := 0, [];
    while p != null
      invariant PassState(s, x, k, out, goal, shape, l, t, cmp) && Within(out, nodes)
      invariant p == NodeAt(s, x) && (x > 0 ==> out != [])
      invariant (nmerges == 0 ==> x == 0) && (nmerges == 1 ==> x == Clamp(2 * k, s)) && (nmerges > 1 ==> |s| > 2 * k)
      decreases |s| - x
    {
      nmerges := nmerges + 1;
      p, l, t, out := MergePair(p, head, k, l, t, shape, cmp, s, x, out, goal, nodes);
      x := Clamp(x + 2 * k, s);
    }
    PassDone(goal, out, s, k, cmp);
    list, tail := l, t;
  }

  /** One pass over the whole list. */
  method MergePass(head: Node, k: nat, shape: Shape, cmp: Compare,
                   ghost s: seq<Node>, ghost goal: seq<Node>, ghost nodes: set<Node>)
    returns (list: Node, tail: Node, nmerges: nat)
    requires 0 < k && s != [] && head == s[0] && NoDuplicates(s) && NextLinked(s, shape.Circular?)
    requires Within(s, nodes) && goal == Pass(s, k, cmp)
    modifies nodes`next, nodes`prev
    ensures Linked(goal, shape) && |goal| == |s| && list == goal[0] && tail == goal[|s| - 1] && Within(goal, nodes)
    ensures nmerges <= 1 <==> |s| <= 2 * k
  {
    PassStart(goal, s, k, cmp);
    list, tail, nmerges := MergePairs(head, k, shape, cmp, s, goal, nodes);
    CloseEnds(list, tail, shape, goal);
  }

  /**
   * Sort a linked list in place. An empty list is left alone; otherwise passes with runs of
   * 1, 2, 4, ... are made until one of them merges at most one pair.
   */
  method SortList(head: Node?, shape: Shape, cmp: Compare, ghost s: seq<Node>)
    returns (list: Node?, tail: Node?, ghost r: seq<Node>)
    requires head == (if s == [] then null else s[0]) && Linked(s, shape)
    modifies s`next, s`prev
    ensures r == SortFrom(s, 1, cmp) && Linked(r, shape)
    ensures if r == [] then list == null && tail == null else list == r[0] && tail == r[|r| - 1]
  {
    r := s;
    ghost var nodes := set n | n in s;
    list, tail := head, null;
    if head != null {
      var k := 1;
      var looping := true;
      while looping
        invariant 0 < k && |r| == |s| && Linked(r, shape) && Within(r, nodes)
        invariant list == r[0] && (looping || tail == r[|r| - 1])
        invariant SortFrom(s, 1, cmp) == if looping then SortFrom(r, k, cmp) else r
        decreases looping, |s| - k
      {
        var nmerges: nat;
        ghost var goal := Pass(r, k, cmp);
        list, tail, nmerges := MergePass(list, k, shape, cmp, r, goal, nodes);
        r := goal;
        if nmerges <= 1 {
          looping := false;
        }
        k := k * 2;
      }
    }
  }

  /** Sorting relinks the list into a stable sort of itself, for every total preorder. */
  method StableSortList(head: Node?, shape: Shape, cmp: Compare, ghost s: seq<Node>)
    returns (list: Node?, tail: Node?, ghost r: seq<Node>)
    requires head == (if s == [] then null else s[0]) && Linked(s, shape) && TotalPreorder(cmp)
    modifies s`next, s`prev
    ensures StablySorted(s, r, cmp) && Linked(r, shape)
    ensures if r == [] then list == null && tail == null else list == r[0] && tail == r[|r| - 1]
  {
    list, tail, r := SortList(head, shape, cmp, s);
    SortIsStable(s, cmp);
  }
}
