/**
 * The bottom-up merge sort as a computation on sequences, and the proof that it is a stable sort.
 */
module MergeSorting {
  import opened Elements
  import opened Sequences

  type Compare = (Elem, Elem) -> int

  /** A comparison callback that the sort macros can be used with: a total preorder. */
  ghost predicate TotalPreorder(cmp: Compare) {
    && (forall x, y :: cmp(x, y) <= 0 || cmp(y, x) <= 0)
    && (forall x, y, z :: cmp(x, y) <= 0 && cmp(y, z) <= 0 ==> cmp(x, z) <= 0)
  }

  ghost predicate Sorted(s: seq<Node>, cmp: Compare) {
    forall i, j :: 0 <= i < j < |s| ==> cmp(s[i].elem, s[j].elem) <= 0
  }

  /** The nodes of `s` that the comparison cannot tell from `x`, in the order `s` has them. */
  ghost function Ties(s: seq<Node>, x: Elem, cmp: Compare): (r: seq<Node>) {
    if s == [] then []
    else (if Tied(s[0].elem, x, cmp) then [s[0]] else []) + Ties(s[1..], x, cmp)
  }

  ghost predicate Tied(x: Elem, y: Elem, cmp: Compare) {
    cmp(x, y) <= 0 && cmp(y, x) <= 0
  }

  /** `r` is `s` sorted stably: the same nodes, in order, and tied nodes keep their order. */
  ghost predicate StablySorted(s: seq<Node>, r: seq<Node>, cmp: Compare) {
    && multiset(r) == multiset(s)
    && Sorted(r, cmp)
    && forall x :: Ties(r, x, cmp) == Ties(s, x, cmp)
  }

  // ---------------------------------------------------------------- one merge

  function Merge(a: seq<Node>, b: seq<Node>, cmp: Compare): (r: seq<Node>)
    ensures |r| == |a| + |b|
  {
    if a == [] then b
    else if b == [] then a
    else if cmp(a[0].elem, b[0].elem) <= 0 then [a[0]] + Merge(a[1..], b, cmp)
    else [b[0]] + Merge(a, b[1..], cmp)
  }

  lemma {:induction false} MergeContents(a: seq<Node>, b: seq<Node>, cmp: Compare)
    ensures multiset(Merge(a, b, cmp)) == multiset(a) + multiset(b)
  {
    if a != [] && b != [] {
      if cmp(a[0].elem, b[0].elem) <= 0 {
        MergeContents(a[1..], b, cmp);
        HeadAndTail(a);
        HeadAndTail(Merge(a, b, cmp));
      } else {
        MergeContents(a, b[1..], cmp);
        HeadAndTail(b);
        HeadAndTail(Merge(a, b, cmp));
      }
    }
  }

  lemma {:induction false} MergeSorted(a: seq<Node>, b: seq<Node>, cmp: Compare)
    requires TotalPreorder(cmp) && Sorted(a, cmp) && Sorted(b, cmp)
    ensures Sorted(Merge(a, b, cmp), cmp)
  {
    if a != [] && b != [] {
      if cmp(a[0].elem, b[0].elem) <= 0 {
        MergeSorted(a[1..], b, cmp);
        LowerBoundKept(a[0].elem, a[1..], b, cmp);
        SortedCons(a[0], Merge(a[1..], b, cmp), cmp);
      } else {
        MergeSorted(a, b[1..], cmp);
        LowerBoundKept(b[0].elem, a, b[1..], cmp);
        SortedCons(b[0], Merge(a, b[1..], cmp), cmp);
      }
    }
  }

  ghost predicate LowerBound(x: Elem, s: seq<Node>, cmp: Compare) {
    forall i :: 0 <= i < |s| ==> cmp(x, s[i].elem) <= 0
  }

  lemma SortedCons(n: Node, s: seq<Node>, cmp: Compare)
    requires Sorted(s, cmp) && LowerBound(n.elem, s, cmp)
    ensures Sorted([n] + s, cmp)
  {
  }

  lemma {:induction false} LowerBoundKept(x: Elem, a: seq<Node>, b: seq<Node>, cmp: Compare)
    requires TotalPreorder(cmp) && Sorted(a, cmp) && Sorted(b, cmp)
    requires a == [] || cmp(x, a[0].elem) <= 0
    requires b == [] || cmp(x, b[0].elem) <= 0
    ensures LowerBound(x, Merge(a, b, cmp), cmp)
  {
    var m := Merge(a, b, cmp);
    MergeContents(a, b, cmp);
    forall i | 0 <= i < |m|
      ensures cmp(x, m[i].elem) <= 0
    {
      assert m[i] in multiset(m);
      assert m[i] in a || m[i] in b;
    }
  }

  lemma {:induction false} TiesConcat(s: seq<Node>, t: seq<Node>, x: Elem, cmp: Compare)
    ensures Ties(s + t, x, cmp) == Ties(s, x, cmp) + Ties(t, x, cmp)
  {
    if s == [] {
      assert s + t == t;
    } else {
      TiesConcat(s[1..], t, x, cmp);
      assert (s + t)[1..] == s[1..] + t;
    }
  }

  lemma {:induction false} NoTiesAbove(s: seq<Node>, x: Elem, cmp: Compare)
    requires forall i :: 0 <= i < |s| ==> cmp(s[i].elem, x) > 0
    ensures Ties(s, x, cmp) == []
  {
    if s != [] {
      NoTiesAbove(s[1..], x, cmp);
    }
  }

  /** A sorted run that starts above `y` holds nothing tied with anything tied with `y`. */
  lemma NoTiesWithSmaller(a: seq<Node>, y: Elem, x: Elem, cmp: Compare)
    requires TotalPreorder(cmp) && Sorted(a, cmp) && a != [] && cmp(a[0].elem, y) > 0 && Tied(y, x, cmp)
    ensures Ties(a, x, cmp) == []
  {
    forall i | 0 <= i < |a|
      ensures cmp(a[i].elem, x) > 0
    {
      assert i == 0 || cmp(a[0].elem, a[i].elem) <= 0;
    }
    NoTiesAbove(a, x, cmp);
  }

  lemma TiesCons(n: Node, s: seq<Node>, x: Elem, cmp: Compare)
    ensures Ties([n] + s, x, cmp) == (if Tied(n.elem, x, cmp) then [n] else []) + Ties(s, x, cmp)
  {
    assert ([n] + s)[1..] == s;
  }

  lemma {:induction false} MergeStable(a: seq<Node>, b: seq<Node>, x: Elem, cmp: Compare)
    requires TotalPreorder(cmp) && Sorted(a, cmp) && Sorted(b, cmp)
    ensures Ties(Merge(a, b, cmp), x, cmp) == Ties(a, x, cmp) + Ties(b, x, cmp)
  {
    if a == [] || b == [] {
    } else if cmp(a[0].elem, b[0].elem) <= 0 {
      MergeStable(a[1..], b, x, cmp);
      TiesCons(a[0], Merge(a[1..], b, cmp), x, cmp);
    } else {
      MergeStable(a, b[1..], x, cmp);
      TiesCons(b[0], Merge(a, b[1..], cmp), x, cmp);
      if Tied(b[0].elem, x, cmp) {
        NoTiesWithSmaller(a, b[0].elem, x, cmp);
      }
    }
  }

  lemma MergeStablySorted(a0: seq<Node>, b0: seq<Node>, a: seq<Node>, b: seq<Node>, cmp: Compare)
    requires TotalPreorder(cmp) && StablySorted(a0, a, cmp) && StablySorted(b0, b, cmp)
    ensures StablySorted(a0 + b0, Merge(a, b, cmp), cmp)
  {
    MergeContents(a, b, cmp);
    MergeSorted(a, b, cmp);
    forall x
      ensures Ties(Merge(a, b, cmp), x, cmp) == Ties(a0 + b0, x, cmp)
    {
      MergeStable(a, b, x, cmp);
      TiesConcat(a0, b0, x, cmp);
    }
  }

  // ---------------------------------------------------------------- one pass

  /** One pass over the list: each run of `k` nodes is merged with the run after it. */
  function Pass(s: seq<Node>, k: nat, cmp: Compare): (r: seq<Node>)
    requires 0 < k
    ensures |r| == |s|
  {
    if |s| <= k then s
    else if |s| <= 2 * k then Merge(s[..k], s[k..], cmp)
    else Merge(s[..k], s[k..2 * k], cmp) + Pass(s[2 * k..], k, cmp)
  }

  /** Every run of `k` nodes of `s` is the stable sort of the same stretch of `s0`. */
  ghost predicate RunsSorted(s0: seq<Node>, s: seq<Node>, k: nat, cmp: Compare)
    requires 0 < k
  {
    && |s| == |s0|
    && if |s| <= k then StablySorted(s0, s, cmp)
       else StablySorted(s0[..k], s[..k], cmp) && RunsSorted(s0[k..], s[k..], k, cmp)
  }

  lemma {:induction false} PassDoublesRuns(s0: seq<Node>, s: seq<Node>, k: nat, cmp: Compare)
    requires 0 < k && TotalPreorder(cmp) && RunsSorted(s0, s, k, cmp)
    ensures RunsSorted(s0, Pass(s, k, cmp), 2 * k, cmp)
  {
    if |s| <= k {
    } else if |s| <= 2 * k {
      assert RunsSorted(s0[k..], s[k..], k, cmp);
      MergeStablySorted(s0[..k], s0[k..], s[..k], s[k..], cmp);
      assert s0[..k] + s0[k..] == s0;
      MergeContents(s[..k], s[k..], cmp);
    } else {
      var rest0, rest := s0[k..], s[k..];
      assert RunsSorted(rest0, rest, k, cmp);
      assert rest0[..k] == s0[k..2 * k] && rest[..k] == s[k..2 * k];
      assert rest0[k..] == s0[2 * k..] && rest[k..] == s[2 * k..];
      assert RunsSorted(s0[2 * k..], s[2 * k..], k, cmp);
      MergeStablySorted(s0[..k], s0[k..2 * k], s[..k], s[k..2 * k], cmp);
      assert s0[..k] + s0[k..2 * k] == s0[..2 * k];
      MergeContents(s[..k], s[k..2 * k], cmp);
      PassDoublesRuns(s0[2 * k..], s[2 * k..], k, cmp);
      var first := Merge(s[..k], s[k..2 * k], cmp);
      var p := Pass(s, k, cmp);
      assert p[..2 * k] == first && p[2 * k..] == Pass(s[2 * k..], k, cmp);
    }
  }

  // ---------------------------------------------------------------- the whole sort

  /** Passes with runs of `k`, `2k`, ... until one pass merges at most one pair. */
  function SortFrom(s: seq<Node>, k: nat, cmp: Compare): (r: seq<Node>)
    requires 0 < k
    ensures |r| == |s|
    decreases |s| - k
  {
    if |s| <= 2 * k then Pass(s, k, cmp)
    else SortFrom(Pass(s, k, cmp), 2 * k, cmp)
  }

  lemma {:induction false} SortFromStable(s0: seq<Node>, s: seq<Node>, k: nat, cmp: Compare)
    requires 0 < k && TotalPreorder(cmp) && RunsSorted(s0, s, k, cmp)
    ensures StablySorted(s0, SortFrom(s, k, cmp), cmp)
    decreases |s| - k
  {
    PassDoublesRuns(s0, s, k, cmp);
    if |s| > 2 * k {
      SortFromStable(s0, Pass(s, k, cmp), 2 * k, cmp);
    }
  }

  lemma {:induction false} SingletonRuns(s: seq<Node>, cmp: Compare)
    requires TotalPreorder(cmp)
    ensures RunsSorted(s, s, 1, cmp)
  {
    if |s| > 1 {
      SingletonRuns(s[1..], cmp);
    }
  }

  /** The merge sort of the list macros is a stable sort for every total preorder. */
  lemma SortIsStable(s: seq<Node>, cmp: Compare)
    requires TotalPreorder(cmp)
    ensures StablySorted(s, SortFrom(s, 1, cmp), cmp)
  {
    SingletonRuns(s, cmp);
    SortFromStable(s, s, 1, cmp);
  }

  lemma SortKeepsMembers(s: seq<Node>, cmp: Compare)
    requires TotalPreorder(cmp)
    ensures NodesOf(SortFrom(s, 1, cmp)) == NodesOf(s)
  {
    SortIsStable(s, cmp);
    var r := SortFrom(s, 1, cmp);
    assert forall n :: n in r <==> n in multiset(r);
    assert forall n :: n in s <==> n in multiset(s);
  }
}
