/** Sums over sequences of natural numbers. */
module Sums {

  function Sum(s: seq<nat>): nat {
    if s == [] then 0 else s[0] + Sum(s[1..])
  }

  lemma {:induction false} SumUpdate(s: seq<nat>, i: nat, v: nat)
    requires i < |s|
    ensures Sum(s[i := v]) + s[i] == Sum(s) + v
  {
    if i == 0 {
      assert s[0 := v][1..] == s[1..];
    } else {
      SumUpdate(s[1..], i - 1, v);
      assert s[i := v][1..] == s[1..][i - 1 := v];
    }
  }

  lemma {:induction false} SumConcat(s: seq<nat>, t: seq<nat>)
    ensures Sum(s + t) == Sum(s) + Sum(t)
  {
    if s == [] {
      assert s + t == t;
    } else {
      SumConcat(s[1..], t);
      assert (s + t)[1..] == s[1..] + t;
    }
  }

  lemma {:induction false} SumAdds(s: seq<nat>, t: seq<nat>, u: seq<nat>)
    requires |s| == |t| == |u| && forall i :: 0 <= i < |s| ==> s[i] == t[i] + u[i]
    ensures Sum(s) == Sum(t) + Sum(u)
  {
    if s != [] {
      SumAdds(s[1..], t[1..], u[1..]);
    }
  }

  lemma {:induction false} SumZeros(s: seq<nat>)
    requires forall i :: 0 <= i < |s| ==> s[i] == 0
    ensures Sum(s) == 0
  {
    if s != [] {
      SumZeros(s[1..]);
    }
  }

  lemma SumSingle(s: seq<nat>, i: nat)
    requires i < |s| && forall j :: 0 <= j < |s| && j != i ==> s[j] == 0
    ensures Sum(s) == s[i]
  {
    SumUpdate(s, i, 0);
    SumZeros(s[i := 0]);
  }

  /** If each `t[i]` is at least `c` times `s[i]`, so are the sums. */
  lemma {:induction false} SumScaled(c: nat, s: seq<nat>, t: seq<nat>)
    requires |s| == |t| && forall i :: 0 <= i < |s| ==> c * s[i] <= t[i]
    ensures c * Sum(s) <= Sum(t)
  {
    if s != [] {
      SumScaled(c, s[1..], t[1..]);
      assert c * Sum(s) == c * s[0] + c * Sum(s[1..]);
    }
  }
}
