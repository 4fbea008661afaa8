/**
 * Borders of a needle, and what the optimised failure table records about them.
 * A border of `p[..i]` is a proper prefix that is also a suffix.
 */
module Borders {

  ghost predicate Border(p: seq<char>, i: nat, k: int)
    requires i <= |p|
  {
    0 <= k < i && forall t :: 0 <= t < k ==> p[t] == p[i - k + t]
  }

  /** `v` is the longest border of `p[..i]`; the empty prefix has none and is given -1. */
  ghost predicate LongestBorder(p: seq<char>, i: nat, v: int)
    requires i <= |p|
  {
    && (if i == 0 then v == -1 else Border(p, i, v))
    && forall k :: Border(p, i, k) ==> k <= v
  }

  /** `v` is the longest border of `p[..i]` that the next character does not extend, or -1. */
  ghost predicate LongestUnextendedBorder(p: seq<char>, i: nat, v: int)
    requires i < |p|
  {
    && (v == -1 || (Border(p, i, v) && p[v] != p[i]))
    && forall k :: Border(p, i, k) && p[k] != p[i] ==> k <= v
  }

  /** What entry `i` of a finished table has to be. */
  ghost predicate TableEntry(p: seq<char>, i: nat, v: int)
    requires i <= |p|
  {
    if i < |p| then LongestUnextendedBorder(p, i, v) else LongestBorder(p, i, v)
  }

  /** Inside a border, borders of the whole prefix and borders of the border coincide. */
  lemma BorderOfBorder(p: seq<char>, i: nat, j: int, k: int)
    requires i <= |p| && Border(p, i, j) && k < j
    ensures Border(p, i, k) <==> Border(p, j, k)
  {
    if Border(p, i, k) {
      forall t | 0 <= t < k
        ensures p[t] == p[j - k + t]
      {
        var u := j - k + t;
        assert p[u] == p[i - j + u];
      }
    }
    if Border(p, j, k) {
      forall t | 0 <= t < k
        ensures p[t] == p[i - k + t]
      {
        var u := j - k + t;
        assert p[u] == p[i - j + u];
      }
    }
  }

  /** Borders of the next prefix are the borders of this one that the next character extends. */
  lemma BorderExtends(p: seq<char>, i: nat, k: int)
    requires i < |p| && 0 <= k < i
    ensures Border(p, i + 1, k + 1) <==> Border(p, i, k) && p[k] == p[i]
  {
    if Border(p, i + 1, k + 1) {
      assert p[k] == p[i + 1 - (k + 1) + k];
      forall t | 0 <= t < k
        ensures p[t] == p[i - k + t]
      {
        assert p[t] == p[i + 1 - (k + 1) + t];
      }
    }
  }
}

module StringSearch {
  import opened Borders

  /**
   * The state of either loop while it looks for a border of `p[..i]` that character `c`
   * extends: nothing longer than `j` is left to try.
   */
  ghost predicate Candidate(p: seq<char>, i: nat, c: char, j: int)
    requires i <= |p|
  {
    && (j == -1 || Border(p, i, j))
    && forall k :: Border(p, i, k) && p[k] == c ==> k <= j
  }

  lemma LongestBorderIsCandidate(p: seq<char>, i: nat, c: char, j: int)
    requires i <= |p| && LongestBorder(p, i, j)
    ensures Candidate(p, i, c, j)
  {
  }

  lemma CandidateFallsBack(p: seq<char>, i: nat, c: char, j: int, v: int)
    requires i <= |p| && Candidate(p, i, c, j) && 0 <= j && c != p[j]
    requires LongestUnextendedBorder(p, j, v)
    ensures v < j && Candidate(p, i, c, v)
  {
    if v != -1 {
      BorderOfBorder(p, i, j, v);
    }
    forall k | Border(p, i, k) && p[k] == c
      ensures k <= v
    {
      BorderOfBorder(p, i, j, k);
    }
  }

  lemma CandidateIsNextBorder(p: seq<char>, i: nat, j: int)
    requires i < |p| && Candidate(p, i, p[i], j) && (j == -1 || p[j] == p[i])
    ensures LongestBorder(p, i + 1, j + 1)
  {
    if j != -1 {
      BorderExtends(p, i, j);
    }
    var next := i + 1;
    forall k | Border(p, next, k)
      ensures k <= j + 1
    {
      if k > 0 {
        BorderExtends(p, i, k - 1);
      }
    }
  }

  lemma SharedCharacterEntry(p: seq<char>, i: nat, j: int, v: int)
    requires 0 < i < |p| && LongestBorder(p, i, j) && p[i] == p[j]
    requires LongestUnextendedBorder(p, j, v)
    ensures LongestUnextendedBorder(p, i, v)
  {
    if v != -1 {
      BorderOfBorder(p, i, j, v);
    }
    forall k | Border(p, i, k) && p[k] != p[i]
      ensures k <= v
    {
      BorderOfBorder(p, i, j, k);
    }
  }

  /** The first entries of a table under construction are finished. */
  ghost predicate FinishedEntries(p: seq<char>, t: seq<int>, upto: int)
    requires upto <= |p| && upto < |t|
  {
    forall y :: 0 <= y <= upto ==> TableEntry(p, y, t[y])
  }

  /** The inner loop: fall back through the table to the longest border `needle[i]` extends. */
  method NextBorder(needle: seq<char>, table: array<int>, i: nat, start: int) returns (j: int)
    requires i < |needle| < table.Length && -1 <= start < i
    requires LongestBorder(needle, i, start)
    requires FinishedEntries(needle, table[..], i)
    ensures -1 <= j < i && LongestBorder(needle, i + 1, j + 1)
  {
    j := start;
    while j > -1 && needle[i] != needle[j]
      invariant -1 <= j < i
      invariant Candidate(needle, i, needle[i], j)
    {
      assert TableEntry(needle, j, table[..][j]);
      CandidateFallsBack(needle, i, needle[i], j, table[j]);
      j := table[j];
    }
    CandidateIsNextBorder(needle, i, j);
  }

  /** The entry either build writes once the longest border `j` of `p[..i]` is known. */
  ghost function NextEntry(p: seq<char>, t: seq<int>, i: nat, j: int): int
    requires 0 <= j < i <= |p| && j < |t|
  {
    if i < |p| && p[i] == p[j] then t[j] else j
  }

  lemma NextEntryFinishes(p: seq<char>, t: seq<int>, i: nat, j: int)
    requires 0 <= j < i <= |p| < |t| && LongestBorder(p, i, j) && FinishedEntries(p, t, i - 1)
    ensures FinishedEntries(p, t[i := NextEntry(p, t, i, j)], i)
  {
    assert TableEntry(p, j, t[j]);
    if i < |p| && p[i] == p[j] {
      SharedCharacterEntry(p, i, j, t[j]);
    }
  }

  /** Build the table from left to right. */
  method BuildTable(needle: seq<char>, table: array<int>)
    requires table.Length == |needle| + 1
    modifies table
    ensures forall y :: 0 <= y <= |needle| ==> TableEntry(needle, y, table[y])
  {
    var i, j := 0, -1;
    table[i] := j;
    while i < |needle|
      invariant 0 <= i <= |needle| && -1 <= j < i
      invariant LongestBorder(needle, i, j)
      invariant FinishedEntries(needle, table[..], i)
    {
      j := NextBorder(needle, table, i, j);
      ghost var before := table[..];
      i, j := i + 1, j + 1;
      if i < |needle| {
        if needle[i] == needle[j] {
          table[i] := table[j];
        } else {
          table[i] := j;
        }
      } else {
        table[i] := j;
      }
      NextEntryFinishes(needle, before, i, j);
      assert table[..] == before[i := NextEntry(needle, before, i, j)];
    }
    assert forall y :: 0 <= y <= |needle| ==> table[..][y] == table[y];
  }

  // ---------------------------------------------------------------- searching forwards

  ghost predicate Occurs(haystack: seq<char>, needle: seq<char>, at: int)
  {
    0 <= at <= |haystack| - |needle| && haystack[at..at + |needle|] == needle
  }

  ghost predicate LeastOccurrence(haystack: seq<char>, needle: seq<char>, from: int, at: int)
  {
    from <= at && Occurs(haystack, needle, at) && forall s :: from <= s < at ==> !Occurs(haystack, needle, s)
  }

  ghost predicate GreatestOccurrence(haystack: seq<char>, needle: seq<char>, at: int)
  {
    Occurs(haystack, needle, at) && forall s :: at < s ==> !Occurs(haystack, needle, s)
  }

  ghost predicate NoOccurrence(haystack: seq<char>, needle: seq<char>)
  {
    forall s :: !Occurs(haystack, needle, s)
  }

  /**
   * The scanner's position: the `i` characters before `j` are the first `i` of the needle
   * (`i` is -1 when character `j` can start no match), and no occurrence starts before `j - i`.
   */
  ghost predicate Scanning(h: seq<char>, p: seq<char>, i: int, j: int)
  {
    && -1 <= i <= |p| && i <= j <= |h|
    && (forall t :: 0 <= t < i ==> p[t] == h[j - i + t])
    && (forall s :: Occurs(h, p, s) ==> j - i <= s)
  }

  lemma OccursAt(h: seq<char>, p: seq<char>, s: int, t: int)
    requires Occurs(h, p, s) && 0 <= t < |p|
    ensures h[s + t] == p[t]
  {
    assert h[s..s + |p|][t] == p[t];
  }

  /** An occurrence that starts inside the current match makes its overlap a border. */
  lemma OverlapIsBorder(h: seq<char>, p: seq<char>, i: int, j: int, s: int)
    requires 0 <= i < |p| && i <= j < |h| && (forall t :: 0 <= t < i ==> p[t] == h[j - i + t])
    requires Occurs(h, p, s) && j - i < s <= j
    ensures Border(p, i, j - s) && p[j - s] == h[j]
  {
    var k := j - s;
    OccursAt(h, p, s, k);
    forall t | 0 <= t < k
      ensures p[t] == p[i - k + t]
    {
      OccursAt(h, p, s, t);
      var u := i - k + t;
      assert p[u] == h[j - i + u];
    }
  }

  lemma BorderStillMatches(h: seq<char>, p: seq<char>, i: int, j: int, v: int)
    requires 0 <= i <= |p| && i <= j <= |h| && (forall t :: 0 <= t < i ==> p[t] == h[j - i + t])
    requires Border(p, i, v)
    ensures forall t :: 0 <= t < v ==> p[t] == h[j - v + t]
  {
    forall t | 0 <= t < v
      ensures p[t] == h[j - v + t]
    {
      var u := i - v + t;
      assert p[t] == p[u] && p[u] == h[j - i + u];
    }
  }

  lemma ScanningFallsBack(h: seq<char>, p: seq<char>, i: int, j: int, v: int)
    requires Scanning(h, p, i, j) && 0 <= i < |p| && j < |h| && p[i] != h[j]
    requires LongestUnextendedBorder(p, i, v)
    ensures v < i && Scanning(h, p, v, j)
  {
    if v != -1 {
      BorderStillMatches(h, p, i, j, v);
    }
    forall s | Occurs(h, p, s)
      ensures j - v <= s
    {
      if s == j - i {
        OccursAt(h, p, s, i);
      } else if s <= j {
        OverlapIsBorder(h, p, i, j, s);
      }
    }
  }

  lemma ScanningAdvances(h: seq<char>, p: seq<char>, i: int, j: int)
    requires Scanning(h, p, i, j) && i < |p| && j < |h| && (i == -1 || p[i] == h[j])
    ensures Scanning(h, p, i + 1, j + 1)
  {
    forall t | 0 <= t < i + 1
      ensures p[t] == h[j + 1 - (i + 1) + t]
    {
      if t < i {
        assert p[t] == h[j - i + t];
      }
    }
  }

  lemma ScanningComplete(h: seq<char>, p: seq<char>, j: int)
    requires Scanning(h, p, |p|, j)
    ensures LeastOccurrence(h, p, 0, j - |p|)
  {
    var at := j - |p|;
    assert h[at..at + |p|] == p by {
      forall t | 0 <= t < |p|
        ensures h[at..at + |p|][t] == p[t]
      {
        assert p[t] == h[j - |p| + t];
      }
    }
  }

  /** The inner loop of both searches: the table's answer to the character at `j`. */
  method FallBack(haystack: seq<char>, needle: seq<char>, table: array<int>, start: int, j: nat) returns (i: int)
    requires table.Length == |needle| + 1 && FinishedEntries(needle, table[..], |needle|)
    requires Scanning(haystack, needle, start, j) && 0 <= start < |needle| && j < |haystack|
    ensures i <= start && Scanning(haystack, needle, i, j) && (i == -1 || needle[i] == haystack[j])
  {
    i := start;
    while i > -1 && needle[i] != haystack[j]
      invariant -1 <= i <= start
      invariant Scanning(haystack, needle, i, j)
    {
      assert TableEntry(needle, i, table[..][i]);
      ScanningFallsBack(haystack, needle, i, j, table[i]);
      i := table[i];
    }
  }

  /** Search from left to right with a prepared table. */
  method FindWithTable(haystack: seq<char>, needle: seq<char>, table: array<int>) returns (position: int)
    requires 0 < |needle| && table.Length == |needle| + 1
    requires FinishedEntries(needle, table[..], |needle|)
    ensures position == -1 ==> NoOccurrence(haystack, needle)
    ensures position != -1 ==> LeastOccurrence(haystack, needle, 0, position)
  {
    position := -1;
    var i, j := 0, 0;
    while j < |haystack| && |haystack| - j + i >= |needle|
      invariant 0 <= i < |needle| && i <= j <= |haystack|
      invariant Scanning(haystack, needle, i, j)
      decreases |haystack| - j
    {
      i := FallBack(haystack, needle, table, i, j);
      ScanningAdvances(haystack, needle, i, j);
      i, j := i + 1, j + 1;
      if i >= |needle| {
        ScanningComplete(haystack, needle, j);
        position := j - i;
        return;
      }
    }
  }

  /**
   * Search the text from a start position, counted from the end when negative, for the least
   * occurrence at or after it. The early length test answers -1 without building a table.
   */
  method Find(text: seq<char>, start: int, needle: seq<char>) returns (position: int)
    requires -|text| <= start
    ensures
      var from := if start < 0 then |text| + start else start;
      && (position == -1 <==> |needle| == 0 || forall s :: from <= s ==> !Occurs(text, needle, s))
      && (position != -1 ==> LeastOccurrence(text, needle, from, position))
  {
    position := -1;
    var from := if start < 0 then |text| + start else start;
    var length := |text| - from;
    if length >= |needle| && |needle| > 0 {
      var table := new int[|needle| + 1];
      BuildTable(needle, table);
      position := FindWithTable(text[from..], needle, table);
      OccursInSuffix(text, needle, from);
      if position >= 0 {
        position := position + from;
        assert Occurs(text[from..], needle, position - from);
        assert Occurs(text, needle, position);
      }
    }
  }

  lemma OccursInSuffix(text: seq<char>, needle: seq<char>, from: int)
    requires 0 <= from <= |text|
    ensures forall s :: from <= s ==> (Occurs(text, needle, s) <==> Occurs(text[from..], needle, s - from))
  {
    forall s | from <= s <= |text| - |needle|
      ensures Occurs(text, needle, s) <==> Occurs(text[from..], needle, s - from)
    {
      assert text[from..][s - from..s - from + |needle|] == text[s..s + |needle|];
    }
  }

  // ---------------------------------------------------------------- searching backwards

  function Reversed<T>(s: seq<T>): (r: seq<T>)
    ensures |r| == |s| && forall k :: 0 <= k < |s| ==> r[k] == s[|s| - 1 - k]
  {
    seq(|s|, k requires 0 <= k < |s| => s[|s| - 1 - k])
  }

  /** A right-to-left table read as the left-to-right table of the reversed needle. */
  ghost function Mirrored(t: seq<int>): (m: seq<int>)
    requires 0 < |t|
    ensures |m| == |t| && forall y :: 0 <= y < |t| ==> m[y] == |t| - 2 - t[|t| - 1 - y]
  {
    seq(|t|, y requires 0 <= y < |t| => |t| - 2 - t[|t| - 1 - y])
  }

  lemma MirroredUpdate(t: seq<int>, y: nat, w: int)
    requires y < |t|
    ensures Mirrored(t[|t| - 1 - y := w]) == Mirrored(t)[y := |t| - 2 - w]
  {
  }

  lemma MirroredEntries(p: seq<char>, t: seq<int>)
    requires |t| == |p| + 1 && FinishedEntries(p, Mirrored(t), |p|)
    ensures forall x :: 0 <= x <= |p| ==> TableEntry(p, |p| - x, |p| - 1 - t[x])
  {
    forall x | 0 <= x <= |p|
      ensures TableEntry(p, |p| - x, |p| - 1 - t[x])
    {
      assert TableEntry(p, |p| - x, Mirrored(t)[|p| - x]);
    }
  }

  /** The inner loop of the right-to-left build. */
  method NextBorderBackwards(needle: seq<char>, table: array<int>, i: nat, start: int) returns (j: int)
    requires i < |needle| && table.Length == |needle| + 1 && i < start <= |needle|
    requires LongestBorder(Reversed(needle), |needle| - 1 - i, |needle| - 1 - start)
    requires FinishedEntries(Reversed(needle), Mirrored(table[..]), |needle| - 1 - i)
    ensures i < j <= |needle| && LongestBorder(Reversed(needle), |needle| - i, |needle| - j)
  {
    ghost var n, p, m := |needle|, Reversed(needle), Mirrored(table[..]);
    ghost var i', j' := n - 1 - i, n - 1 - start;
    LongestBorderIsCandidate(p, i', p[i'], j');
    j := start;
    while j < |needle| && needle[i] != needle[j]
      invariant -1 <= j' < i' && j' == n - 1 - j
      invariant Candidate(p, i', p[i'], j')
      decreases j'
    {
      assert p[i'] == needle[i] && p[j'] == needle[j];
      assert TableEntry(p, j', m[j']);
      CandidateFallsBack(p, i', p[i'], j', m[j']);
      j, j' := table[j + 1], m[j'];
    }
    assert j' != -1 ==> p[i'] == needle[i] && p[j'] == needle[j];
    CandidateIsNextBorder(p, i', j');
  }

  lemma MirroredNextEntry(needle: seq<char>, t: seq<int>, i: int, j: int, entry: int)
    requires -1 <= i < j < |needle| && |t| == |needle| + 1
    requires entry == if i >= 0 && needle[i] == needle[j] then t[j + 1] else j
    ensures |needle| - 1 - entry == NextEntry(Reversed(needle), Mirrored(t), |needle| - 1 - i, |needle| - 1 - j)
  {
    var n, p, i', j' := |needle|, Reversed(needle), |needle| - 1 - i, |needle| - 1 - j;
    assert p[j'] == needle[j] && Mirrored(t)[j'] == n - 1 - t[j + 1];
    assert i >= 0 ==> p[i'] == needle[i];
  }

  lemma NextEntryFinishesBackwards(needle: seq<char>, t: seq<int>, i: int, j: int, entry: int)
    requires -1 <= i < j < |needle| && |t| == |needle| + 1
    requires LongestBorder(Reversed(needle), |needle| - 1 - i, |needle| - 1 - j)
    requires FinishedEntries(Reversed(needle), Mirrored(t), |needle| - 2 - i)
    requires entry == if i >= 0 && needle[i] == needle[j] then t[j + 1] else j
    ensures FinishedEntries(Reversed(needle), Mirrored(t[i + 1 := entry]), |needle| - 1 - i)
  {
    var n, p := |needle|, Reversed(needle);
    MirroredUpdate(t, n - 1 - i, entry);
    MirroredNextEntry(needle, t, i, j, entry);
    NextEntryFinishes(p, Mirrored(t), n - 1 - i, n - 1 - j);
  }

  /** Build the table from right to left: it is the mirror image of the reversed needle's table. */
  method BuildTableBackwards(needle: seq<char>, table: array<int>)
    requires table.Length == |needle| + 1
    modifies table
    ensures forall x :: 0 <= x <= |needle| ==> TableEntry(Reversed(needle), |needle| - x, |needle| - 1 - table[x])
  {
    ghost var n, p := |needle|, Reversed(needle);
    var i := |needle| - 1;
    var j := i + 1;
    table[i + 1] := j;
    assert Mirrored(table[..])[0] == -1;
    while i >= 0
      invariant -1 <= i < n && i < j <= n
      invariant LongestBorder(p, n - 1 - i, n - 1 - j)
      invariant FinishedEntries(p, Mirrored(table[..]), n - 1 - i)
      decreases i
    {
      j := NextBorderBackwards(needle, table, i, j);
      ghost var before := table[..];
      i, j := i - 1, j - 1;
      if i >= 0 {
        if needle[i] == needle[j] {
          table[i + 1] := table[j + 1];
        } else {
          table[i + 1] := j;
        }
      } else {
        table[i + 1] := j;
      }
      ghost var entry := if i >= 0 && needle[i] == needle[j] then before[j + 1] else j;
      assert table[..] == before[i + 1 := entry];
      NextEntryFinishesBackwards(needle, before, i, j, entry);
    }
    MirroredEntries(p, table[..]);
  }

  lemma OccursReversed(h: seq<char>, p: seq<char>, s: int)
    ensures Occurs(h, p, s) <==> Occurs(Reversed(h), Reversed(p), |h| - |p| - s)
  {
    if 0 <= s <= |h| - |p| {
      var h', p', s' := Reversed(h), Reversed(p), |h| - |p| - s;
      if Occurs(h, p, s) {
        forall t | 0 <= t < |p|
          ensures h'[s'..s' + |p|][t] == p'[t]
        {
          OccursAt(h, p, s, |p| - 1 - t);
        }
      }
      if Occurs(h', p', s') {
        forall t | 0 <= t < |p|
          ensures h[s..s + |p|][t] == p[t]
        {
          OccursAt(h', p', s', |p| - 1 - t);
        }
      }
    }
  }

  /** The right-to-left scanner's position, as a left-to-right one in the reversed texts. */
  ghost predicate ScanningBackwards(haystack: seq<char>, needle: seq<char>, i: int, j: int) {
    Scanning(Reversed(haystack), Reversed(needle), |needle| - 1 - i, |haystack| - 1 - j)
  }

  lemma BackwardsFallsBack(haystack: seq<char>, needle: seq<char>, table: seq<int>, i: nat, j: nat)
    requires |table| == |needle| + 1 && FinishedEntries(Reversed(needle), Mirrored(table), |needle|)
    requires i < |needle| && j < |haystack| && needle[i] != haystack[j] && ScanningBackwards(haystack, needle, i, j)
    ensures i < table[i + 1] <= |needle| && ScanningBackwards(haystack, needle, table[i + 1], j)
  {
    var n, p, m := |needle|, Reversed(needle), Mirrored(table);
    assert TableEntry(p, n - 1 - i, m[n - 1 - i]);
    ScanningFallsBack(Reversed(haystack), p, n - 1 - i, |haystack| - 1 - j, m[n - 1 - i]);
  }

  lemma BackwardsAdvances(haystack: seq<char>, needle: seq<char>, i: int, j: int)
    requires ScanningBackwards(haystack, needle, i, j) && 0 <= i && 0 <= j < |haystack|
    requires i >= |needle| || needle[i] == haystack[j]
    ensures i <= |needle| && ScanningBackwards(haystack, needle, i - 1, j - 1)
  {
    ScanningAdvances(Reversed(haystack), Reversed(needle), |needle| - 1 - i, |haystack| - 1 - j);
  }

  lemma BackwardsComplete(haystack: seq<char>, needle: seq<char>, j: int)
    requires ScanningBackwards(haystack, needle, -1, j)
    ensures GreatestOccurrence(haystack, needle, j + 1)
  {
    ScanningComplete(Reversed(haystack), Reversed(needle), |haystack| - 1 - j);
    ReversedLeastIsGreatest(haystack, needle, j + 1);
  }

  /** What is left of the text is too short for another occurrence. */
  lemma BackwardsExhausted(haystack: seq<char>, needle: seq<char>, i: int, j: int)
    requires 0 <= i < |needle| && -1 <= j < |haystack| && j < i && ScanningBackwards(haystack, needle, i, j)
    ensures NoOccurrence(haystack, needle)
  {
    forall s
      ensures !Occurs(haystack, needle, s)
    {
      OccursReversed(haystack, needle, s);
    }
  }

  /** The inner loop of the right-to-left search. */
  method FallBackBackwards(haystack: seq<char>, needle: seq<char>, table: array<int>, start: int, j: nat)
    returns (i: int)
    requires table.Length == |needle| + 1
    requires FinishedEntries(Reversed(needle), Mirrored(table[..]), |needle|)
    requires 0 <= start < |needle| && j < |haystack| && ScanningBackwards(haystack, needle, start, j)
    ensures start <= i <= |needle| && (i == |needle| || needle[i] == haystack[j])
    ensures ScanningBackwards(haystack, needle, i, j)
  {
    i := start;
    while i < |needle| && needle[i] != haystack[j]
      invariant start <= i <= |needle|
      invariant ScanningBackwards(haystack, needle, i, j)
      decreases |needle| - i
    {
      BackwardsFallsBack(haystack, needle, table[..], i, j);
      i := table[i + 1];
    }
  }

  /** Search from right to left with a prepared table. */
  method FindBackwardsWithTable(haystack: seq<char>, needle: seq<char>, table: array<int>) returns (position: int)
    requires 0 < |needle| && table.Length == |needle| + 1
    requires FinishedEntries(Reversed(needle), Mirrored(table[..]), |needle|)
    ensures position == -1 ==> NoOccurrence(haystack, needle)
    ensures position != -1 ==> GreatestOccurrence(haystack, needle, position)
  {
    position := -1;
    var j, i := |haystack| - 1, |needle| - 1;
    while j >= 0 && j >= i
      invariant 0 <= i < |needle| && -1 <= j < |haystack|
      invariant ScanningBackwards(haystack, needle, i, j)
      decreases j
    {
      i := FallBackBackwards(haystack, needle, table, i, j);
      BackwardsAdvances(haystack, needle, i, j);
      i, j := i - 1, j - 1;
      if i < 0 {
        BackwardsComplete(haystack, needle, j);
        position := j + 1;
        return;
      }
    }
    BackwardsExhausted(haystack, needle, i, j);
  }

  lemma ReversedLeastIsGreatest(h: seq<char>, p: seq<char>, at: int)
    requires LeastOccurrence(Reversed(h), Reversed(p), 0, |h| - |p| - at)
    ensures GreatestOccurrence(h, p, at)
  {
    OccursReversed(h, p, at);
    forall s | at < s
      ensures !Occurs(h, p, s)
    {
      OccursReversed(h, p, s);
    }
  }

  /**
   * Search the text backwards from a start position, counted from the end when negative, for
   * the greatest occurrence that ends at or before it.
   */
  method FindBackwards(text: seq<char>, start: int, needle: seq<char>) returns (position: int)
    requires start < |text|
    ensures
      var to := if start < 0 then |text| + start else start;
      && (position == -1 <==> |needle| == 0 || forall s :: s + |needle| <= to + 1 ==> !Occurs(text, needle, s))
      && (position != -1 ==>
            && Occurs(text, needle, position) && position + |needle| <= to + 1
            && forall s :: position < s && s + |needle| <= to + 1 ==> !Occurs(text, needle, s))
  {
    position := -1;
    var to := if start < 0 then |text| + start else start;
    var length := to + 1;
    if length >= |needle| && |needle| > 0 {
      var table := new int[|needle| + 1];
      BuildTableBackwards(needle, table);
      position := FindBackwardsWithTable(text[..length], needle, table);
      OccursInPrefix(text, needle, length);
      if position >= 0 {
        assert Occurs(text[..length], needle, position);
      }
    }
  }

  lemma OccursInPrefix(text: seq<char>, needle: seq<char>, length: int)
    requires 0 <= length <= |text|
    ensures forall s :: s + |needle| <= length ==> (Occurs(text, needle, s) <==> Occurs(text[..length], needle, s))
  {
    forall s | 0 <= s <= length - |needle|
      ensures Occurs(text, needle, s) <==> Occurs(text[..length], needle, s)
    {
      assert text[..length][s..s + |needle|] == text[s..s + |needle|];
    }
  }
}
