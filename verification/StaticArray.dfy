/**
 * The static array device: the recursive merge sort with one shared merge buffer, and its entry
 * point. Memory is bytes and pointers are byte offsets, so that sorts whose start is not on an
 * element do what they do.
 */
module StaticArrays {
  import opened Sequences
  import opened Buffers
  import opened WordMemory

  const WORD_SIZE := 4
  const SORT_PARAM_SIZE := 20
  const SORT_TYPE_INTEGRAL_MERGE := 1

  datatype Status = Good | ParamErr | AllocErr

  // ---------------------------------------------------------------- merging, on sequences

  ghost predicate Ascending(s: seq<uint32>) {
    forall i, j :: 0 <= i < j < |s| ==> s[i] <= s[j]
  }

  /** The merge of the comparison that answers "less" or "not less": on a tie the right run goes first. */
  function Merged(a: seq<uint32>, b: seq<uint32>): (r: seq<uint32>)
    ensures |r| == |a| + |b|
  {
    if a == [] then b
    else if b == [] then a
    else if a[0] < b[0] then [a[0]] + Merged(a[1..], b)
    else [b[0]] + Merged(a, b[1..])
  }

  lemma {:induction false} MergedContents(a: seq<uint32>, b: seq<uint32>)
    ensures multiset(Merged(a, b)) == multiset(a) + multiset(b)
  {
    if a != [] && b != [] {
      HeadAndTail(Merged(a, b));
      if a[0] < b[0] {
        MergedContents(a[1..], b);
        HeadAndTail(a);
      } else {
        MergedContents(a, b[1..]);
        HeadAndTail(b);
      }
    }
  }

  lemma MergedLowerBound(x: uint32, a: seq<uint32>, b: seq<uint32>)
    requires Ascending(a) && Ascending(b)
    requires (a == [] || x <= a[0]) && (b == [] || x <= b[0])
    ensures forall i :: 0 <= i < |Merged(a, b)| ==> x <= Merged(a, b)[i]
  {
    var m := Merged(a, b);
    MergedContents(a, b);
    forall i | 0 <= i < |m|
      ensures x <= m[i]
    {
      assert m[i] in multiset(m);
      assert m[i] in a || m[i] in b;
    }
  }

  lemma {:induction false} MergedAscending(a: seq<uint32>, b: seq<uint32>)
    requires Ascending(a) && Ascending(b)
    ensures Ascending(Merged(a, b))
  {
    if a != [] && b != [] {
      if a[0] < b[0] {
        MergedAscending(a[1..], b);
        MergedLowerBound(a[0], a[1..], b);
      } else {
        MergedAscending(a, b[1..]);
        MergedLowerBound(b[0], a, b[1..]);
      }
    }
  }

  /** The sort of a sequence: both halves sorted, the middle word in the left one, and merged. */
  function MergeSorted(s: seq<uint32>): (r: seq<uint32>)
    ensures |r| == |s|
  {
    if |s| <= 1 then s
    else
      var h := (|s| + 1) / 2;
      Merged(MergeSorted(s[..h]), MergeSorted(s[h..]))
  }

  /** It is an ascending permutation. */
  lemma {:induction false} MergeSortedCorrect(s: seq<uint32>)
    ensures Ascending(MergeSorted(s)) && multiset(MergeSorted(s)) == multiset(s)
    decreases |s|
  {
    if |s| > 1 {
      var h := (|s| + 1) / 2;
      var a, b := MergeSorted(s[..h]), MergeSorted(s[h..]);
      MergeSortedCorrect(s[..h]);
      MergeSortedCorrect(s[h..]);
      MergedAscending(a, b);
      MergedContents(a, b);
      assert s == s[..h] + s[h..];
      assert MergeSorted(s) == Merged(a, b);
    }
  }

  /** What has been written and what is left of the runs `s[i..m]` and `s[j..e]` make up the merge. */
  ghost predicate Merging(goal: seq<uint32>, done: seq<uint32>, s: seq<uint32>, i: int, m: int, j: int, e: int) {
    0 <= i <= m <= j <= e <= |s| && goal == done + Merged(s[i..m], s[j..e])
  }

  lemma TookLeft(goal: seq<uint32>, done: seq<uint32>, s: seq<uint32>, i: int, m: int, j: int, e: int)
    requires Merging(goal, done, s, i, m, j, e) && i < m && j < e && s[i] < s[j]
    ensures Merging(goal, done + [s[i]], s, i + 1, m, j, e)
  {
    assert s[i..m][1..] == s[i + 1..m];
  }

  lemma TookRight(goal: seq<uint32>, done: seq<uint32>, s: seq<uint32>, i: int, m: int, j: int, e: int)
    requires Merging(goal, done, s, i, m, j, e) && i < m && j < e && s[j] <= s[i]
    ensures Merging(goal, done + [s[j]], s, i, m, j + 1, e)
  {
    assert s[j..e][1..] == s[j + 1..e];
  }

  lemma OneRunLeft(goal: seq<uint32>, done: seq<uint32>, s: seq<uint32>, i: int, m: int, j: int, e: int)
    requires Merging(goal, done, s, i, m, j, e) && (i == m || j == e)
    ensures goal == done + s[i..m] + s[j..e]
  {
  }

  // ---------------------------------------------------------------- the merge sort

  /** How many words lie at `start`, `start + 4`, ... up to `end`. */
  function Count(start: nat, end: int): nat {
    if start <= end then (end - start) / 4 + 1 else 0
  }

  /** The words from `start` on fit the memory and the buffer. */
  predicate Fits(buffer: array<byte>, data: array<byte>, start: nat, end: int) {
    && buffer != data && start <= end + 4
    && start + 4 * Count(start, end) <= data.Length && 4 * Count(start, end) <= buffer.Length
  }

  /** The memory with the words from `start` to `end` sorted. */
  function SortedFrom(m: seq<byte>, start: nat, end: int): (r: seq<byte>)
    requires start + 4 * Count(start, end) <= |m|
    ensures |r| == |m|
  {
    WithWords(m, start, MergeSorted(Words(m, start, Count(start, end))))
  }

  /** Those words end up as an ascending permutation of what they were, and no other byte changes. */
  lemma SortedFromCorrect(m: seq<byte>, start: nat, end: int, count: nat)
    requires count == Count(start, end) && start + 4 * count <= |m|
    ensures
      var r := SortedFrom(m, start, end);
      && Ascending(Words(r, start, count)) && multiset(Words(r, start, count)) == multiset(Words(m, start, count))
      && r == WithWords(m, start, Words(r, start, count))
  {
    var w := Words(m, start, count);
    MergeSortedCorrect(w);
    StoredWords(m, start, MergeSorted(w));
  }

  method GetWord(m: array<byte>, at: nat) returns (w: uint32)
    requires at + 4 <= m.Length
    ensures w == WordAt(m[..], at)
  {
    assert m[at..at + 4] == m[..][at..at + 4];
    w := FromU32(m[at..at + 4]);
  }

  /** am_set_ptrval: move one word from one memory to the other. */
  method SetWord(to: array<byte>, at: nat, from: array<byte>, source: nat)
    requires at + 4 <= to.Length && source + 4 <= from.Length && to != from
    modifies to
    ensures to[..] == WithWords(old(to[..]), at, [WordAt(from[..], source)])
  {
    ghost var before, word := to[..], from[..][source..source + 4];
    assert from[source..source + 4] == word;
    Copy(to, at, from[source..source + 4]);
    PatchIsStore(before, at, word);
  }

  /** One more word goes behind those already in the buffer. */
  method Put(buffer: array<byte>, kptr: nat, data: array<byte>, ptr: nat, ghost b0: seq<byte>, ghost done: seq<uint32>)
    requires buffer != data && ptr + 4 <= data.Length && |b0| == buffer.Length
    requires kptr == 4 * |done| && kptr + 4 <= buffer.Length && buffer[..] == WithWords(b0, 0, done)
    modifies buffer
    ensures buffer[..] == WithWords(b0, 0, done + [WordAt(data[..], ptr)])
  {
    SetWord(buffer, kptr, data, ptr);
    StoredBoth(b0, 0, done, [WordAt(data[..], ptr)]);
  }

  /** A merge under way: how far the pointers are, and what the buffer holds. */
  ghost predicate MergeState(goal: seq<uint32>, done: seq<uint32>, s: seq<uint32>, i: nat, m: nat, j: nat,
                             start: nat, iptr: nat, jptr: nat, kptr: nat, b0: seq<byte>, b: seq<byte>) {
    && Merging(goal, done, s, i, m, j, |s|) && |done| == i + j - m
    && iptr == start + 4 * i && jptr == start + 4 * j && kptr == 4 * |done|
    && 4 * |s| <= |b0| == |b| && b == WithWords(b0, 0, done)
  }

  /** Move the smaller of two words, the right one on a tie, to the buffer. */
  method TakeSmaller(buffer: array<byte>, data: array<byte>, iptr: nat, jptr: nat, kptr: nat, ghost goal: seq<uint32>,
                     ghost done: seq<uint32>, ghost s: seq<uint32>, ghost i: nat, ghost m: nat, ghost j: nat,
                     ghost start: nat, ghost b0: seq<byte>)
    returns (iptr': nat, jptr': nat, kptr': nat, ghost i': nat, ghost j': nat, ghost done': seq<uint32>)
    requires buffer != data && start + 4 * |s| <= data.Length && s == Words(data[..], start, |s|) && i < m && j < |s|
    requires MergeState(goal, done, s, i, m, j, start, iptr, jptr, kptr, b0, buffer[..])
    modifies buffer
    ensures (i' == i + 1 && j' == j) || (i' == i && j' == j + 1)
    ensures MergeState(goal, done', s, i', m, j', start, iptr', jptr', kptr', b0, buffer[..])
  {
    var left := GetWord(data, iptr);
    var right := GetWord(data, jptr);
    if left < right {
      TookLeft(goal, done, s, i, m, j, |s|);
      Put(buffer, kptr, data, iptr, b0, done);
      iptr', jptr', kptr', i', j', done' := iptr + 4, jptr, kptr + 4, i + 1, j, done + [s[i]];
    } else {
      TookRight(goal, done, s, i, m, j, |s|);
      Put(buffer, kptr, data, jptr, b0, done);
      iptr', jptr', kptr', i', j', done' := iptr, jptr + 4, kptr + 4, i, j + 1, done + [s[j]];
    }
  }

  /** Merge to the buffer until one of the runs is used up. */
  method MergeWhileBoth(buffer: array<byte>, data: array<byte>, start: nat, end: nat, mid: nat,
                        ghost s: seq<uint32>, ghost m: nat, ghost goal: seq<uint32>)
    returns (iptr: nat, jptr: nat, kptr: nat, ghost i: nat, ghost j: nat, ghost done: seq<uint32>)
    requires Fits(buffer, data, start, end) && start <= mid <= end && mid + 4 == start + 4 * m
    requires s == Words(data[..], start, Count(start, end)) && Merging(goal, [], s, 0, m, m, |s|)
    modifies buffer
    ensures i == m || j == |s|
    ensures MergeState(goal, done, s, i, m, j, start, iptr, jptr, kptr, old(buffer[..]), buffer[..])
  {
    ghost var b0 := buffer[..];
    i, j, done := 0, m, [];
    iptr, jptr, kptr := start, mid + 4, 0;
    assert buffer[..] == WithWords(b0, 0, []);
    while iptr <= mid && jptr <= end
      invariant MergeState(goal, done, s, i, m, j, start, iptr, jptr, kptr, b0, buffer[..])
      decreases m - i + |s| - j
    {
      iptr, jptr, kptr, i, j, done := TakeSmaller(buffer, data, iptr, jptr, kptr, goal, done, s, i, m, j, start, b0);
    }
  }

  /** The rest of one run goes to the buffer as it is. */
  method CopyRun(buffer: array<byte>, data: array<byte>, ptr0: nat, last: nat, kptr0: nat,
                 ghost b0: seq<byte>, ghost done0: seq<uint32>, ghost s: seq<uint32>, ghost start: nat, ghost i0: nat, ghost e: nat)
    returns (kptr: nat)
    requires buffer != data && |b0| == buffer.Length && start + 4 * |s| <= data.Length
    requires s == Words(data[..], start, |s|) && i0 <= e <= |s| && ptr0 == start + 4 * i0
    requires start + 4 * e - 4 <= last < start + 4 * e
    requires 4 * (|done0| + e - i0) <= buffer.Length
    requires kptr0 == 4 * |done0| && buffer[..] == WithWords(b0, 0, done0)
    modifies buffer
    ensures kptr == 4 * (|done0| + e - i0) && buffer[..] == WithWords(b0, 0, done0 + s[i0..e])
  {
    var ptr := ptr0;
    kptr := kptr0;
    ghost var i, done := i0, done0;
    assert done0 + s[i0..i0] == done0;
    while ptr <= last
      invariant i0 <= i <= e && ptr == start + 4 * i && kptr == 4 * |done|
      invariant done == done0 + s[i0..i] && buffer[..] == WithWords(b0, 0, done)
      decreases e - i
    {
      Put(buffer, kptr, data, ptr, b0, done);
      assert done + [s[i]] == done0 + s[i0..i + 1];
      done, i := done + [s[i]], i + 1;
      kptr, ptr := kptr + 4, ptr + 4;
    }
  }

  /** Write the merge of the two runs to the buffer. */
  method MergeToBuffer(buffer: array<byte>, data: array<byte>, start: nat, end: nat, mid: nat, ghost s: seq<uint32>, ghost m: nat)
    requires Fits(buffer, data, start, end) && start <= mid <= end && mid + 4 == start + 4 * m
    requires s == Words(data[..], start, Count(start, end))
    modifies buffer
    ensures m <= |s| && buffer[..] == WithWords(old(buffer[..]), 0, Merged(s[..m], s[m..]))
  {
    ghost var b0, goal := buffer[..], Merged(s[..m], s[m..]);
    assert s[0..m] == s[..m] && s[m..|s|] == s[m..] && [] + goal == goal;
    var iptr, jptr, kptr;
    ghost var i, j, done;
    iptr, jptr, kptr, i, j, done := MergeWhileBoth(buffer, data, start, end, mid, s, m, goal);
    OneRunLeft(goal, done, s, i, m, j, |s|);
    kptr := CopyRun(buffer, data, iptr, mid, kptr, b0, done, s, start, i, m);
    kptr := CopyRun(buffer, data, jptr, end, kptr, b0, done + s[i..m], s, start, j, |s|);
  }

  /** The buffer goes back over the words it came from. */
  method CopyBack(buffer: array<byte>, data: array<byte>, start: nat, end: nat, ghost w: seq<uint32>)
    requires Fits(buffer, data, start, end) && start <= end
    requires |w| == Count(start, end) && w == Words(buffer[..], 0, |w|)
    modifies data
    ensures data[..] == WithWords(old(data[..]), start, w)
  {
    ghost var d0, k := data[..], 0;
    var iptr, kptr := start, 0;
    assert WithWords(d0, start, w[..0]) == d0;
    while iptr <= end
      invariant k <= |w| && iptr == start + 4 * k && kptr == 4 * k
      invariant data[..] == WithWords(d0, start, w[..k])
      decreases |w| - k
    {
      SetWord(data, iptr, buffer, kptr);
      StoredBoth(d0, start, w[..k], [w[k]]);
      assert w[..k] + [w[k]] == w[..k + 1];
      k, iptr, kptr := k + 1, iptr + 4, kptr + 4;
    }
    assert w[..k] == w;
  }

  /** am_stata_merge. */
  method MergeHalves(buffer: array<byte>, data: array<byte>, start: nat, end: nat, mid: nat, ghost s: seq<uint32>, ghost m: nat)
    requires Fits(buffer, data, start, end) && start <= mid <= end && mid + 4 == start + 4 * m
    requires s == Words(data[..], start, Count(start, end))
    modifies buffer, data
    ensures m <= |s| && data[..] == WithWords(old(data[..]), start, Merged(s[..m], s[m..]))
  {
    ghost var b0 := buffer[..];
    MergeToBuffer(buffer, data, start, end, mid, s, m);
    ghost var w := Merged(s[..m], s[m..]);
    StoredWords(b0, 0, w);
    CopyBack(buffer, data, start, end, w);
  }

  lemma CountHalves(start: nat, end: int, h: nat)
    requires start <= end && h == (end - start) / 4 / 2 + 1
    ensures Count(start, start + 4 * h - 4) == h && start + 4 * h - 4 <= end
    ensures h <= Count(start, end) && Count(start + 4 * h, end) == Count(start, end) - h && h == (Count(start, end) + 1) / 2
  {
  }

  /** Both halves of the words have been sorted. */
  ghost predicate HalvesDone(d: seq<byte>, d2: seq<byte>, start: nat, end: int, h: nat) {
    && start + 4 * Count(start, end) <= |d| && h <= Count(start, end)
    && var s := Words(d, start, Count(start, end));
    && var both := MergeSorted(s[..h]) + MergeSorted(s[h..]);
    && d2 == WithWords(d, start, both) && Words(d2, start, |s|) == both
  }

  /** Sorting the halves one after the other. */
  lemma HalvesSorted(d: seq<byte>, d1: seq<byte>, d2: seq<byte>, start: nat, mid: int, next: nat, end: int, h: nat)
    requires next == start + 4 * h && h <= Count(start, end) && start + 4 * Count(start, end) <= |d|
    requires Count(start, mid) == h && Count(next, end) == Count(start, end) - h
    requires d1 == SortedFrom(d, start, mid) && d2 == SortedFrom(d1, next, end)
    ensures HalvesDone(d, d2, start, end, h)
  {
    var s := Words(d, start, Count(start, end));
    var a, b := MergeSorted(s[..h]), MergeSorted(s[h..]);
    WordsSplit(d, start, h, |s|);
    SortedFromWords(d, d1, start, mid, h, s[..h], a);
    SecondHalfWords(d, d1, start, a, next, |s| - h);
    SortedFromWords(d1, d2, next, end, |s| - h, s[h..], b);
    StoredBothAndRead(d, d1, d2, start, next, a, b);
  }

  lemma SecondHalfWords(d: seq<byte>, d1: seq<byte>, start: nat, a: seq<uint32>, next: nat, count: nat)
    requires next == start + 4 * |a| && next + 4 * count <= |d| && d1 == WithWords(d, start, a)
    ensures Words(d1, next, count) == Words(d, next, count)
  {
    WordsBehind(d, start, a, count);
  }

  lemma StoredBothAndRead(d: seq<byte>, d1: seq<byte>, d2: seq<byte>, start: nat, next: nat, a: seq<uint32>, b: seq<uint32>)
    requires next == start + 4 * |a| && next + 4 * |b| <= |d|
    requires d1 == WithWords(d, start, a) && d2 == WithWords(d1, next, b)
    ensures d2 == WithWords(d, start, a + b) && Words(d2, start, |a| + |b|) == a + b
  {
    StoredBoth(d, start, a, b);
    StoredWords(d, start, a + b);
  }

  lemma SortedFromWords(d: seq<byte>, r: seq<byte>, start: nat, end: int, count: nat, s: seq<uint32>, w: seq<uint32>)
    requires count == Count(start, end) && start + 4 * count <= |d| && r == SortedFrom(d, start, end)
    requires s == Words(d, start, count) && w == MergeSorted(s)
    ensures r == WithWords(d, start, w)
  {
  }

  /** A single word, or none, is sorted. */
  lemma FewStay(d: seq<byte>, start: nat, end: int)
    requires end <= start && start + 4 * Count(start, end) <= |d|
    ensures SortedFrom(d, start, end) == d
  {
    var s := Words(d, start, Count(start, end));
    assert MergeSorted(s) == s;
    StoredSame(d, start, |s|);
  }

  lemma MergedHalves(d: seq<byte>, d2: seq<byte>, start: nat, h: nat, s: seq<uint32>, a: seq<uint32>, b: seq<uint32>)
    requires 1 <= |s| && h == (|s| + 1) / 2 && start + 4 * |s| <= |d|
    requires a == MergeSorted(s[..h]) && b == MergeSorted(s[h..]) && d2 == WithWords(d, start, a + b)
    ensures WithWords(d2, start, Merged(a, b)) == WithWords(d, start, MergeSorted(s))
  {
    if |s| == 1 {
      assert s[..1] == s && s[1..] == [];
    }
    assert MergeSorted(s) == Merged(a, b);
    StoredOver(d, start, a + b, Merged(a, b));
  }

  /** Merge the halves once both are sorted. */
  method MergeSortedHalves(buffer: array<byte>, data: array<byte>, start: nat, end: nat, mid: nat, ghost d: seq<byte>, ghost h: nat)
    requires Fits(buffer, data, start, end) && start <= mid <= end && mid + 4 == start + 4 * h
    requires h == (Count(start, end) + 1) / 2 && |d| == data.Length && HalvesDone(d, data[..], start, end, h)
    modifies buffer, data
    ensures data[..] == SortedFrom(d, start, end)
  {
    ghost var s := Words(d, start, Count(start, end));
    ghost var a, b := MergeSorted(s[..h]), MergeSorted(s[h..]);
    assert (a + b)[..h] == a && (a + b)[h..] == b;
    MergedHalves(d, data[..], start, h, s, a, b);
    MergeHalves(buffer, data, start, end, mid, a + b, h);
  }

  /** am_stata_merge_sort. */
  method MergeSort(buffer: array<byte>, data: array<byte>, start: nat, end: int)
    requires Fits(buffer, data, start, end)
    modifies buffer, data
    ensures data[..] == SortedFrom(old(data[..]), start, end)
    decreases end + 4 - start
  {
    ghost var d := data[..];
    if start < end {
      var units := (end - start) / 4 / 2;
      var mid := start + units * 4;
      ghost var h := units + 1;
      CountHalves(start, end, h);
      MergeSort(buffer, data, start, mid);
      ghost var d1 := data[..];
      MergeSort(buffer, data, mid + 4, end);
      HalvesSorted(d, d1, data[..], start, mid, mid + 4, end, h);
      MergeSortedHalves(buffer, data, start, end, mid, d, h);
    } else {
      FewStay(d, start, end);
    }
  }

  /** am_stata_merge_sort_begin; `haveBuffer` says whether the merge buffer could be had. */
  method MergeSortBegin(data: array<byte>, start: nat, end: nat, haveBuffer: bool) returns (status: Status)
    requires start < end ==> start + 4 * Count(start, end) <= data.Length
    modifies data
    ensures status == if end <= start then ParamErr else if haveBuffer then Good else AllocErr
    ensures status == Good ==>
      data[..] == SortedFrom(old(data[..]), start, end)
    ensures status != Good ==> data[..] == old(data[..])
  {
    if end > start {
      if haveBuffer {
        var buffer := new byte[end - start + 4];
        MergeSort(buffer, data, start, end);
      } else {
        return AllocErr;
      }
    } else {
      return ParamErr;
    }
    return Good;
  }

  // ---------------------------------------------------------------- the entry point

  datatype SortParam = SortParam(kind: nat, startIdx: nat, endIdx: nat, dataSigned: bool)

  /** Where the sort starts, in bytes: the start index is scaled by the number of elements. */
  function StartByte(p: SortParam, arraySize: nat): nat {
    p.startIdx * arraySize
  }

  /** The element it ends with: index 0 stands for the last one. */
  function EndIndex(p: SortParam, arraySize: nat): int {
    if p.endIdx == 0 then arraySize - 1 else p.endIdx
  }

  /** The requests that reach the merge sort. */
  predicate Sortable(p: SortParam, length: nat, arraySize: nat, dataSize: nat) {
    && length >= SORT_PARAM_SIZE && p.kind == SORT_TYPE_INTEGRAL_MERGE
    && p.startIdx < arraySize && p.endIdx < arraySize && !p.dataSigned && dataSize == WORD_SIZE
  }

  /** The requests it takes on: those whose end, so scaled, is behind their start. */
  predicate Accepted(p: SortParam, length: nat, arraySize: nat, dataSize: nat) {
    Sortable(p, length, arraySize, dataSize) && StartByte(p, arraySize) < 4 * EndIndex(p, arraySize)
  }

  /** The array after an accepted request: the words from the start byte on, up to the end, are sorted. */
  function SortedRange(m: seq<byte>, p: SortParam, arraySize: nat): (m': seq<byte>)
    requires |m| == 4 * arraySize && Accepted(p, SORT_PARAM_SIZE, arraySize, WORD_SIZE)
    ensures |m'| == |m|
  {
    SortedFrom(m, StartByte(p, arraySize), 4 * EndIndex(p, arraySize))
  }

  /** The first `count` words are an ascending permutation of what they were and no other byte has changed. */
  ghost predicate PrefixSorted(before: seq<byte>, after: seq<byte>, count: nat) {
    && |after| == |before| && 4 * count <= |before| && after[4 * count..] == before[4 * count..]
    && Ascending(Words(after, 0, count)) && multiset(Words(after, 0, count)) == multiset(Words(before, 0, count))
  }

  lemma SortedFromStart(m: seq<byte>, last: nat)
    requires 4 * last + 4 <= |m|
    ensures PrefixSorted(m, SortedFrom(m, 0, 4 * last), last + 1)
  {
    assert Count(0, 4 * last) == last + 1;
    SortedFromCorrect(m, 0, 4 * last, last + 1);
  }

  /** A request from element 0 is taken on; end index 0 means the whole array, any other the elements up to it. */
  lemma FromStartSorts(m: seq<byte>, p: SortParam, arraySize: nat)
    requires |m| == 4 * arraySize && 2 <= arraySize && p.kind == 1 && !p.dataSigned && p.startIdx == 0 && p.endIdx < arraySize
    ensures Accepted(p, SORT_PARAM_SIZE, arraySize, WORD_SIZE)
    ensures p.endIdx == 0 ==> PrefixSorted(m, SortedRange(m, p, arraySize), arraySize)
    ensures p.endIdx > 0 ==> PrefixSorted(m, SortedRange(m, p, arraySize), p.endIdx + 1)
  {
    SortedFromStart(m, if p.endIdx == 0 then arraySize - 1 else p.endIdx);
    assert StartByte(p, arraySize) == 0;
  }

  /** The words that are sorted are all those that begin between the start and the end. */
  lemma CountedWords(start: nat, end: int, k: nat)
    ensures k < Count(start, end) <==> start + 4 * k <= end
  {
  }

  /**
   * What an accepted request does, aligned or not: the words at the start byte and every four
   * bytes from there up to the last element end as an ascending permutation, and no other byte changes.
   */
  lemma AcceptedSorts(m: seq<byte>, p: SortParam, arraySize: nat, start: nat, last: nat, count: nat)
    requires |m| == 4 * arraySize && Accepted(p, SORT_PARAM_SIZE, arraySize, WORD_SIZE)
    requires start == p.startIdx * arraySize && last == if p.endIdx == 0 then arraySize - 1 else p.endIdx
    requires 0 < count && start + 4 * (count - 1) <= 4 * last < start + 4 * count
    ensures
      var m' := SortedRange(m, p, arraySize);
      && start + 4 * count <= |m|
      && Ascending(Words(m', start, count)) && multiset(Words(m', start, count)) == multiset(Words(m, start, count))
      && m'[..start] == m[..start] && m'[start + 4 * count..] == m[start + 4 * count..]
  {
    CountedWords(start, 4 * last, count);
    CountedWords(start, 4 * last, count - 1);
    assert Count(start, 4 * last) == count;
    SortedFromCorrect(m, start, 4 * last, count);
  }

  /** All that a request is refused for. */
  lemma WhatIsRefused(p: SortParam, length: nat, arraySize: nat, dataSize: nat)
    ensures !Accepted(p, length, arraySize, dataSize) <==>
      || length < 20 || p.kind != 1 || p.dataSigned || dataSize != 4
      || p.startIdx >= arraySize || p.endIdx >= arraySize
      || (if p.endIdx == 0 then 4 * (arraySize - 1) else 4 * p.endIdx) <= p.startIdx * arraySize
  {
  }

  class StaticArray {
    const size: nat
    const dataSize: nat
    const data: array<byte>

    predicate Valid() {
      data.Length == size * dataSize
    }

    constructor (size: nat, dataSize: nat)
      ensures Valid() && this.size == size && this.dataSize == dataSize && fresh(data)
    {
      this.size, this.dataSize := size, dataSize;
      data := new byte[size * dataSize](_ => 0);
    }

    /** Where a request starts and ends, in bytes, if both its indices are in the array. */
    method Bounds(p: SortParam) returns (ok: bool, start: nat, end: nat)
      ensures ok == (p.startIdx < size && p.endIdx < size)
      ensures ok ==> start == StartByte(p, size) && end == EndIndex(p, size) * dataSize
    {
      ok, start, end := false, 0, 0;
      if p.startIdx < size {
        start := p.startIdx * size;
      } else {
        return;
      }
      if p.endIdx < size {
        if p.endIdx == 0 {
          end := (size - 1) * dataSize;
        } else {
          end := p.endIdx * dataSize;
        }
      } else {
        return;
      }
      ok := true;
    }

    /** am_stata_sort. */
    method Sort(p: SortParam, length: nat, haveBuffer: bool) returns (status: Status)
      requires Valid()
      modifies data
      ensures status == if !Accepted(p, length, size, dataSize) then ParamErr else if haveBuffer then Good else AllocErr
      ensures status == Good ==> data[..] == SortedRange(old(data[..]), p, size)
      ensures status != Good ==> data[..] == old(data[..])
      ensures status == Good && p.startIdx == 0 && p.endIdx == 0 ==> PrefixSorted(old(data[..]), data[..], size)
      ensures status == Good && p.startIdx == 0 && p.endIdx > 0 ==> PrefixSorted(old(data[..]), data[..], p.endIdx + 1)
    {
      ghost var before := data[..];
      if length < SORT_PARAM_SIZE || p.kind != SORT_TYPE_INTEGRAL_MERGE {
        return ParamErr;
      }
      var ok, start, end := Bounds(p);
      if !ok || p.dataSigned || dataSize != WORD_SIZE {
        return ParamErr;
      }
      assert data.Length == 4 * size && end == 4 * EndIndex(p, size);
      status := MergeSortBegin(data, start, end, haveBuffer);
      if status == Good && p.startIdx == 0 {
        FromStartSorts(before, p, size);
      }
    }
  }

  // ---------------------------------------------------------------- which requests sort what they name

  /** The elements that a request names. */
  function Named(m: seq<byte>, p: SortParam, arraySize: nat): seq<uint32>
    requires |m| == 4 * arraySize && p.startIdx <= EndIndex(p, arraySize) < arraySize
  {
    Words(m, 4 * p.startIdx, EndIndex(p, arraySize) + 1 - p.startIdx)
  }

  /** The request is taken on and leaves the elements it names ascending. */
  ghost predicate SortsNamed(m: seq<byte>, p: SortParam, arraySize: nat)
    requires |m| == 4 * arraySize && p.startIdx <= EndIndex(p, arraySize) < arraySize
  {
    Accepted(p, SORT_PARAM_SIZE, arraySize, WORD_SIZE) && Ascending(Named(SortedRange(m, p, arraySize), p, arraySize))
  }

  lemma RightStartRange(m: seq<byte>, p: SortParam, arraySize: nat)
    requires |m| == 4 * arraySize && Sortable(p, SORT_PARAM_SIZE, arraySize, WORD_SIZE)
    requires p.startIdx < EndIndex(p, arraySize) && StartByte(p, arraySize) == 4 * p.startIdx
    ensures Accepted(p, SORT_PARAM_SIZE, arraySize, WORD_SIZE)
    ensures Count(4 * p.startIdx, 4 * EndIndex(p, arraySize)) == EndIndex(p, arraySize) + 1 - p.startIdx
    ensures SortedRange(m, p, arraySize) == SortedFrom(m, 4 * p.startIdx, 4 * EndIndex(p, arraySize))
  {
  }

  /** From the right start the named elements end as an ascending permutation and nothing else changes. */
  lemma RightStartSorts(m: seq<byte>, p: SortParam, arraySize: nat)
    requires |m| == 4 * arraySize && Sortable(p, SORT_PARAM_SIZE, arraySize, WORD_SIZE)
    requires p.startIdx < EndIndex(p, arraySize) && StartByte(p, arraySize) == 4 * p.startIdx
    ensures SortsNamed(m, p, arraySize)
    ensures
      var m' := SortedRange(m, p, arraySize);
      && multiset(Named(m', p, arraySize)) == multiset(Named(m, p, arraySize))
      && m' == WithWords(m, 4 * p.startIdx, Named(m', p, arraySize))
  {
    RightStartRange(m, p, arraySize);
    var m' := SortedRange(m, p, arraySize);
    assert Named(m', p, arraySize) == Words(m', 4 * p.startIdx, EndIndex(p, arraySize) + 1 - p.startIdx);
    SortedFromCorrect(m, 4 * p.startIdx, 4 * EndIndex(p, arraySize), EndIndex(p, arraySize) + 1 - p.startIdx);
  }

  /** A memory of zeros with one byte set. */
  function Lone(size: nat, at: nat): (m: seq<byte>)
    requires at < size
    ensures |m| == size && m[at] == 1 && forall b :: 0 <= b < size && b != at ==> m[b] == 0
  {
    seq(size, b => if b == at then 1 else 0)
  }

  lemma WordOfZeros(m: seq<byte>, at: nat)
    requires at + 4 <= |m| && forall b :: at <= b < at + 4 ==> m[b] == 0
    ensures WordAt(m, at) == 0
  {
    assert m[at..at + 4] == [0, 0, 0, 0];
  }

  /** Sorting words that are all zero changes nothing. */
  lemma ZerosStay(m: seq<byte>, start: nat, end: int, count: nat)
    requires count == Count(start, end) && start + 4 * count <= |m| && forall b :: start <= b < start + 4 * count ==> m[b] == 0
    ensures SortedFrom(m, start, end) == m
  {
    var w := Words(m, start, count);
    MergeSortedCorrect(w);
    forall i | 0 <= i < count
      ensures w[i] == 0
    {
      WordOfZeros(m, start + 4 * i);
    }
    forall i | 0 <= i < count
      ensures MergeSorted(w)[i] == w[i]
    {
      assert MergeSorted(w)[i] in multiset(MergeSorted(w));
    }
    assert MergeSorted(w) == w;
    StoredSame(m, start, count);
  }

  /** A start behind the first named element leaves that element alone, and it may be too big. */
  lemma LateStartMisses(p: SortParam, arraySize: nat)
    requires Sortable(p, SORT_PARAM_SIZE, arraySize, WORD_SIZE) && p.startIdx < EndIndex(p, arraySize)
    requires StartByte(p, arraySize) > 4 * p.startIdx
    ensures !SortsNamed(Lone(4 * arraySize, 4 * p.startIdx), p, arraySize)
  {
    var at := 4 * p.startIdx;
    var m := Lone(4 * arraySize, at);
    if Accepted(p, SORT_PARAM_SIZE, arraySize, WORD_SIZE) {
      var start, end := StartByte(p, arraySize), 4 * EndIndex(p, arraySize);
      ZerosStay(m, start, end, Count(start, end));
      assert SortedRange(m, p, arraySize) == m;
      assert m[at..at + 4] == [1, 0, 0, 0];
      WordOfZeros(m, at + 4);
      assert Named(m, p, arraySize)[0] == WordAt(m, at) == 1;
      assert Named(m, p, arraySize)[1] == WordAt(m, at + 4) == 0;
    }
  }

  lemma PairStays(m: seq<byte>, start: nat, end: int)
    requires Count(start, end) == 2 && start + 8 <= |m| && WordAt(m, start) < WordAt(m, start + 4)
    ensures SortedFrom(m, start, end) == m
  {
    var w := Words(m, start, 2);
    var x, y := w[0], w[1];
    assert w[..1] == [x] && w[1..] == [y];
    assert Merged([x], [y]) == [x] + Merged([], [y]);
    assert MergeSorted(w) == w;
    StoredSame(m, start, 2);
  }

  /** The one request with an early start: elements 1 and 2 of three are sorted a byte too low. */
  lemma EarlyStartMisses(p: SortParam)
    requires Sortable(p, SORT_PARAM_SIZE, 3, WORD_SIZE) && p.startIdx == 1 && EndIndex(p, 3) == 2
    ensures !SortsNamed(Lone(12, 7), p, 3)
  {
    var m := Lone(12, 7);
    assert m[3..7] == [0, 0, 0, 0] && m[7..11] == [1, 0, 0, 0];
    assert m[4..8] == [0, 0, 0, 1] && m[8..12] == [0, 0, 0, 0];
    WordOf(0, 0, 0, 0);
    WordOf(1, 0, 0, 0);
    WordOf(0, 0, 0, 1);
    assert StartByte(p, 3) == 3 && Count(3, 8) == 2;
    PairStays(m, 3, 8);
    assert SortedRange(m, p, 3) == m;
    assert Named(m, p, 3)[0] == WordAt(m, 4) && Named(m, p, 3)[1] == WordAt(m, 8);
  }

  lemma StartsCompared(s: nat, n: nat)
    ensures s > 0 && n > WORD_SIZE ==> s * n > 4 * s
    ensures s == 0 || n == WORD_SIZE ==> s * n == 4 * s
  {
    if s > 0 && n > WORD_SIZE {
      assert s * n == s * 4 + s * (n - 4);
      assert s * (n - 4) > 0;
    }
  }

  /** With any other start there is an array that shows it. */
  lemma WrongStartMisses(p: SortParam, arraySize: nat) returns (m: seq<byte>)
    requires Sortable(p, SORT_PARAM_SIZE, arraySize, WORD_SIZE) && p.startIdx < EndIndex(p, arraySize)
    requires p.startIdx != 0 && arraySize != WORD_SIZE
    ensures |m| == 4 * arraySize && !SortsNamed(m, p, arraySize)
  {
    if arraySize > WORD_SIZE {
      StartsCompared(p.startIdx, arraySize);
      LateStartMisses(p, arraySize);
      m := Lone(4 * arraySize, 4 * p.startIdx);
    } else {
      EarlyStartMisses(p);
      m := Lone(12, 7);
    }
  }

  /**
   * A request for a range of two or more elements is taken on and leaves them ascending, whatever
   * the array holds, exactly when the range starts at element 0 or the array has four elements.
   */
  lemma RangeSortedIff(p: SortParam, arraySize: nat)
    requires Sortable(p, SORT_PARAM_SIZE, arraySize, WORD_SIZE) && p.startIdx < EndIndex(p, arraySize)
    ensures (forall m :: |m| == 4 * arraySize ==> SortsNamed(m, p, arraySize)) <==>
      p.startIdx == 0 || arraySize == WORD_SIZE
  {
    if p.startIdx == 0 || arraySize == WORD_SIZE {
      StartsCompared(p.startIdx, arraySize);
      forall m | |m| == 4 * arraySize
        ensures SortsNamed(m, p, arraySize)
      {
        RightStartSorts(m, p, arraySize);
      }
    } else {
      var m := WrongStartMisses(p, arraySize);
    }
  }

  /** Elements 2 to 7 of eight are asked for, elements 2 and 3 are out of order, and still are afterwards. */
  method SortMissesStart(a: StaticArray, length: nat) returns (status: Status)
    requires a.Valid() && a.size == 8 && a.dataSize == WORD_SIZE && length >= SORT_PARAM_SIZE
    requires WordAt(a.data[..], 8) > WordAt(a.data[..], 12)
    modifies a.data
    ensures status == Good && !Ascending(Words(a.data[..], 8, 6))
  {
    var p := SortParam(SORT_TYPE_INTEGRAL_MERGE, 2, 7, false);
    ghost var before := a.data[..];
    status := a.Sort(p, length, true);
    OtherWords(before, a.data[..], 8, 2);
    assert Words(a.data[..], 8, 2)[0] == WordAt(before, 8) && Words(a.data[..], 8, 2)[1] == WordAt(before, 12);
    assert Words(a.data[..], 8, 6)[0] == WordAt(before, 8) && Words(a.data[..], 8, 6)[1] == WordAt(before, 12);
  }
}
