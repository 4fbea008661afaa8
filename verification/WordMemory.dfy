/** Byte memory seen as 32-bit words that start at some byte, aligned or not. */
module WordMemory {
  import opened Buffers

  function WordAt(m: seq<byte>, at: nat): uint32
    requires at + 4 <= |m|
  {
    FromU32(m[at..at + 4])
  }

  lemma WordOf(a: byte, b: byte, c: byte, d: byte)
    ensures FromU32([a, b, c, d]) == a as int + 0x100 * b as int + 0x1_0000 * c as int + 0x100_0000 * d as int
  {
    assert [a, b, c, d][..2] == [a, b] && [a, b, c, d][2..] == [c, d];
  }

  /** `count` words from byte `at` on. */
  function Words(m: seq<byte>, at: nat, count: nat): (w: seq<uint32>)
    requires at + 4 * count <= |m|
    ensures |w| == count && forall i :: 0 <= i < count ==> w[i] == WordAt(m, at + 4 * i)
  {
    seq(count, i requires 0 <= i < count => WordAt(m, at + 4 * i))
  }

  function BytesOf(w: seq<uint32>): (b: seq<byte>)
    ensures |b| == 4 * |w|
  {
    if w == [] then [] else U32(w[0]) + BytesOf(w[1..])
  }

  /** The memory with words stored from byte `at` on. */
  function WithWords(m: seq<byte>, at: nat, w: seq<uint32>): (r: seq<byte>)
    requires at + 4 * |w| <= |m|
    ensures |r| == |m|
  {
    m[..at] + BytesOf(w) + m[at + 4 * |w|..]
  }

  lemma {:induction false} BytesOfConcat(a: seq<uint32>, b: seq<uint32>)
    ensures BytesOf(a + b) == BytesOf(a) + BytesOf(b)
  {
    if a == [] {
      assert a + b == b;
    } else {
      assert (a + b)[1..] == a[1..] + b;
      BytesOfConcat(a[1..], b);
    }
  }

  lemma BytesOfOne(x: uint32)
    ensures BytesOf([x]) == U32(x)
  {
    assert [x][1..] == [];
  }

  lemma {:induction false} BytesOfAt(w: seq<uint32>, i: nat)
    requires i < |w|
    ensures BytesOf(w)[4 * i..4 * i + 4] == U32(w[i])
  {
    if i > 0 {
      BytesOfAt(w[1..], i - 1);
      assert BytesOf(w)[4 * i..4 * i + 4] == BytesOf(w[1..])[4 * (i - 1)..4 * (i - 1) + 4];
    }
  }

  lemma {:induction false} BytesOfWords(m: seq<byte>, at: nat, count: nat)
    requires at + 4 * count <= |m|
    ensures BytesOf(Words(m, at, count)) == m[at..at + 4 * count]
    decreases count
  {
    if count > 0 {
      WordsSplit(m, at, 1, count);
      BytesOfWords(m, at + 4, count - 1);
      BytesRoundTrip(m[at..at + 4]);
    }
  }

  lemma StoredWord(m: seq<byte>, at: nat, w: seq<uint32>, i: nat)
    requires at + 4 * |w| <= |m| && i < |w|
    ensures WordAt(WithWords(m, at, w), at + 4 * i) == w[i]
  {
    var r, b := WithWords(m, at, w), at + 4 * i;
    BytesOfAt(w, i);
    assert r[b..b + 4] == BytesOf(w)[4 * i..4 * i + 4];
    U32RoundTrip(w[i]);
  }

  /** What was stored is read back. */
  lemma StoredWords(m: seq<byte>, at: nat, w: seq<uint32>)
    requires at + 4 * |w| <= |m|
    ensures Words(WithWords(m, at, w), at, |w|) == w
  {
    forall i | 0 <= i < |w|
      ensures Words(WithWords(m, at, w), at, |w|)[i] == w[i]
    {
      StoredWord(m, at, w, i);
    }
  }

  /** Words elsewhere are as they were. */
  lemma OtherWords(m: seq<byte>, m': seq<byte>, at: nat, count: nat)
    requires |m| == |m'| && at + 4 * count <= |m|
    requires forall b :: at <= b < at + 4 * count ==> m'[b] == m[b]
    ensures Words(m', at, count) == Words(m, at, count)
  {
    forall i | 0 <= i < count
      ensures Words(m', at, count)[i] == Words(m, at, count)[i]
    {
      var b := at + 4 * i;
      assert m'[b..b + 4] == m[b..b + 4];
    }
  }

  /** Words behind those that were stored are as they were. */
  lemma WordsBehind(m: seq<byte>, at: nat, w: seq<uint32>, count: nat)
    requires at + 4 * |w| + 4 * count <= |m|
    ensures Words(WithWords(m, at, w), at + 4 * |w|, count) == Words(m, at + 4 * |w|, count)
  {
    OtherWords(m, WithWords(m, at, w), at + 4 * |w|, count);
  }

  lemma WordsSplit(m: seq<byte>, at: nat, a: nat, count: nat)
    requires a <= count && at + 4 * count <= |m|
    ensures Words(m, at, count)[..a] == Words(m, at, a) && Words(m, at, count)[a..] == Words(m, at + 4 * a, count - a)
  {
    assert forall i :: 0 <= i < count - a ==> Words(m, at, count)[a + i] == WordAt(m, at + 4 * a + 4 * i);
  }

  /** Storing one run after another stores both. */
  lemma StoredBoth(m: seq<byte>, at: nat, a: seq<uint32>, b: seq<uint32>)
    requires at + 4 * (|a| + |b|) <= |m|
    ensures WithWords(WithWords(m, at, a), at + 4 * |a|, b) == WithWords(m, at, a + b)
  {
    BytesOfConcat(a, b);
    var r, next := WithWords(m, at, a), at + 4 * |a|;
    assert r[..next] == m[..at] + BytesOf(a) && r[next + 4 * |b|..] == m[next + 4 * |b|..];
  }

  /** Storing over what was stored leaves the last. */
  lemma StoredOver(m: seq<byte>, at: nat, a: seq<uint32>, b: seq<uint32>)
    requires at + 4 * |a| <= |m| && |a| == |b|
    ensures WithWords(WithWords(m, at, a), at, b) == WithWords(m, at, b)
  {
    var r := WithWords(m, at, a);
    assert r[..at] == m[..at] && r[at + 4 * |b|..] == m[at + 4 * |b|..];
  }

  /** Storing what is there changes nothing. */
  lemma StoredSame(m: seq<byte>, at: nat, count: nat)
    requires at + 4 * count <= |m|
    ensures WithWords(m, at, Words(m, at, count)) == m
  {
    BytesOfWords(m, at, count);
  }

  /** Copying four bytes stores one word. */
  lemma PatchIsStore(m: seq<byte>, at: nat, bytes: seq<byte>)
    requires at + 4 <= |m| && |bytes| == 4
    ensures m[..at] + bytes + m[at + 4..] == WithWords(m, at, [FromU32(bytes)])
  {
    BytesRoundTrip(bytes);
    BytesOfOne(FromU32(bytes));
  }
}
