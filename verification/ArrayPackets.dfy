/**
 * The static array behind packets: `am_stata_sort` as the action that a sort request calls. It
 * looks at the twenty bytes of its parameter structure, of which the last three are padding.
 */
module ArrayPackets {
  import opened Buffers
  import opened WordMemory
  import opened StaticArrays
  import opened Packets

  const RET_ALLOC_ERR := 2

  /** The parameter structure: type, start, end, an order that nothing looks at, and a flag. */
  function ParamOf(m: seq<byte>): SortParam
    requires 17 <= |m|
  {
    SortParam(FromU32(m[0..4]), FromU32(m[4..8]), FromU32(m[8..12]), m[16] != 0)
  }

  /** What a sort does to the bytes of an array of `n` words, and its status. */
  function SortOutcome(n: nat, haveBuffer: bool, d: seq<byte>, m: seq<byte>): (seq<byte>, Packets.Status) {
    if |d| != 4 * n || |m| < 17 || !Accepted(ParamOf(m), SORT_PARAM_SIZE, n, WORD_SIZE) then (d, RET_PARAM_ERR)
    else if haveBuffer then (SortedRange(d, ParamOf(m), n), RET_GOOD)
    else (d, RET_ALLOC_ERR)
  }

  /** ... when its parameter is said to have `l` bytes. */
  function ActionOutcome(n: nat, haveBuffer: bool, d: seq<byte>, m: seq<byte>, l: nat): (seq<byte>, Packets.Status) {
    if l < SORT_PARAM_SIZE || |m| < SORT_PARAM_SIZE then (d, RET_PARAM_ERR)
    else SortOutcome(n, haveBuffer, d, m[..SORT_PARAM_SIZE])
  }

  function SortBody(n: nat, haveBuffer: bool): (seq<byte>, seq<byte>) -> (seq<byte>, Packets.Status) {
    (d: seq<byte>, m: seq<byte>) => SortOutcome(n, haveBuffer, d, m)
  }

  /** am_stata_sort as a handler. */
  function SortAction(n: nat, haveBuffer: bool): (seq<byte>, seq<byte>, nat) -> (seq<byte>, Packets.Status) {
    (d: seq<byte>, m: seq<byte>, l: nat) => ActionOutcome(n, haveBuffer, d, m, l)
  }

  /** The handler is what the array's own sort does. */
  method SortArray(a: StaticArray, m: seq<byte>, l: nat, haveBuffer: bool) returns (code: Packets.Status)
    requires a.Valid() && a.dataSize == WORD_SIZE && SORT_PARAM_SIZE <= |m|
    modifies a.data
    ensures (a.data[..], code) == SortAction(a.size, haveBuffer)(old(a.data[..]), m, l)
  {
    assert m[..SORT_PARAM_SIZE][..17] == m[..17];
    PaddingIgnored(m[..SORT_PARAM_SIZE], m);
    var status := a.Sort(ParamOf(m), l, haveBuffer);
    match status
    case Good => code := RET_GOOD;
    case ParamErr => code := RET_PARAM_ERR;
    case AllocErr => code := RET_ALLOC_ERR;
  }

  lemma SortActionLooksAt(n: nat, haveBuffer: bool)
    ensures LooksAt(SortAction(n, haveBuffer), SORT_PARAM_SIZE, SortBody(n, haveBuffer))
  {
  }

  /** Only the first seventeen bytes matter. */
  lemma PaddingIgnored(m: seq<byte>, m': seq<byte>)
    requires 17 <= |m| && 17 <= |m'| && m[..17] == m'[..17]
    ensures ParamOf(m) == ParamOf(m')
  {
    assert m[0..4] == m[..17][0..4] && m'[0..4] == m'[..17][0..4];
    assert m[4..8] == m[..17][4..8] && m'[4..8] == m'[..17][4..8];
    assert m[8..12] == m[..17][8..12] && m'[8..12] == m'[..17][8..12];
    assert m[16] == m[..17][16] && m'[16] == m'[..17][16];
  }

  lemma SeenParam(param: seq<byte>, tx0: seq<byte>)
    requires 17 <= |param| && |tx0| == PACK_SIZE && WRAPPER_SIZE + |param| <= PACK_SIZE
    ensures ParamOf(Seen(param, tx0)[..SORT_PARAM_SIZE]) == ParamOf(param)
  {
    var seen := Seen(param, tx0)[..SORT_PARAM_SIZE];
    assert seen[..17] == param[..17];
    PaddingIgnored(seen, param);
  }

  /**
   * For the static array: a sort through packets is the direct sort exactly when its parameter
   * does not have 18 or 19 bytes, or would be refused anyway.
   */
  lemma ArraySortTransparentIff(f: Function<seq<byte>>, d: seq<byte>, param: seq<byte>, wide: bool, tx0: seq<byte>, rx0: seq<byte>,
                                n: nat, haveBuffer: bool)
    requires |tx0| == |rx0| == PACK_SIZE && Usable(f) && Sized(f, Sort(param)) && |d| == 4 * n
    requires f.handlers(OP_SORT) == Actor(SortAction(n, haveBuffer))
    ensures Packet(f, d, Sort(param), wide, tx0, rx0) == Direct(f, d, Sort(param)) <==>
      !(18 <= |param| <= 19) || !Accepted(ParamOf(param), SORT_PARAM_SIZE, n, WORD_SIZE)
  {
    SortActionLooksAt(n, haveBuffer);
    SortIsTransparentIff(f, d, param, wide, tx0, rx0, SORT_PARAM_SIZE, SortBody(n, haveBuffer));
    if 18 <= |param| {
      SeenParam(param, tx0);
    }
  }

  lemma SameOutcome(n: nat, haveBuffer: bool, d: seq<byte>, m: seq<byte>, m': seq<byte>)
    requires 17 <= |m| && 17 <= |m'| && ParamOf(m) == ParamOf(m')
    ensures SortOutcome(n, haveBuffer, d, m) == SortOutcome(n, haveBuffer, d, m')
  {
  }

  /** What reaches the array through packets when the parameter is one or two bytes short. */
  lemma ShortSortOutcome(f: Function<seq<byte>>, d: seq<byte>, param: seq<byte>, wide: bool, tx0: seq<byte>, rx0: seq<byte>,
                         n: nat, haveBuffer: bool)
    requires |tx0| == |rx0| == PACK_SIZE && Usable(f) && Sized(f, Sort(param))
    requires f.handlers(OP_SORT) == Actor(SortAction(n, haveBuffer)) && 18 <= |param| <= 19
    ensures Direct(f, d, Sort(param)) == (d, Result(RET_PARAM_ERR, []))
    ensures
      var (d', status) := SortOutcome(n, haveBuffer, d, param);
      Packet(f, d, Sort(param), wide, tx0, rx0) == (d', Result(status, []))
  {
    SortThroughPackets(f, d, param, wide, tx0, rx0);
    SeenParam(param, tx0);
    SameOutcome(n, haveBuffer, d, Seen(param, tx0)[..SORT_PARAM_SIZE], param);
  }

  /** It sorts as the whole parameter does, whatever its last bytes. */
  lemma ShortSortSorts(f: Function<seq<byte>>, d: seq<byte>, param: seq<byte>, pad: seq<byte>, wide: bool, tx0: seq<byte>, rx0: seq<byte>,
                       n: nat, haveBuffer: bool)
    requires |tx0| == |rx0| == PACK_SIZE && Usable(f) && Sized(f, Sort(param))
    requires f.handlers(OP_SORT) == Actor(SortAction(n, haveBuffer))
    requires 18 <= |param| <= 19 && |param + pad| == SORT_PARAM_SIZE
    ensures Packet(f, d, Sort(param), wide, tx0, rx0) == Direct(f, d, Sort(param + pad))
  {
    ShortSortOutcome(f, d, param, wide, tx0, rx0, n, haveBuffer);
    assert (param + pad)[..17] == param[..17];
    PaddingIgnored(param + pad, param);
    SameOutcome(n, haveBuffer, d, param + pad, param);
    WholeSort(f, d, param + pad, n, haveBuffer);
  }

  lemma WholeSort(f: Function<seq<byte>>, d: seq<byte>, param: seq<byte>, n: nat, haveBuffer: bool)
    requires f.Function? && f.handlers(OP_SORT) == Actor(SortAction(n, haveBuffer)) && |param| == SORT_PARAM_SIZE
    ensures
      var (d', status) := SortOutcome(n, haveBuffer, d, param);
      Direct(f, d, Sort(param)) == (d', Result(status, []))
  {
    assert param[..SORT_PARAM_SIZE] == param;
  }

  const UNSORTED: seq<byte> := [1, 0, 0, 0, 0, 0, 0, 0]
  const SHORT_PARAM: seq<byte> := [1, 0, 0, 0, 0, 0, 0, 0, 0, 0, 0, 0, 0, 0, 0, 0, 0, 0]

  /** The parameter asks for the whole array, which is [1, 0], and gets it in order. */
  lemma ShortParamSorts()
    ensures WordAt(UNSORTED, 0) > WordAt(UNSORTED, 4)
    ensures
      var (d', status) := SortOutcome(2, true, UNSORTED, SHORT_PARAM);
      status == RET_GOOD && |d'| == 8 && WordAt(d', 0) <= WordAt(d', 4)
  {
    var d, param := UNSORTED, SHORT_PARAM;
    assert param[0..4] == [1, 0, 0, 0] && param[4..8] == [0, 0, 0, 0] && param[8..12] == [0, 0, 0, 0];
    assert d[0..4] == [1, 0, 0, 0] && d[4..8] == [0, 0, 0, 0];
    WordOf(1, 0, 0, 0);
    WordOf(0, 0, 0, 0);
    var p := ParamOf(param);
    assert p == SortParam(1, 0, 0, false);
    assert EndIndex(p, 2) == 1 && StartByte(p, 2) == 0 && Count(0, 4) == 2;
    SortedFromCorrect(d, 0, 4, 2);
    var d' := SortedRange(d, p, 2);
    assert Words(d', 0, 2)[0] == WordAt(d', 0) && Words(d', 0, 2)[1] == WordAt(d', 4);
  }

  /** Eighteen bytes that ask for the whole of an array [1, 0]: refused directly, sorted through packets. */
  lemma ShortSortDiffers(f: Function<seq<byte>>, wide: bool, tx0: seq<byte>, rx0: seq<byte>)
    requires |tx0| == |rx0| == PACK_SIZE && Usable(f) && f.Function? && f.handlers(OP_SORT) == Actor(SortAction(2, true))
    ensures Direct(f, UNSORTED, Sort(SHORT_PARAM)) == (UNSORTED, Result(RET_PARAM_ERR, []))
    ensures
      var (d', r) := Packet(f, UNSORTED, Sort(SHORT_PARAM), wide, tx0, rx0);
      && WordAt(UNSORTED, 0) > WordAt(UNSORTED, 4)
      && r == Result(RET_GOOD, []) && |d'| == 8 && WordAt(d', 0) <= WordAt(d', 4)
  {
    ShortSortOutcome(f, UNSORTED, SHORT_PARAM, wide, tx0, rx0, 2, true);
    ShortParamSorts();
  }
}
