/**
 * The mapped device end to end: packets through the shared page. Whatever the interleaving, a
 * client that sends its calls as packets gets the results of calling the device directly.
 */
module MappedSessions {
  import opened Buffers
  import opened Packets
  import opened SharedPage

  /** The device thread executing packets with am_pack_process_cmd. */
  ghost function Dispatcher<D(!new)>(f: Function<D>): Executor<D, seq<byte>, seq<byte>> {
    (device: D, req: seq<byte>, resp: seq<byte>) =>
      if |req| == |resp| == PACK_SIZE && Usable(f) && WellTyped(f, WrapperOf(req)) then
        var o := Process(f, device, req, resp);
        (o.device, o.resp)
      else (device, resp)
  }

  /** The calls that can be made of the function, and whose packets lose nothing. */
  ghost predicate Transparent<D(!new)>(f: Function<D>, calls: seq<Call>, wide: bool, need: nat, body: (D, seq<byte>) -> (D, Status)) {
    && f.Function? && Usable(f) && (wide ==> f.idxSize == f.dataSize == 4)
    && (f.handlers(OP_SORT).Actor? ==> LooksAt(f.handlers(OP_SORT).act, need, body) && need <= PACK_SIZE - WRAPPER_SIZE)
    && (forall i :: 0 <= i < |calls| ==> Sized(f, calls[i]) && Registered(f, calls[i]))
    && (forall i :: 0 <= i < |calls| && calls[i].Sort? ==> !(need <= |calls[i].param| + 2 < need + 2))
  }

  /** The request was built for the call, over whatever the buffer held. */
  ghost predicate BuiltOver<D>(f: Function<D>, req: seq<byte>, call: Call, wide: bool) {
    && Sized(f, call) && WRAPPER_SIZE + f.idxSize + f.dataSize <= PACK_SIZE
    && exists tx :: |tx| == PACK_SIZE && req == Request(f, call, wide, tx)
  }

  ghost predicate BuiltFor<D>(f: Function<D>, reqs: seq<seq<byte>>, calls: seq<Call>, wide: bool) {
    && |reqs| == |calls| && f.Function? && WRAPPER_SIZE + f.idxSize + f.dataSize <= PACK_SIZE
    && forall i :: 0 <= i < |calls| ==> BuiltOver(f, reqs[i], calls[i], wide)
  }

  lemma {:induction false} DirectSessionLast<D>(f: Function<D>, device: D, calls: seq<Call>)
    requires calls != [] && forall i :: 0 <= i < |calls| ==> Registered(f, calls[i])
    ensures
      var k := |calls| - 1;
      var (device', rs) := DirectSession(f, device, calls[..k]);
      var (device'', r) := Direct(f, device', calls[k]);
      DirectSession(f, device, calls) == (device'', rs + [r])
  {
    var k := |calls| - 1;
    if k == 0 {
      assert calls[..0] == [] && calls[1..] == [];
      var r := Direct(f, device, calls[0]).1;
      assert [r] + [] == [] + [r];
    } else {
      var (device1, r0) := Direct(f, device, calls[0]);
      DirectSessionLast(f, device1, calls[1..]);
      assert calls[1..][..k - 1] == calls[..k][1..];
      var (device', rs) := DirectSession(f, device1, calls[..k][1..]);
      var r := Direct(f, device', calls[k]).1;
      assert [r0] + (rs + [r]) == [r0] + rs + [r];
    }
  }

  /** One call, executed by the dispatcher and decoded, is the direct call. */
  lemma DispatchedCall<D(!new)>(f: Function<D>, device: D, calls: seq<Call>, k: nat, wide: bool, req: seq<byte>, rx: seq<byte>,
                                need: nat, body: (D, seq<byte>) -> (D, Status))
    requires Transparent(f, calls, wide, need, body) && k < |calls| && |rx| == PACK_SIZE && BuiltOver(f, req, calls[k], wide)
    ensures
      var (device', resp) := Dispatcher(f)(device, req, rx);
      |resp| == PACK_SIZE && (device', Decode(f, calls[k], wide, resp)) == Direct(f, device, calls[k])
  {
    var call := calls[k];
    var tx :| |tx| == PACK_SIZE && req == Request(f, call, wide, tx);
    RequestWellTyped(f, call, wide, tx);
    if call.Sort? {
      SortIsTransparentIff(f, device, call.param, wide, tx, rx, need, body);
    } else {
      AccessIsTransparent(f, device, call, wide, tx, rx);
    }
  }

  ghost predicate Decoded<D>(f: Function<D>, calls: seq<Call>, wide: bool, resps: seq<seq<byte>>, results: seq<Result>) {
    && |resps| == |results| <= |calls| && f.Function? && WRAPPER_SIZE + f.idxSize + f.dataSize <= PACK_SIZE
    && forall i :: 0 <= i < |resps| ==> |resps[i]| == PACK_SIZE && Decode(f, calls[i], wide, resps[i]) == results[i]
  }

  /** Executing the requests of a session one after the other gives the direct session. */
  lemma {:induction false} ReplayedSession<D(!new)>(f: Function<D>, device: D, rx0: seq<byte>, reqs: seq<seq<byte>>, calls: seq<Call>,
                                                    wide: bool, need: nat, body: (D, seq<byte>) -> (D, Status))
    requires Transparent(f, calls, wide, need, body) && BuiltFor(f, reqs, calls, wide) && |rx0| == PACK_SIZE
    ensures
      var (d, rx, resps) := Replay(device, rx0, reqs, Dispatcher(f));
      var (d', results) := DirectSession(f, device, calls);
      d == d' && |rx| == PACK_SIZE && Decoded(f, calls, wide, resps, results)
  {
    if calls == [] {
      assert reqs == [];
    } else {
      var k := |calls| - 1;
      BuiltPrefix(f, reqs, calls, wide, k);
      ReplayedSession(f, device, rx0, reqs[..k], calls[..k], wide, need, body);
      DirectSessionLast(f, device, calls);
      var (d, rx, resps) := Replay(device, rx0, reqs[..k], Dispatcher(f));
      ReplayLength(device, rx0, reqs[..k], Dispatcher(f));
      assert BuiltOver(f, reqs[k], calls[k], wide);
      DispatchedCall(f, d, calls, k, wide, reqs[k], rx, need, body);
      var (d', resp) := Dispatcher(f)(d, reqs[k], rx);
      var (d1, results) := DirectSession(f, device, calls[..k]);
      var (d2, result) := Direct(f, d1, calls[k]);
      assert Decode(f, calls[k], wide, resp) == result;
      DecodedExtended(f, calls, wide, resps, results, resp, result);
    }
  }

  lemma BuiltPrefix<D>(f: Function<D>, reqs: seq<seq<byte>>, calls: seq<Call>, wide: bool, k: nat)
    requires BuiltFor(f, reqs, calls, wide) && k <= |calls|
    ensures BuiltFor(f, reqs[..k], calls[..k], wide)
  {
    var reqs', calls' := reqs[..k], calls[..k];
    forall i | 0 <= i < k
      ensures BuiltOver(f, reqs'[i], calls'[i], wide)
    {
      assert reqs'[i] == reqs[i] && calls'[i] == calls[i] && BuiltOver(f, reqs[i], calls[i], wide);
    }
  }

  lemma DecodedExtended<D>(f: Function<D>, calls: seq<Call>, wide: bool, resps: seq<seq<byte>>, results: seq<Result>,
                           resp: seq<byte>, result: Result)
    requires calls != [] && |resps| == |calls| - 1 && Decoded(f, calls[..|calls| - 1], wide, resps, results)
    requires |resp| == PACK_SIZE && Decode(f, calls[|calls| - 1], wide, resp) == result
    ensures Decoded(f, calls, wide, resps + [resp], results + [result])
  {
    assert forall i :: 0 <= i < |resps| ==> calls[..|calls| - 1][i] == calls[i];
  }

  /** The device and the answers that replaying the requests of a session gives are the direct ones. */
  lemma ReplayedCalls<D(!new)>(f: Function<D>, device: D, rx0: seq<byte>, reqs: seq<seq<byte>>, calls: seq<Call>,
                               wide: bool, need: nat, body: (D, seq<byte>) -> (D, Status),
                               device': D, answers: seq<seq<byte>>)
    requires Transparent(f, calls, wide, need, body) && BuiltFor(f, reqs, calls, wide) && |rx0| == PACK_SIZE
    requires device' == Replay(device, rx0, reqs, Dispatcher(f)).0
    requires |answers| == |reqs| && answers <= Replay(device, rx0, reqs, Dispatcher(f)).2
    ensures AsDirect(f, device, calls, wide, device', answers)
  {
    ReplayLength(device, rx0, reqs, Dispatcher(f));
    ReplayedSession(f, device, rx0, reqs, calls, wide, need, body);
    assert answers == Replay(device, rx0, reqs, Dispatcher(f)).2;
  }

  /** Device and answers are those of calling the device directly. */
  ghost predicate AsDirect<D>(f: Function<D>, device: D, calls: seq<Call>, wide: bool, device': D, answers: seq<seq<byte>>) {
    && (forall i :: 0 <= i < |calls| ==> Registered(f, calls[i]))
    && var (direct, results) := DirectSession(f, device, calls);
       device' == direct && |answers| == |calls| && Decoded(f, calls, wide, answers, results)
  }

  /**
   * Over every interleaving of the client and the device thread: when the client is between
   * calls, the device is as the direct calls leave it, and every response decodes to the result
   * of the direct call.
   */
  lemma MappedCallsAreDirect<D(!new)>(s: State<D, seq<byte>, seq<byte>>, turns: seq<Turn<seq<byte>>>, f: Function<D>, calls: seq<Call>,
                                      wide: bool, need: nat, body: (D, seq<byte>) -> (D, Status))
    requires Initial(s) && Prepared(s) && |s.mapRx| == PACK_SIZE
    requires Transparent(f, calls, wide, need, body)
    requires
      var t := Run(s, turns, Dispatcher(f));
      t.client.GetFree? && BuiltFor(f, t.sent, calls, wide)
    ensures
      var t := Run(s, turns, Dispatcher(f));
      AsDirect(f, s.device, calls, wide, t.device, t.answers)
  {
    var t := Run(s, turns, Dispatcher(f));
    RunIsDirectExecution(s, turns, Dispatcher(f));
    assert t.sent[..t.handled] == t.sent;
    ReplayedCalls(f, s.device, s.mapRx, t.sent, calls, wide, need, body, t.device, t.answers);
  }
}
