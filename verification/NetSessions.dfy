/**
 * The target end to end: packets through the receive ring, as datagrams of the lengths that both
 * sides announce. However many clients' calls interleave, each client gets the results of its own
 * calls, as if all calls had been made directly in the order in which the target serves them.
 */
module NetSessions {
  import opened Bits
  import opened Buffers
  import opened Packets
  import opened SharedPage
  import opened MappedSessions
  import opened ReceiveRing

  const TAG := 1  // am_net_get_free_req

  /** The target executing commands with am_pack_process_cmd and sending as many bytes as that says. */
  ghost function NetDispatcher<D(!new)>(f: Function<D>): Server<D> {
    (device: D, req: seq<byte>, r: Response) =>
      if |req| == |r.buffer| == PACK_SIZE && Usable(f) && WellTyped(f, WrapperOf(req)) then
        var o := Process(f, device, req, r.buffer);
        (o.device, Response(o.resp, o.txBytes))
      else (device, r)
  }

  // ---------------------------------------------------------------- requests on the wire

  /** How much of the transmit buffer a request is sent as: its announced length, but no more than a packet. */
  function SentLength<D>(f: Function<D>, call: Call, wide: bool): nat
    requires f.Function?
  {
    if TxSize(f, call, wide) <= PACK_SIZE then TxSize(f, call, wide) else PACK_SIZE
  }

  /** The datagram is the call's request, tagged, as far as it is sent. */
  ghost predicate SentFor<D>(f: Function<D>, datagram: seq<byte>, call: Call, wide: bool) {
    && Sized(f, call) && WRAPPER_SIZE + f.idxSize + f.dataSize <= PACK_SIZE
    && exists tx :: |tx| == PACK_SIZE && FromU16(tx[4..6]) == TAG
                    && datagram == Request(f, call, wide, tx)[..SentLength(f, call, wide)]
  }

  lemma RequestOver<D>(f: Function<D>, call: Call, wide: bool, tx: seq<byte>, buffer: seq<byte>, n: nat)
    requires Sized(f, call) && WRAPPER_SIZE + f.idxSize + f.dataSize <= PACK_SIZE && |tx| == |buffer| == PACK_SIZE
    requires WRAPPER_SIZE + |Payload(call)| <= n <= PACK_SIZE
    ensures Overwrite(buffer, Request(f, call, wide, tx)[..n]) == Request(f, call, wide, tx[..n] + buffer[n..])
  {
    var tx' := tx[..n] + buffer[n..];
    assert tx'[4..6] == tx[4..6];
  }

  /** Received over whatever its slot held, such a datagram is a tagged request for the call. */
  lemma SentIsBuilt<D>(f: Function<D>, datagram: seq<byte>, buffer: seq<byte>, call: Call, wide: bool)
    requires SentFor(f, datagram, call, wide) && |buffer| == PACK_SIZE && (wide ==> f.idxSize == f.dataSize == 4)
    ensures |datagram| <= PACK_SIZE
    ensures
      var landed := Overwrite(buffer, datagram);
      && BuiltOver(f, landed, call, wide) && WrapperOf(landed).appTag == TAG
      && |datagram| == if WrapperOf(landed).size <= PACK_SIZE then WrapperOf(landed).size else PACK_SIZE
  {
    var tx :| |tx| == PACK_SIZE && FromU16(tx[4..6]) == TAG
              && datagram == Request(f, call, wide, tx)[..SentLength(f, call, wide)];
    AnnouncedLength(f, call, wide);
    var n := SentLength(f, call, wide);
    RequestOver(f, call, wide, tx, buffer, n);
    var tx' := tx[..n] + buffer[n..];
    assert tx'[4..6] == tx[4..6];
    RequestFields(f, call, wide, tx');
  }

  // ---------------------------------------------------------------- responses on the wire

  /** The response is sent as long as it says it is, long enough for its status, and carries the tag. */
  predicate Sound(r: Response) {
    && |r.buffer| == PACK_SIZE && WRAPPER_SIZE <= r.bytes == WrapperOf(r.buffer).size <= PACK_SIZE
    && (HasFlag(WrapperOf(r.buffer).packType, FLAG_ERR) ==> RESP_ERR_SIZE <= r.bytes)
    && WrapperOf(r.buffer).appTag == TAG
  }

  /** A request that calls a reader, a writer or an action. */
  predicate Plain<D>(f: Function<D>, w: Wrapper) {
    && f.Function? && WellTyped(f, w) && !HasFlag(w.packType, FLAG_ERR)
    && (f.handlers(w.op).Reader? || f.handlers(w.op).Writer? || f.handlers(w.op).Actor?)
  }

  lemma SmallSize(n: nat)
    requires n < 65536
    ensures n % 65536 == n
  {
  }

  lemma PlainIsSound<D(!new)>(f: Function<D>, device: D, req: seq<byte>, rx: seq<byte>)
    requires |req| == |rx| == PACK_SIZE && Usable(f) && Plain(f, WrapperOf(req)) && WrapperOf(req).appTag == TAG
    ensures var o := Process(f, device, req, rx); Sound(Response(o.resp, o.txBytes))
  {
    ResponseEchoes(f, device, req, rx);
    ResponseLength(f, device, req, rx);
    var o := Process(f, device, req, rx);
    assert 8 <= o.txBytes <= PACK_SIZE;
    SmallSize(o.txBytes);
  }

  lemma RequestIsPlain<D>(f: Function<D>, call: Call, wide: bool, req: seq<byte>)
    requires BuiltOver(f, req, call, wide) && Registered(f, call)
    ensures |req| == PACK_SIZE && Plain(f, WrapperOf(req))
  {
    var tx :| |tx| == PACK_SIZE && req == Request(f, call, wide, tx);
    RequestWellTyped(f, call, wide, tx);
    RequestFields(f, call, wide, tx);
  }

  /** One tagged request, executed by the target, is answered soundly and as the mapped device would. */
  lemma SoundlyAnswered<D(!new)>(f: Function<D>, device: D, calls: seq<Call>, k: nat, wide: bool, req: seq<byte>, r: Response,
                                 need: nat, body: (D, seq<byte>) -> (D, Status))
    requires Transparent(f, calls, wide, need, body) && k < |calls| && |r.buffer| == PACK_SIZE
    requires BuiltOver(f, req, calls[k], wide) && |req| == PACK_SIZE && WrapperOf(req).appTag == TAG
    ensures
      var (device', r') := NetDispatcher(f)(device, req, r);
      Sound(r') && (device', r'.buffer) == Dispatcher(f)(device, req, r.buffer)
  {
    RequestIsPlain(f, calls[k], wide, req);
    PlainIsSound(f, device, req, r.buffer);
  }

  function BuffersOf(responses: seq<Response>): (b: seq<seq<byte>>)
    ensures |b| == |responses| && forall i :: 0 <= i < |b| ==> b[i] == responses[i].buffer
  {
    seq(|responses|, i requires 0 <= i < |responses| => responses[i].buffer)
  }

  /** The requests are tagged. */
  ghost predicate Tagged(reqs: seq<seq<byte>>) {
    forall i :: 0 <= i < |reqs| ==> |reqs[i]| == PACK_SIZE && WrapperOf(reqs[i]).appTag == TAG
  }

  /** The target's answers to a session are sound, and those of the mapped device. */
  lemma {:induction false} NetReplay<D(!new)>(f: Function<D>, device: D, r: Response, reqs: seq<seq<byte>>, calls: seq<Call>,
                                              wide: bool, need: nat, body: (D, seq<byte>) -> (D, Status))
    requires Transparent(f, calls, wide, need, body) && BuiltFor(f, reqs, calls, wide) && Tagged(reqs) && |r.buffer| == PACK_SIZE
    ensures
      var (d, last, answers) := Replay(device, r, reqs, NetDispatcher(f));
      && (d, last.buffer, BuffersOf(answers)) == Replay(device, r.buffer, reqs, Dispatcher(f))
      && |last.buffer| == PACK_SIZE && |answers| == |reqs|
      && forall i :: 0 <= i < |answers| ==> Sound(answers[i])
  {
    if reqs != [] {
      var k := |reqs| - 1;
      BuiltPrefix(f, reqs, calls, wide, k);
      NetReplay(f, device, r, reqs[..k], calls[..k], wide, need, body);
      var (d, last, answers) := Replay(device, r, reqs[..k], NetDispatcher(f));
      assert BuiltOver(f, reqs[k], calls[k], wide);
      SoundlyAnswered(f, d, calls, k, wide, reqs[k], last, need, body);
      var r' := NetDispatcher(f)(d, reqs[k], last).1;
      assert BuffersOf(answers + [r']) == BuffersOf(answers) + [r'.buffer];
    }
  }

  // ---------------------------------------------------------------- what a client makes of them

  /**
   * Whatever the client's buffer held, the datagram received into it is one that it waits for, as
   * long as it says it is, and decodes, at the length received, to the result.
   */
  ghost predicate ReceivedAs<D>(f: Function<D>, call: Call, wide: bool, wire: seq<byte>, result: Result) {
    && f.Function? && WRAPPER_SIZE + f.idxSize + f.dataSize <= PACK_SIZE && |wire| <= PACK_SIZE
    && forall rx :: |rx| == PACK_SIZE ==>
         var got := Overwrite(rx, wire);
         WrapperOf(got).appTag == TAG && WrapperOf(got).size == |wire| && DecodeReceived(f, call, wide, got, |wire|) == result
  }

  lemma SoundIsReceived<D>(f: Function<D>, call: Call, wide: bool, r: Response, result: Result)
    requires Sound(r) && f.Function? && WRAPPER_SIZE + f.idxSize + f.dataSize <= PACK_SIZE && (wide ==> f.dataSize == 4)
    requires Decode(f, call, wide, r.buffer) == result
    ensures ReceivedAs(f, call, wide, Wire(r), result)
  {
    forall rx | |rx| == PACK_SIZE
      ensures
        var got := Overwrite(rx, Wire(r));
        WrapperOf(got).appTag == TAG && WrapperOf(got).size == |Wire(r)| && DecodeReceived(f, call, wide, got, |Wire(r)|) == result
    {
      SentIsDecoded(f, call, wide, r.buffer, rx, r.bytes);
    }
  }

  ghost predicate AllReceived<D>(f: Function<D>, calls: seq<Call>, wide: bool, wires: seq<seq<byte>>, results: seq<Result>) {
    && |wires| == |results| == |calls|
    && forall i :: 0 <= i < |wires| ==> ReceivedAs(f, calls[i], wide, wires[i], results[i])
  }

  lemma ReceivedInit<D>(f: Function<D>, calls: seq<Call>, wide: bool, wires: seq<seq<byte>>, results: seq<Result>, k: nat)
    requires AllReceived(f, calls, wide, wires, results) && |calls| == k + 1
    ensures AllReceived(f, calls[..k], wide, wires[..k], results[..k]) && ReceivedAs(f, calls[k], wide, wires[k], results[k])
  {
    forall i | 0 <= i < k
      ensures ReceivedAs(f, calls[..k][i], wide, wires[..k][i], results[..k][i])
    {
      assert ReceivedAs(f, calls[i], wide, wires[i], results[i]);
      assert calls[..k][i] == calls[i] && wires[..k][i] == wires[i] && results[..k][i] == results[i];
    }
  }

  lemma ReceivedExtended<D>(f: Function<D>, calls: seq<Call>, wide: bool, wires: seq<seq<byte>>, results: seq<Result>,
                            call: Call, wire: seq<byte>, result: Result)
    requires AllReceived(f, calls, wide, wires, results) && ReceivedAs(f, call, wide, wire, result)
    ensures AllReceived(f, calls + [call], wide, wires + [wire], results + [result])
  {
    var cs, ws, rs := calls + [call], wires + [wire], results + [result];
    forall i | 0 <= i < |ws|
      ensures ReceivedAs(f, cs[i], wide, ws[i], rs[i])
    {
      if i < |wires| {
        assert ReceivedAs(f, calls[i], wide, wires[i], results[i]);
        assert cs[i] == calls[i] && ws[i] == wires[i] && rs[i] == results[i];
      } else {
        assert cs[i] == call && ws[i] == wire && rs[i] == result;
      }
    }
  }

  /** If every answer is received as its result, so are those of one client. */
  lemma {:induction false} OwnReceived<D>(f: Function<D>, calls: seq<Call>, wide: bool, wires: seq<seq<byte>>, results: seq<Result>,
                                          commands: seq<Command>, client: nat)
    requires |calls| == |commands| && AllReceived(f, calls, wide, wires, results)
    ensures AllReceived(f, Own(calls, commands, client), wide, Own(wires, commands, client), Own(results, commands, client))
  {
    if calls != [] {
      var k := |calls| - 1;
      ReceivedInit(f, calls, wide, wires, results, k);
      OwnReceived(f, calls[..k], wide, wires[..k], results[..k], commands[..k], client);
      var cs, ws, rs := Own(calls[..k], commands[..k], client), Own(wires[..k], commands[..k], client), Own(results[..k], commands[..k], client);
      if commands[k].client == client {
        ReceivedExtended(f, cs, wide, ws, rs, calls[k], wires[k], results[k]);
      } else {
        assert cs + [] == cs && ws + [] == ws && rs + [] == rs;
      }
    }
  }

  /** The device is as the direct calls leave it, and one client has received the results of its own. */
  ghost predicate AnsweredAsDirect<D>(f: Function<D>, device: D, calls: seq<Call>, wide: bool, device': D,
                                      inbox: seq<seq<byte>>, commands: seq<Command>, client: nat) {
    && |calls| == |commands| && (forall i :: 0 <= i < |calls| ==> Registered(f, calls[i]))
    && var (direct, results) := DirectSession(f, device, calls);
    && device' == direct && |results| == |commands|
    && AllReceived(f, Own(calls, commands, client), wide, inbox, Own(results, commands, client))
  }

  lemma OwnAsDirect<D>(f: Function<D>, device: D, calls: seq<Call>, wide: bool, device': D, answers: seq<Response>,
                       commands: seq<Command>, client: nat)
    requires AsDirect(f, device, calls, wide, device', BuffersOf(answers)) && |commands| == |calls| == |answers|
    requires (forall i :: 0 <= i < |answers| ==> Sound(answers[i])) && (wide ==> f.Function? && f.dataSize == 4)
    ensures AnsweredAsDirect(f, device, calls, wide, device', Own(Wires(answers), commands, client), commands, client)
  {
    var results := DirectSession(f, device, calls).1;
    forall i | 0 <= i < |answers|
      ensures ReceivedAs(f, calls[i], wide, Wires(answers)[i], results[i])
    {
      assert Decode(f, calls[i], wide, BuffersOf(answers)[i]) == results[i];
      SoundIsReceived(f, calls[i], wide, answers[i], results[i]);
    }
    OwnReceived(f, calls, wide, Wires(answers), results, commands, client);
  }

  /** The commands were received as the calls' datagrams. */
  ghost predicate CommandsFor<D>(f: Function<D>, commands: seq<Command>, calls: seq<Call>, wide: bool) {
    && |commands| == |calls|
    && forall i :: 0 <= i < |calls| ==> SentFor(f, commands[i].datagram, calls[i], wide)
  }

  /** A command's buffer is its datagram over what was there. */
  predicate Whole(c: Command) {
    |c.buffer| == PACK_SIZE && c.datagram <= c.buffer
  }

  lemma CommandsBuilt<D>(f: Function<D>, commands: seq<Command>, calls: seq<Call>, wide: bool)
    requires CommandsFor(f, commands, calls, wide) && (wide ==> f.Function? && f.idxSize == f.dataSize == 4)
    requires f.Function? && WRAPPER_SIZE + f.idxSize + f.dataSize <= PACK_SIZE
    requires forall i :: 0 <= i < |commands| ==> Whole(commands[i])
    ensures BuiltFor(f, Requests(commands), calls, wide) && Tagged(Requests(commands))
  {
    forall i | 0 <= i < |calls|
      ensures BuiltOver(f, Requests(commands)[i], calls[i], wide)
      ensures |Requests(commands)[i]| == PACK_SIZE && WrapperOf(Requests(commands)[i]).appTag == TAG
    {
      var c := commands[i];
      assert Whole(c) && SentFor(f, c.datagram, calls[i], wide);
      SentIsBuilt(f, c.datagram, c.buffer, calls[i], wide);
      assert Overwrite(c.buffer, c.datagram) == c.buffer;
    }
  }

  lemma {:induction false} ReceivedArrived<D>(s: Net<D>, events: seq<Event>, execute: Server<D>)
    requires NetInitial(s)
    ensures forall i :: 0 <= i < |NetRun(s, events, execute).received| ==> Whole(NetRun(s, events, execute).received[i])
  {
    if events != [] {
      ReceivedArrived(s, events[..|events| - 1], execute);
    }
  }

  /**
   * Over every interleaving of clients, receiver and server: when the datagrams that were served
   * are those of some calls, the device is as making these calls directly leaves it, and what a
   * client between calls has received are, one for each of its own calls, datagrams that it waits
   * for and that decode to their results.
   */
  lemma NetworkCallsAreDirect<D(!new)>(s: Net<D>, events: seq<Event>, client: nat,
                                       f: Function<D>, calls: seq<Call>, wide: bool, need: nat, body: (D, seq<byte>) -> (D, Status))
    requires NetInitial(s) && |s.clients| < |s.ring.slots| && client < |s.clients| && |s.response.buffer| == PACK_SIZE
    requires Transparent(f, calls, wide, need, body)
    requires
      var t := NetRun(s, events, NetDispatcher(f));
      t.clients[client].Idle? && CommandsFor(f, t.executed, calls, wide)
    ensures
      var t := NetRun(s, events, NetDispatcher(f));
      AnsweredAsDirect(f, s.device, calls, wide, t.device, t.inboxes[client], t.executed, client)
  {
    var t := NetRun(s, events, NetDispatcher(f));
    RepliesAreOwn(s, events, client, NetDispatcher(f));
    ExecutedWhole(s, events, NetDispatcher(f));
    ServedAsDirect(f, s.device, s.response, t.executed, calls, client, wide, need, body, t.device, t.inboxes[client]);
  }

  lemma ExecutedWhole<D>(s: Net<D>, events: seq<Event>, execute: Server<D>)
    requires NetInitial(s) && NetRun(s, events, execute).executed <= NetRun(s, events, execute).received
    ensures forall i :: 0 <= i < |NetRun(s, events, execute).executed| ==> Whole(NetRun(s, events, execute).executed[i])
  {
    ReceivedArrived(s, events, execute);
  }

  /** Executing commands that are those of some calls, one after the other. */
  lemma ServedAsDirect<D(!new)>(f: Function<D>, device: D, r: Response, commands: seq<Command>, calls: seq<Call>, client: nat, wide: bool,
                                need: nat, body: (D, seq<byte>) -> (D, Status), device': D, inbox: seq<seq<byte>>)
    requires Transparent(f, calls, wide, need, body) && CommandsFor(f, commands, calls, wide) && |r.buffer| == PACK_SIZE
    requires forall i :: 0 <= i < |commands| ==> Whole(commands[i])
    requires device' == Replay(device, r, Requests(commands), NetDispatcher(f)).0
    requires |Answers(device, r, commands, NetDispatcher(f))| == |commands|
    requires inbox == Own(Wires(Answers(device, r, commands, NetDispatcher(f))), commands, client)
    ensures AnsweredAsDirect(f, device, calls, wide, device', inbox, commands, client)
  {
    CommandsBuilt(f, commands, calls, wide);
    NetReplay(f, device, r, Requests(commands), calls, wide, need, body);
    var answers := Answers(device, r, commands, NetDispatcher(f));
    ReplayedCalls(f, device, r.buffer, Requests(commands), calls, wide, need, body, device', BuffersOf(answers));
    OwnAsDirect(f, device, calls, wide, device', answers, commands, client);
  }
}
