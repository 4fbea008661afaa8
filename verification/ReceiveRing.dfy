/**
 * The target's receive ring: a receiving thread that puts datagrams in slots and publishes them,
 * and a serving thread that executes them, replies and then releases the slot. Each client waits
 * for its reply before it sends again. Publishing a slot is one step.
 */
module ReceiveRing {
  import opened Bits
  import opened Sums
  import opened Buffers
  import opened SharedPage

  const PACK_UNION_SIZE := 512

  type Datagram = d: seq<byte> | 1 <= |d| <= PACK_UNION_SIZE witness [0]

  /** A received datagram: who sent it, what it is, and the slot's buffer with it over what was there. */
  datatype Command = Command(client: nat, datagram: Datagram, buffer: seq<byte>)

  /** AM_REC_CMD_T: the command in a slot and how many slots it takes up. */
  datatype Slot = Slot(command: Command, bufCount: nat)

  datatype ClientState = Idle | InFlight(datagram: Datagram) | Queued | Replied(reply: seq<byte>)

  datatype Ring = Ring(slots: seq<Slot>, rxPi: nat, rxCi: nat)

  /** The response buffer after a command, and how many bytes of it are sent. */
  datatype Response = Response(buffer: seq<byte>, bytes: nat)

  /** The commands' execution by the target. */
  type Server<!D> = Executor<D, seq<byte>, Response>

  /**
   * The target and its clients. `received` and `executed` are the commands so far, `sent` and
   * `inboxes` the datagrams each client has sent and got. The target has one response buffer.
   */
  datatype Net<D> = Net(ring: Ring, serving: bool, clients: seq<ClientState>, device: D, response: Response,
                        received: seq<Command>, executed: seq<Command>,
                        sent: seq<seq<Datagram>>, inboxes: seq<seq<seq<byte>>>)

  datatype Event =
    | Send(client: nat, datagram: Datagram)
    | Receive(client: nat)
    | Serve
    | Release
    | Deliver(client: nat)

  /** The number of slots a datagram needs. */
  function BufferCount(length: nat): nat {
    length / PACK_UNION_SIZE + (if length % PACK_UNION_SIZE != 0 then 1 else 0)
  }

  predicate Buffered(r: Ring) {
    forall i :: 0 <= i < |r.slots| ==> |r.slots[i].command.buffer| == PACK_UNION_SIZE
  }

  /** The command that a datagram makes in the slot it is received into. */
  function Landed(r: Ring, client: nat, datagram: Datagram): Command
    requires r.rxPi < |r.slots| && Buffered(r)
  {
    Command(client, datagram, Overwrite(r.slots[r.rxPi].command.buffer, datagram))
  }

  /** am_get_pack_queue_buf, the receive and am_update_pack_queue_rx_idx, as one step. */
  function Publish(r: Ring, c: Command): Ring
    requires r.rxPi < |r.slots|
  {
    var inc := BufferCount(|c.datagram|);
    var pi := r.rxPi + inc;
    Ring(r.slots[r.rxPi := Slot(c, inc)], if pi == |r.slots| then 0 else pi, r.rxCi)
  }

  /** The datagram a response is sent as: as many bytes as the dispatcher says. */
  function Wire(r: Response): seq<byte> {
    if r.bytes <= |r.buffer| then r.buffer[..r.bytes] else r.buffer
  }

  /** Indices are slots, slots have buffers, and there is an inbox and an outbox for every client. */
  predicate Shaped<D>(s: Net<D>) {
    s.ring.rxPi < |s.ring.slots| && s.ring.rxCi < |s.ring.slots| && Buffered(s.ring) && |s.sent| == |s.inboxes| == |s.clients|
  }

  function NetStep<D>(s: Net<D>, event: Event, execute: Server<D>): (s': Net<D>)
    requires Shaped(s)
    ensures |s'.ring.slots| == |s.ring.slots| && |s'.clients| == |s.clients| && Shaped(s')
  {
    match event
    case Send(c, datagram) =>
      if c < |s.clients| && s.clients[c].Idle?
      then s.(clients := s.clients[c := InFlight(datagram)], sent := s.sent[c := s.sent[c] + [datagram]]) else s
    case Receive(c) =>
      if c < |s.clients| && s.clients[c].InFlight? then
        var command := Landed(s.ring, c, s.clients[c].datagram);
        s.(ring := Publish(s.ring, command), clients := s.clients[c := Queued], received := s.received + [command])
      else s
    case Serve =>
      if !s.serving && s.ring.rxCi != s.ring.rxPi then
        var command := s.ring.slots[s.ring.rxCi].command;
        var (device, response) := execute(s.device, command.buffer, s.response);
        s.(serving := true, device := device, response := response, executed := s.executed + [command],
           clients := if command.client < |s.clients| then s.clients[command.client := Replied(Wire(response))] else s.clients)
      else s
    case Release =>
      if s.serving then
        var ci := (s.ring.rxCi + s.ring.slots[s.ring.rxCi].bufCount) % |s.ring.slots|;
        s.(serving := false, ring := s.ring.(rxCi := ci))
      else s
    case Deliver(c) =>
      if c < |s.clients| && s.clients[c].Replied?
      then s.(clients := s.clients[c := Idle], inboxes := s.inboxes[c := s.inboxes[c] + [s.clients[c].reply]]) else s
  }

  // ---------------------------------------------------------------- positions in the ring

  lemma SamePosition(a: nat, b: nat, n: nat)
    requires 0 < n && a <= b < a + n && a % n == b % n
    ensures a == b
  {
    var p, q, r := a / n, b / n, a % n;
    assert a == p * n + r;
    assert b == q * n + r;
    MulGap(p, q, n);
    MulGap(q, p, n);
  }

  lemma NextPosition(a: nat, n: nat)
    requires 0 < n
    ensures (a + 1) % n == (if a % n + 1 == n then 0 else a % n + 1) == (a % n + 1) % n
  {
    var q, r := a / n, a % n;
    assert a == q * n + r;
    if r + 1 < n {
      DivModUnique(a + 1, n, q, r + 1);
      DivModUnique(r + 1, n, 0, r + 1);
    } else {
      assert (q + 1) * n == q * n + n;
      DivModUnique(a + 1, n, q + 1, 0);
      DivModUnique(n, n, 1, 0);
    }
  }

  // ---------------------------------------------------------------- the invariant

  /** How many commands have had their slots released. */
  function Released<D>(s: Net<D>): int {
    |s.executed| - (if s.serving then 1 else 0)
  }

  /** The indices and slots say what the history says. */
  ghost predicate RingHolds<D>(s: Net<D>) {
    var n := |s.ring.slots|;
    && 0 < n && 0 <= Released(s) && |s.executed| <= |s.received|
    && s.ring.rxPi == |s.received| % n && s.ring.rxCi == Released(s) % n
    && s.executed == s.received[..|s.executed|]
    && forall k :: Released(s) <= k < |s.received| ==> s.ring.slots[k % n] == Slot(s.received[k], 1)
  }

  /** The client's command waits to be executed. */
  ghost predicate HasWaiting<D>(s: Net<D>, c: nat) {
    exists k :: |s.executed| <= k < |s.received| && s.received[k].client == c
  }

  /** Each command that waits to be executed belongs to a queued client of its own, and each queued client has one. */
  ghost predicate ClientsWait<D>(s: Net<D>) {
    && (forall k :: |s.executed| <= k < |s.received| ==>
          s.received[k].client < |s.clients| && s.clients[s.received[k].client] == Queued)
    && (forall j, k :: |s.executed| <= j < k < |s.received| ==> s.received[j].client != s.received[k].client)
    && (forall c :: 0 <= c < |s.clients| && s.clients[c] == Queued ==> HasWaiting(s, c))
  }

  ghost predicate InStep<D>(s: Net<D>) {
    Shaped(s) && RingHolds(s) && ClientsWait(s)
  }

  predicate NetInitial<D>(s: Net<D>) {
    && 0 < |s.ring.slots| && s.ring.rxPi == 0 && s.ring.rxCi == 0 && !s.serving
    && Buffered(s.ring) && s.received == [] && s.executed == [] && |s.sent| == |s.inboxes| == |s.clients|
    && forall c :: 0 <= c < |s.clients| ==> s.clients[c] == Idle && s.sent[c] == [] && s.inboxes[c] == []
  }

  /** Distinct numbers below `n` are at most `n` many. */
  lemma {:induction false} Pigeonhole(s: seq<nat>, n: nat)
    requires (forall i :: 0 <= i < |s| ==> s[i] < n) && (forall i, j :: 0 <= i < j < |s| ==> s[i] != s[j])
    ensures |s| <= n
    decreases n
  {
    if s != [] {
      assert s[0] < n;
      var t := Without(s, n - 1);
      Pigeonhole(t, n - 1);
    }
  }

  /** The sequence without the value, if it has it. */
  lemma Without(s: seq<nat>, v: nat) returns (t: seq<nat>)
    requires forall i, j :: 0 <= i < j < |s| ==> s[i] != s[j]
    ensures |t| >= |s| - 1 && (forall i :: 0 <= i < |t| ==> t[i] in s && t[i] != v)
    ensures forall i, j :: 0 <= i < j < |t| ==> t[i] != t[j]
  {
    if v in s {
      var k :| 0 <= k < |s| && s[k] == v;
      t := s[..k] + s[k + 1..];
    } else {
      t := s;
    }
  }

  /** At most as many commands wait as there are clients; one fewer when a client is not waiting. */
  lemma WaitingBounded<D>(s: Net<D>, free: int)
    requires ClientsWait(s) && |s.executed| <= |s.received|
    requires free == -1 || (0 <= free < |s.clients| && s.clients[free] != Queued)
    ensures |s.received| - |s.executed| <= |s.clients| - (if free == -1 then 0 else 1)
  {
    var waiting := s.received[|s.executed|..];
    var owners := seq(|waiting|, i requires 0 <= i < |waiting| => waiting[i].client);
    if free == -1 {
      Pigeonhole(owners, |s.clients|);
    } else {
      var all := owners + [free];
      Pigeonhole(all, |s.clients|);
    }
  }

  // ---------------------------------------------------------------- every step keeps it

  lemma ReceiveKeepsRing<D>(s: Net<D>, c: nat, execute: Server<D>)
    requires InStep(s) && |s.clients| < |s.ring.slots| && c < |s.clients| && s.clients[c].InFlight?
    ensures RingHolds(NetStep(s, Receive(c), execute))
  {
    var n, r := |s.ring.slots|, |s.received|;
    var s' := NetStep(s, Receive(c), execute);
    WaitingBounded(s, c);
    NextPosition(r, n);
    forall k | Released(s) <= k < r + 1
      ensures s'.ring.slots[k % n] == Slot(s'.received[k], 1)
    {
      if k < r {
        if k % n == r % n {
          SamePosition(k, r, n);
        }
        assert s.ring.slots[k % n] == Slot(s.received[k], 1);
      }
    }
  }

  lemma ReceiveKeeps<D>(s: Net<D>, c: nat, execute: Server<D>)
    requires InStep(s) && |s.clients| < |s.ring.slots| && c < |s.clients| && s.clients[c].InFlight?
    ensures InStep(NetStep(s, Receive(c), execute))
  {
    ReceiveKeepsRing(s, c, execute);
    var s' := NetStep(s, Receive(c), execute);
    assert s'.received[|s.received|].client == c;
    forall d | 0 <= d < |s'.clients| && s'.clients[d] == Queued && d != c
      ensures HasWaiting(s', d)
    {
      assert HasWaiting(s, d);
      var k :| |s.executed| <= k < |s.received| && s.received[k].client == d;
      assert s'.received[k].client == d;
    }
  }

  /** The command that is served is the next received one. */
  lemma NextCommand<D>(s: Net<D>)
    requires InStep(s) && !s.serving && s.ring.rxCi != s.ring.rxPi
    ensures |s.executed| < |s.received| && s.ring.slots[s.ring.rxCi].command == s.received[|s.executed|]
    ensures s.received[|s.executed|].client < |s.clients| && s.clients[s.received[|s.executed|].client] == Queued
    ensures s.executed + [s.received[|s.executed|]] == s.received[..|s.executed| + 1]
  {
    var e := |s.executed|;
    assert e < |s.received|;
    assert s.ring.slots[e % |s.ring.slots|] == Slot(s.received[e], 1);
    assert s.received[..e] + [s.received[e]] == s.received[..e + 1];
  }

  lemma ServeKeeps<D>(s: Net<D>, execute: Server<D>)
    requires InStep(s) && !s.serving && s.ring.rxCi != s.ring.rxPi
    ensures InStep(NetStep(s, Serve, execute))
  {
    NextCommand(s);
    var s' := NetStep(s, Serve, execute);
    forall d | 0 <= d < |s'.clients| && s'.clients[d] == Queued
      ensures HasWaiting(s', d)
    {
      assert HasWaiting(s, d);
      var k :| |s.executed| <= k < |s.received| && s.received[k].client == d;
      assert k != |s.executed|;
    }
  }

  lemma KeepsWaiting<D>(s: Net<D>, s': Net<D>)
    requires ClientsWait(s) && s'.executed == s.executed && s'.received == s.received && |s'.clients| == |s.clients|
    requires forall c :: 0 <= c < |s.clients| ==> (s'.clients[c] == Queued <==> s.clients[c] == Queued)
    ensures ClientsWait(s')
  {
    forall c | 0 <= c < |s'.clients| && s'.clients[c] == Queued
      ensures HasWaiting(s', c)
    {
      assert HasWaiting(s, c);
    }
  }

  lemma ReleaseKeeps<D>(s: Net<D>, execute: Server<D>)
    requires InStep(s) && s.serving
    ensures InStep(NetStep(s, Release, execute))
  {
    KeepsWaiting(s, NetStep(s, Release, execute));
    var l := Released(s);
    assert s.ring.slots[l % |s.ring.slots|] == Slot(s.received[l], 1);
    NextPosition(l, |s.ring.slots|);
  }

  lemma StepKeeps<D>(s: Net<D>, event: Event, execute: Server<D>)
    requires InStep(s) && |s.clients| < |s.ring.slots|
    ensures InStep(NetStep(s, event, execute))
  {
    match event {
      case Receive(c) =>
        if c < |s.clients| && s.clients[c].InFlight? {
          ReceiveKeeps(s, c, execute);
        }
      case Serve =>
        if !s.serving && s.ring.rxCi != s.ring.rxPi {
          ServeKeeps(s, execute);
        }
      case Release =>
        if s.serving {
          ReleaseKeeps(s, execute);
        }
      case Send(_, _) =>
        KeepsWaiting(s, NetStep(s, event, execute));
      case Deliver(_) =>
        KeepsWaiting(s, NetStep(s, event, execute));
    }
  }

  // ---------------------------------------------------------------- every run

  function NetRun<D>(s: Net<D>, events: seq<Event>, execute: Server<D>): (t: Net<D>)
    requires NetInitial(s)
    ensures |t.ring.slots| == |s.ring.slots| && |t.clients| == |s.clients| && Shaped(t)
  {
    if events == [] then s else NetStep(NetRun(s, events[..|events| - 1], execute), events[|events| - 1], execute)
  }

  lemma {:induction false} NetRunInvariant<D>(s: Net<D>, events: seq<Event>, execute: Server<D>)
    requires NetInitial(s) && |s.clients| < |s.ring.slots|
    ensures InStep(NetRun(s, events, execute))
  {
    if events != [] {
      NetRunInvariant(s, events[..|events| - 1], execute);
      StepKeeps(NetRun(s, events[..|events| - 1], execute), events[|events| - 1], execute);
    }
  }

  /**
   * With fewer clients than slots every run executes the received commands in the order they
   * came, each once, and never overwrites one that has not been executed.
   */
  lemma ServiceIsFifo<D>(s: Net<D>, events: seq<Event>, execute: Server<D>)
    requires NetInitial(s) && |s.clients| < |s.ring.slots|
    ensures
      var t := NetRun(s, events, execute);
      && t.executed <= t.received
      && (forall k :: |t.executed| <= k < |t.received| ==> t.ring.slots[k % |t.ring.slots|].command == t.received[k])
      && |t.received| - Released(t) <= |t.clients| + 1
  {
    NetRunInvariant(s, events, execute);
    WaitingBounded(NetRun(s, events, execute), -1);
  }

  // ---------------------------------------------------------------- the replies

  /** The buffers that commands are executed from. */
  function Requests(commands: seq<Command>): (r: seq<seq<byte>>)
    ensures |r| == |commands| && forall i :: 0 <= i < |r| ==> r[i] == commands[i].buffer
  {
    seq(|commands|, i requires 0 <= i < |commands| => commands[i].buffer)
  }

  /** The datagrams they came as. */
  function Datagrams(commands: seq<Command>): (r: seq<Datagram>)
    ensures |r| == |commands| && forall i :: 0 <= i < |r| ==> r[i] == commands[i].datagram
  {
    seq(|commands|, i requires 0 <= i < |commands| => commands[i].datagram)
  }

  /** Of values that belong to commands one by one, those of one client's commands. */
  function Own<T>(values: seq<T>, commands: seq<Command>, client: nat): seq<T>
    requires |values| == |commands|
  {
    if values == [] then []
    else
      var k := |values| - 1;
      Own(values[..k], commands[..k], client) + (if commands[k].client == client then [values[k]] else [])
  }

  /** The datagrams that the responses are sent as. */
  function Wires(responses: seq<Response>): (w: seq<seq<byte>>)
    ensures |w| == |responses| && forall i :: 0 <= i < |w| ==> w[i] == Wire(responses[i])
  {
    seq(|responses|, i requires 0 <= i < |responses| => Wire(responses[i]))
  }

  /** What executing the commands directly, one after the other, answers. */
  function Answers<D>(d: D, response: Response, commands: seq<Command>, execute: Server<D>): seq<Response> {
    Replay(d, response, Requests(commands), execute).2
  }

  lemma OwnExtended<T>(values: seq<T>, commands: seq<Command>, v: T, c: Command, client: nat)
    requires |values| == |commands|
    ensures Own(values + [v], commands + [c], client) == Own(values, commands, client) + (if c.client == client then [v] else [])
  {
    assert (values + [v])[..|values|] == values && (commands + [c])[..|commands|] == commands;
  }

  /** What a client has been answered, the reply on its way included. */
  function Answered<D>(s: Net<D>, client: nat): seq<seq<byte>>
    requires client < |s.clients| == |s.inboxes|
  {
    s.inboxes[client] + (if s.clients[client].Replied? then [s.clients[client].reply] else [])
  }

  /** What a client has sent is what has been received of it and what is on its way. */
  ghost predicate SentReceived<D>(s: Net<D>, client: nat)
    requires client < |s.clients| == |s.sent|
  {
    s.sent[client] == Own(Datagrams(s.received), s.received, client) +
                      (if s.clients[client].InFlight? then [s.clients[client].datagram] else [])
  }

  /** Device and replies are those of executing the commands directly, each client's its own. */
  ghost predicate Served<D>(s: Net<D>, d: D, response: Response, execute: Server<D>) {
    && |s.sent| == |s.inboxes| == |s.clients|
    && var (device, last, answers) := Replay(d, response, Requests(s.executed), execute);
    && s.device == device && s.response == last && |answers| == |s.executed|
    && forall c :: 0 <= c < |s.clients| ==> Answered(s, c) == Own(Wires(answers), s.executed, c) && SentReceived(s, c)
  }

  lemma ListsExtended(commands: seq<Command>, c: Command, responses: seq<Response>, r: Response)
    ensures Requests(commands + [c]) == Requests(commands) + [c.buffer]
    ensures Datagrams(commands + [c]) == Datagrams(commands) + [c.datagram]
    ensures Wires(responses + [r]) == Wires(responses) + [Wire(r)]
  {
  }

  lemma ReplayExtended<D>(d: D, response: Response, reqs: seq<seq<byte>>, req: seq<byte>, execute: Server<D>)
    ensures
      var (d1, r1, resps) := Replay(d, response, reqs, execute);
      var (d2, r2) := execute(d1, req, r1);
      Replay(d, response, reqs + [req], execute) == (d2, r2, resps + [r2])
  {
    assert (reqs + [req])[..|reqs|] == reqs;
  }

  lemma ServeAnswers<D>(s: Net<D>, d: D, response: Response, execute: Server<D>)
    requires InStep(s) && Served(s, d, response, execute) && !s.serving && s.ring.rxCi != s.ring.rxPi
    ensures Served(NetStep(s, Serve, execute), d, response, execute)
  {
    NextCommand(s);
    var command, s' := s.received[|s.executed|], NetStep(s, Serve, execute);
    var answers := Answers(d, response, s.executed, execute);
    ListsExtended(s.executed, command, answers, s'.response);
    ReplayExtended(d, response, Requests(s.executed), command.buffer, execute);
    forall c | 0 <= c < |s.clients|
      ensures Answered(s', c) == Own(Wires(answers + [s'.response]), s'.executed, c) && SentReceived(s', c)
    {
      OwnExtended(Wires(answers), s.executed, Wire(s'.response), command, c);
      assert Answered(s, c) == Own(Wires(answers), s.executed, c) && SentReceived(s, c);
    }
  }

  lemma ReceiveAnswersOne<D>(s: Net<D>, from: nat, c: nat, execute: Server<D>)
    requires InStep(s) && from < |s.clients| && s.clients[from].InFlight? && c < |s.clients| && SentReceived(s, c)
    ensures
      var s' := NetStep(s, Receive(from), execute);
      Answered(s', c) == Answered(s, c) && SentReceived(s', c)
  {
    var command := Landed(s.ring, from, s.clients[from].datagram);
    ListsExtended(s.received, command, [], s.response);
    OwnExtended(Datagrams(s.received), s.received, command.datagram, command, c);
  }

  lemma ReceiveAnswers<D>(s: Net<D>, from: nat, d: D, response: Response, execute: Server<D>)
    requires InStep(s) && Served(s, d, response, execute) && from < |s.clients| && s.clients[from].InFlight?
    ensures Served(NetStep(s, Receive(from), execute), d, response, execute)
  {
    forall c | 0 <= c < |s.clients|
      ensures
        var s' := NetStep(s, Receive(from), execute);
        Answered(s', c) == Answered(s, c) && SentReceived(s', c)
    {
      ReceiveAnswersOne(s, from, c, execute);
    }
  }

  lemma ClientAnswers<D>(s: Net<D>, event: Event, d: D, response: Response, execute: Server<D>)
    requires InStep(s) && Served(s, d, response, execute) && (event.Send? || event.Deliver? || event.Release?)
    ensures Served(NetStep(s, event, execute), d, response, execute)
  {
    var s' := NetStep(s, event, execute);
    forall c | 0 <= c < |s.clients|
      ensures Answered(s', c) == Answered(s, c) && SentReceived(s', c)
    {
      assert SentReceived(s, c);
    }
  }

  lemma StepAnswers<D>(s: Net<D>, event: Event, d: D, response: Response, execute: Server<D>)
    requires InStep(s) && Served(s, d, response, execute)
    ensures Served(NetStep(s, event, execute), d, response, execute)
  {
    match event
    case Serve =>
      if !s.serving && s.ring.rxCi != s.ring.rxPi {
        ServeAnswers(s, d, response, execute);
      }
    case Receive(c) =>
      if c < |s.clients| && s.clients[c].InFlight? {
        ReceiveAnswers(s, c, d, response, execute);
      }
    case _ => ClientAnswers(s, event, d, response, execute);
  }

  lemma {:induction false} RunServed<D>(s: Net<D>, events: seq<Event>, execute: Server<D>)
    requires NetInitial(s) && |s.clients| < |s.ring.slots|
    ensures Served(NetRun(s, events, execute), s.device, s.response, execute)
  {
    if events != [] {
      var k := |events| - 1;
      RunServed(s, events[..k], execute);
      NetRunInvariant(s, events[..k], execute);
      StepAnswers(NetRun(s, events[..k], execute), events[k], s.device, s.response, execute);
    }
  }

  lemma {:induction false} OwnPrefix(commands: seq<Command>, k: nat, client: nat)
    requires k <= |commands| && forall i :: k <= i < |commands| ==> commands[i].client != client
    ensures Own(Datagrams(commands), commands, client) == Own(Datagrams(commands[..k]), commands[..k], client)
    decreases |commands|
  {
    if k == |commands| {
      assert commands[..k] == commands;
    } else {
      var l := |commands| - 1;
      assert commands == commands[..l] + [commands[l]];
      assert Datagrams(commands) == Datagrams(commands[..l]) + [commands[l].datagram];
      OwnExtended(Datagrams(commands[..l]), commands[..l], commands[l].datagram, commands[l], client);
      OwnPrefix(commands[..l], k, client);
      assert commands[..l][..k] == commands[..k];
    }
  }

  lemma {:induction false} OwnCount<T, U>(a: seq<T>, b: seq<U>, commands: seq<Command>, client: nat)
    requires |a| == |b| == |commands|
    ensures |Own(a, commands, client)| == |Own(b, commands, client)|
  {
    if a != [] {
      var k := |a| - 1;
      OwnCount(a[..k], b[..k], commands[..k], client);
    }
  }

  /**
   * Over every run, the device is as executing the received commands directly, in the order of
   * their service, leaves it, and a client that is not waiting has got, one for each datagram it
   * has sent and in their order, exactly what this answers to its own.
   */
  lemma RepliesAreOwn<D>(s: Net<D>, events: seq<Event>, client: nat, execute: Server<D>)
    requires NetInitial(s) && |s.clients| < |s.ring.slots| && client < |s.clients|
    requires NetRun(s, events, execute).clients[client].Idle?
    ensures
      var t := NetRun(s, events, execute);
      var (device, last, answers) := Replay(s.device, s.response, Requests(t.executed), execute);
      && t.executed <= t.received && t.device == device && |answers| == |t.executed|
      && t.sent[client] == Own(Datagrams(t.executed), t.executed, client)
      && t.inboxes[client] == Own(Wires(answers), t.executed, client)
      && |t.inboxes[client]| == |t.sent[client]|
  {
    RunServed(s, events, execute);
    NetRunInvariant(s, events, execute);
    var t := NetRun(s, events, execute);
    assert SentReceived(t, client) && Answered(t, client) == t.inboxes[client];
    OwnPrefix(t.received, |t.executed|, client);
    OwnCount(Datagrams(t.executed), Wires(Answers(s.device, s.response, t.executed, execute)), t.executed, client);
  }

  // ---------------------------------------------------------------- every request is answered

  /** A client that is not waiting can send. */
  lemma IdleClientSends<D>(s: Net<D>, client: nat, datagram: Datagram, execute: Server<D>)
    requires Shaped(s) && client < |s.clients| && s.clients[client].Idle?
    ensures
      var t := NetStep(s, Send(client, datagram), execute);
      t.sent == s.sent[client := s.sent[client] + [datagram]] && !t.clients[client].Idle?
  {
  }

  /** Whenever a command waits, one turn of an idle server executes the next one. */
  lemma WaitingIsServed<D>(s: Net<D>, events: seq<Event>, execute: Server<D>)
    requires NetInitial(s) && |s.clients| < |s.ring.slots|
    requires var t := NetRun(s, events, execute); !t.serving && |t.executed| < |t.received|
    ensures
      var t := NetRun(s, events, execute);
      NetStep(t, Serve, execute).executed == t.received[..|t.executed| + 1]
  {
    NetRunInvariant(s, events, execute);
    NeverLooksEmpty(s, events, execute);
    NextCommand(NetRun(s, events, execute));
  }

  /** A serving server is free after one turn. */
  lemma ServiceEnds<D>(s: Net<D>, execute: Server<D>)
    requires Shaped(s) && s.serving
    ensures !NetStep(s, Release, execute).serving && NetStep(s, Release, execute).executed == s.executed
  {
  }

  /** How far a client is from not waiting. */
  function Rank(c: ClientState): nat {
    match c
    case Idle => 0
    case Replied(_) => 1
    case Queued => 3
    case InFlight(_) => 4
  }

  function Ranks(clients: seq<ClientState>): (r: seq<nat>)
    ensures |r| == |clients| && forall c :: 0 <= c < |r| ==> r[c] == Rank(clients[c])
  {
    seq(|clients|, c requires 0 <= c < |clients| => Rank(clients[c]))
  }

  function Outstanding<D>(s: Net<D>): nat {
    Sum(Ranks(s.clients)) + (if s.serving then 1 else 0)
  }

  predicate AllIdle<D>(s: Net<D>) {
    forall c :: 0 <= c < |s.clients| ==> s.clients[c].Idle?
  }

  lemma RankUpdate(clients: seq<ClientState>, c: nat, v: ClientState)
    requires c < |clients|
    ensures Sum(Ranks(clients[c := v])) + Rank(clients[c]) == Sum(Ranks(clients)) + Rank(v)
  {
    SumUpdate(Ranks(clients), c, Rank(v));
    assert Ranks(clients[c := v]) == Ranks(clients)[c := Rank(v)];
  }

  /** While some client waits or the server is not free, some turn other than a send brings the end nearer. */
  lemma Progress<D>(t: Net<D>, execute: Server<D>) returns (event: Event)
    requires InStep(t) && !LooksEmpty(t) && !AllIdle(t)
    ensures
      var t' := NetStep(t, event, execute);
      Outstanding(t') < Outstanding(t) && t'.sent == t.sent
  {
    var c :| 0 <= c < |t.clients| && !t.clients[c].Idle?;
    if t.clients[c].InFlight? {
      event := Receive(c);
      RankUpdate(t.clients, c, Queued);
    } else if t.clients[c].Replied? {
      event := Deliver(c);
      RankUpdate(t.clients, c, Idle);
    } else if t.serving {
      event := Release;
    } else {
      assert HasWaiting(t, c);
      event := Serve;
      NextCommand(t);
      var next := t.received[|t.executed|].client;
      RankUpdate(t.clients, next, NetStep(t, Serve, execute).clients[next]);
    }
  }

  lemma {:induction false} Drain<D>(s: Net<D>, events: seq<Event>, execute: Server<D>) returns (all: seq<Event>)
    requires NetInitial(s) && |s.clients| < |s.ring.slots|
    ensures events <= all && AllIdle(NetRun(s, all, execute)) && NetRun(s, all, execute).sent == NetRun(s, events, execute).sent
    decreases Outstanding(NetRun(s, events, execute))
  {
    if AllIdle(NetRun(s, events, execute)) {
      all := events;
    } else {
      NetRunInvariant(s, events, execute);
      NeverLooksEmpty(s, events, execute);
      var event := Progress(NetRun(s, events, execute), execute);
      NetRunStep(s, events, event, execute);
      all := Drain(s, events + [event], execute);
    }
  }

  /**
   * From every reachable state some continuation, in which nobody sends, leaves no client waiting,
   * and each has got one datagram for every one it had sent.
   */
  lemma EveryRequestIsAnswered<D>(s: Net<D>, events: seq<Event>, execute: Server<D>) returns (all: seq<Event>)
    requires NetInitial(s) && |s.clients| < |s.ring.slots|
    ensures
      var t, u := NetRun(s, events, execute), NetRun(s, all, execute);
      && events <= all && AllIdle(u) && u.sent == t.sent
      && forall c :: 0 <= c < |u.clients| ==> |u.inboxes[c]| == |t.sent[c]|
  {
    all := Drain(s, events, execute);
    forall c | 0 <= c < |s.clients|
      ensures |NetRun(s, all, execute).inboxes[c]| == |NetRun(s, all, execute).sent[c]|
    {
      RepliesAreOwn(s, all, c, execute);
    }
  }

  // ---------------------------------------------------------------- how many clients

  /** Commands wait, but the serving thread takes the ring for empty. */
  predicate LooksEmpty<D>(s: Net<D>) {
    !s.serving && |s.executed| < |s.received| && s.ring.rxCi == s.ring.rxPi
  }

  lemma NeverLooksEmpty<D>(s: Net<D>, events: seq<Event>, execute: Server<D>)
    requires NetInitial(s) && |s.clients| < |s.ring.slots|
    ensures !LooksEmpty(NetRun(s, events, execute))
  {
    var t := NetRun(s, events, execute);
    NetRunInvariant(s, events, execute);
    WaitingBounded(t, -1);
    if !t.serving && |t.executed| < |t.received| && t.ring.rxCi == t.ring.rxPi {
      SamePosition(|t.executed|, |t.received|, |t.ring.slots|);
    }
  }

  /** The first `k` clients each send a command that is received before the next one sends. */
  function Arrivals(k: nat, datagram: Datagram): (events: seq<Event>)
    ensures |events| == 2 * k
  {
    if k == 0 then [] else Arrivals(k - 1, datagram) + [Send(k - 1, datagram), Receive(k - 1)]
  }

  /** The first `k` clients' commands are in the ring and nothing has been served. */
  ghost predicate Arrived<D>(t: Net<D>, k: nat) {
    && Shaped(t) && !t.serving && t.executed == [] && |t.received| == k && t.ring.rxCi == 0 && k <= |t.ring.slots|
    && t.ring.rxPi == (if k == |t.ring.slots| then 0 else k)
    && forall c :: k <= c < |t.clients| ==> t.clients[c] == Idle
  }

  lemma ArrivalStep<D>(t: Net<D>, k: nat, datagram: Datagram, execute: Server<D>)
    requires Arrived(t, k) && k < |t.ring.slots| && k < |t.clients|
    ensures Arrived(NetStep(NetStep(t, Send(k, datagram), execute), Receive(k), execute), k + 1)
  {
  }

  lemma NetRunStep<D>(s: Net<D>, events: seq<Event>, event: Event, execute: Server<D>)
    requires NetInitial(s)
    ensures NetRun(s, events + [event], execute) == NetStep(NetRun(s, events, execute), event, execute)
  {
    assert (events + [event])[..|events|] == events;
  }

  lemma {:induction false} AfterArrivals<D>(s: Net<D>, k: nat, datagram: Datagram, execute: Server<D>)
    requires NetInitial(s) && k <= |s.clients| && k <= |s.ring.slots|
    ensures Arrived(NetRun(s, Arrivals(k, datagram), execute), k)
  {
    if k != 0 {
      AfterArrivals(s, k - 1, datagram, execute);
      var before, send := Arrivals(k - 1, datagram), Send(k - 1, datagram);
      ArrivalStep(NetRun(s, before, execute), k - 1, datagram, execute);
      NetRunStep(s, before, send, execute);
      NetRunStep(s, before + [send], Receive(k - 1), execute);
      assert Arrivals(k, datagram) == before + [send] + [Receive(k - 1)];
    }
  }

  /** When every slot is taken the indices are equal again. */
  lemma FullRingLooksEmpty<D>(s: Net<D>, datagram: Datagram, execute: Server<D>)
    requires NetInitial(s) && |s.ring.slots| <= |s.clients|
    ensures exists events: seq<Event> :: LooksEmpty(NetRun(s, events, execute))
  {
    AfterArrivals(s, |s.ring.slots|, datagram, execute);
    assert LooksEmpty(NetRun(s, Arrivals(|s.ring.slots|, datagram), execute));
  }

  /** The serving thread never takes a ring with waiting commands for empty exactly when there are fewer clients than slots. */
  lemma NeverLooksEmptyIff<D(!new)>(s: Net<D>, datagram: Datagram, execute: Server<D>)
    requires NetInitial(s)
    ensures (forall events: seq<Event> :: !LooksEmpty(NetRun(s, events, execute))) <==> |s.clients| < |s.ring.slots|
  {
    if |s.clients| < |s.ring.slots| {
      forall events: seq<Event>
        ensures !LooksEmpty(NetRun(s, events, execute))
      {
        NeverLooksEmpty(s, events, execute);
      }
    } else {
      FullRingLooksEmpty(s, datagram, execute);
    }
  }
}
