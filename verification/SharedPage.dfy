/**
 * The shared-memory handshake between a client and the device thread, as the interleaving of
 * their individual reads and writes of the mapped page. Memory is sequentially consistent and a
 * function has one client, as the client code expects.
 */
module SharedPage {
  import opened Buffers
  import opened WordMemory

  const PI_START: uint32 := 0xAA3E_BB11
  const CI_START: uint32 := 0x7400_0001
  const SYNCED: uint32 := 0xBABA_D000
  const SYNC_RETRY := 15

  function Increment(x: uint32): uint32 {
    (x + 1) % 0x1_0000_0000
  }

  /** Where the client is: opening the device, then any number of calls. */
  datatype ClientPc =
    | CheckPi(tries: nat) | CheckCi(tries: nat)  // waiting for both start values
    | CopyRead | CopyWrite(ci: uint32)           // mapPi = mapCi
    | WaitSynced | LoadPi                        // waiting for the device; uPI = mapCi
    | GaveUp
    | GetFree                                    // am_kpack_get_free_req
    | Fill                                       // building the request in mapTx
    | Publish                                    // mapPi = uPI
    | WaitDone                                   // waiting for mapCi == uPI
    | Take                                       // reading the response in mapRx

  /** Where the device thread is. */
  datatype DevicePc<Req> =
    | SetPi | SetCi | WaitClient | SetSynced     // synchronizing
    | Poll                                       // comparing mapPi with mapCi
    | Fetch | Respond(req: Req)                  // am_pack_process_cmd
    | AckRead | AckWrite(pi: uint32)             // mapCi = mapPi

  /** The executed command: the device and the response buffer after it. */
  type Executor<!D, !Req, !Resp> = (D, Req, Resp) -> (D, Resp)

  /** The page, both threads and the device, with the requests sent and the responses taken so far. */
  datatype State<D, Req, Resp> = State(
    mapPi: uint32, mapCi: uint32, mapState: uint32, mapTx: Req, mapRx: Resp,
    client: ClientPc, uPI: uint32,
    thread: DevicePc<Req>, device: D,
    sent: seq<Req>, handled: nat, answers: seq<Resp>)

  /** Whose turn it is; a client that is filling its buffer fills it with `req`. */
  datatype Turn<Req> = ClientTurn(req: Req) | DeviceTurn

  function ClientStep<D, Req, Resp>(s: State<D, Req, Resp>, req: Req): State<D, Req, Resp> {
    match s.client
    case CheckPi(tries) =>
      if tries >= SYNC_RETRY then s.(client := GaveUp)
      else if s.mapPi == PI_START then s.(client := CheckCi(tries))
      else s.(client := CheckPi(tries + 1))
    case CheckCi(tries) =>
      if s.mapCi == CI_START then s.(client := CopyRead) else s.(client := CheckPi(tries + 1))
    case CopyRead => s.(client := CopyWrite(s.mapCi))
    case CopyWrite(ci) => s.(mapPi := ci, client := WaitSynced)
    case WaitSynced => if s.mapState == SYNCED then s.(client := LoadPi) else s
    case LoadPi => s.(uPI := s.mapCi, client := GetFree)
    case GaveUp => s
    case GetFree => if s.mapCi == s.uPI then s.(client := Fill) else s
    case Fill => s.(mapTx := req, uPI := Increment(s.uPI), client := Publish)
    case Publish => s.(mapPi := s.uPI, sent := s.sent + [s.mapTx], client := WaitDone)
    case WaitDone => if s.mapCi == s.uPI then s.(client := Take) else s
    case Take => s.(answers := s.answers + [s.mapRx], client := GetFree)
  }

  /** The device is the only writer of mapCi, so its comparisons with mapCi are one read of mapPi. */
  function DeviceStep<D, Req, Resp>(s: State<D, Req, Resp>, execute: Executor<D, Req, Resp>): State<D, Req, Resp> {
    match s.thread
    case SetPi => s.(mapPi := PI_START, thread := SetCi)
    case SetCi => s.(mapCi := CI_START, thread := WaitClient)
    case WaitClient => if s.mapPi != s.mapCi then s else s.(thread := SetSynced)
    case SetSynced => s.(mapState := SYNCED, thread := Poll)
    case Poll => if s.mapPi == s.mapCi then s else s.(thread := Fetch)
    case Fetch => s.(thread := Respond(s.mapTx))
    case Respond(req) =>
      var (device, resp) := execute(s.device, req, s.mapRx);
      s.(device := device, mapRx := resp, handled := s.handled + 1, thread := AckRead)
    case AckRead => s.(thread := AckWrite(s.mapPi))
    case AckWrite(pi) => s.(mapCi := pi, thread := Poll)
  }

  function Step<D, Req, Resp>(s: State<D, Req, Resp>, turn: Turn<Req>, execute: Executor<D, Req, Resp>): State<D, Req, Resp> {
    match turn
    case ClientTurn(req) => ClientStep(s, req)
    case DeviceTurn => DeviceStep(s, execute)
  }

  /** Any interleaving. */
  function Run<D, Req, Resp>(s: State<D, Req, Resp>, turns: seq<Turn<Req>>, execute: Executor<D, Req, Resp>): State<D, Req, Resp> {
    if turns == [] then s
    else Step(Run(s, turns[..|turns| - 1], execute), turns[|turns| - 1], execute)
  }

  /** Both threads at their beginnings, on a page with any words and buffers. */
  predicate Initial<D, Req, Resp>(s: State<D, Req, Resp>) {
    s.client == CheckPi(0) && s.thread == SetPi && s.sent == [] && s.handled == 0 && s.answers == []
  }

  predicate BothStartValues<D, Req, Resp>(s: State<D, Req, Resp>) {
    s.mapPi == PI_START && s.mapCi == CI_START
  }

  /** What the handshake asks of the page it is given. */
  predicate Prepared<D, Req, Resp>(s: State<D, Req, Resp>) {
    !BothStartValues(s) && s.mapState != SYNCED
  }

  // ---------------------------------------------------------------- the page the driver gives

  const GREETING: seq<byte> := [66, 82, 65, 78, 68, 79, 78, 32, 84, 69, 83, 84, 0]  // "BRANDON TEST"
  const PAGE_SIZE := 8192

  /** The page fault handler zeroes the page and writes a greeting over its first words. */
  method NewPage() returns (page: array<byte>)
    ensures fresh(page) && page.Length == PAGE_SIZE && page[..] == GREETING + seq(PAGE_SIZE - 13, _ => 0)
  {
    page := new byte[PAGE_SIZE](_ => 0);
    Copy(page, 0, GREETING);
  }

  /** That page is prepared. */
  lemma NewPageIsPrepared<D, Req, Resp>(s: State<D, Req, Resp>, page: seq<byte>)
    requires page == GREETING + seq(PAGE_SIZE - 13, _ => 0)
    requires s.mapPi == WordAt(page, 0) && s.mapCi == WordAt(page, 4) && s.mapState == WordAt(page, 8)
    ensures Prepared(s)
  {
    assert page[0..4] == [66, 82, 65, 78] && page[8..12] == [84, 69, 83, 84];
    WordOf(66, 82, 65, 78);
    WordOf(84, 69, 83, 84);
  }

  // ---------------------------------------------------------------- direct execution, for comparison

  /** Executing requests one after the other: the device, the response buffer, all responses. */
  function Replay<D, Req, Resp>(d: D, rx: Resp, reqs: seq<Req>, execute: Executor<D, Req, Resp>): (D, Resp, seq<Resp>)
  {
    if reqs == [] then (d, rx, [])
    else
      var (d', rx', resps) := Replay(d, rx, reqs[..|reqs| - 1], execute);
      var (d'', rx'') := execute(d', reqs[|reqs| - 1], rx');
      (d'', rx'', resps + [rx''])
  }

  lemma {:induction false} ReplayLength<D, Req, Resp>(d: D, rx: Resp, reqs: seq<Req>, execute: Executor<D, Req, Resp>)
    ensures |Replay(d, rx, reqs, execute).2| == |reqs|
    ensures reqs != [] ==> Replay(d, rx, reqs, execute).1 == Replay(d, rx, reqs, execute).2[|reqs| - 1]
  {
    if reqs != [] {
      ReplayLength(d, rx, reqs[..|reqs| - 1], execute);
    }
  }

  // ---------------------------------------------------------------- the invariant

  /** The page as it was when both sides started on it. */
  datatype Origin<D, Resp> = Origin(pi: uint32, ci: uint32, device: D, rx: Resp)

  predicate Looking(pc: ClientPc) {
    pc.CheckPi? || pc.CheckCi? || pc.GaveUp?
  }

  predicate Copying(pc: ClientPc) {
    pc.CopyRead? || pc == CopyWrite(CI_START)
  }

  /** While the device has not announced that both sides are in step. */
  ghost predicate Synchronizing<D, Req, Resp>(s: State<D, Req, Resp>, o: Origin<D, Resp>) {
    && s.mapState != SYNCED && s.sent == [] && s.handled == 0 && s.answers == []
    && s.device == o.device && s.mapRx == o.rx
    && match s.thread
       case SetPi => s.mapPi == o.pi && s.mapCi == o.ci && Looking(s.client) && (s.client.CheckCi? ==> o.pi == PI_START)
       case SetCi =>
         && s.mapCi == o.ci
         && (if s.client == WaitSynced then s.mapPi == CI_START else s.mapPi == PI_START)
         && (Looking(s.client) || ((Copying(s.client) || s.client == WaitSynced) && o.ci == CI_START))
       case WaitClient =>
         && s.mapCi == CI_START
         && (if s.client == WaitSynced then s.mapPi == CI_START else s.mapPi == PI_START)
         && (Looking(s.client) || Copying(s.client) || s.client == WaitSynced)
       case SetSynced => s.mapPi == s.mapCi == CI_START && s.client == WaitSynced
       case _ => false
  }

  /** Afterwards: at most one request is under way, and each side knows how far it has come. */
  ghost predicate Running<D, Req, Resp>(s: State<D, Req, Resp>) {
    && s.mapState == SYNCED
    && match s.client
       case WaitSynced => s.thread.Poll? && s.mapPi == s.mapCi && s.sent == [] && s.handled == |s.answers| == 0
       case LoadPi => s.thread.Poll? && s.mapPi == s.mapCi && s.sent == [] && s.handled == |s.answers| == 0
       case GetFree => s.thread.Poll? && s.uPI == s.mapPi == s.mapCi && |s.sent| == s.handled == |s.answers|
       case Fill => s.thread.Poll? && s.uPI == s.mapPi == s.mapCi && |s.sent| == s.handled == |s.answers|
       case Publish =>
         s.thread.Poll? && s.mapPi == s.mapCi && s.uPI == Increment(s.mapCi) && |s.sent| == s.handled == |s.answers|
       case WaitDone =>
         && s.mapPi == s.uPI && |s.sent| == |s.answers| + 1 && s.mapTx == s.sent[|s.sent| - 1]
         && (if s.thread.Poll? && s.mapCi == s.uPI then s.handled == |s.sent|
             else s.uPI == Increment(s.mapCi) && match s.thread
               case Poll => s.handled == |s.sent| - 1
               case Fetch => s.handled == |s.sent| - 1
               case Respond(req) => s.handled == |s.sent| - 1 && req == s.mapTx
               case AckRead => s.handled == |s.sent|
               case AckWrite(pi) => s.handled == |s.sent| && pi == s.uPI
               case _ => false)
       case Take => s.thread.Poll? && s.uPI == s.mapPi == s.mapCi && |s.sent| == s.handled == |s.answers| + 1
       case _ => false
  }

  /** The device and the answers are those of executing the handled requests directly. */
  ghost predicate Matches<D, Req, Resp>(s: State<D, Req, Resp>, o: Origin<D, Resp>, execute: Executor<D, Req, Resp>) {
    && s.handled <= |s.sent| && |s.answers| <= s.handled
    && var (d, rx, resps) := Replay(o.device, o.rx, s.sent[..s.handled], execute);
    && s.device == d && s.mapRx == rx && |resps| == s.handled && s.answers == resps[..|s.answers|]
  }

  ghost predicate Inv<D, Req, Resp>(s: State<D, Req, Resp>, o: Origin<D, Resp>, execute: Executor<D, Req, Resp>) {
    (Synchronizing(s, o) || Running(s)) && Matches(s, o, execute)
  }

  lemma IncrementMoves(x: uint32)
    ensures Increment(x) != x && (Increment(x) - x) % 0x1_0000_0000 == 1
  {
    if x + 1 == 0x1_0000_0000 {
      assert Increment(x) - x == 1 - 0x1_0000_0000;
    }
  }

  lemma PhasesKept<D, Req, Resp>(s: State<D, Req, Resp>, turn: Turn<Req>, o: Origin<D, Resp>, execute: Executor<D, Req, Resp>)
    requires Synchronizing(s, o) || Running(s)
    requires !(o.pi == PI_START && o.ci == CI_START)
    ensures var s' := Step(s, turn, execute); Synchronizing(s', o) || Running(s')
  {
    IncrementMoves(s.mapCi);
  }

  lemma ClientKeepsMatches<D, Req, Resp>(s: State<D, Req, Resp>, req: Req, o: Origin<D, Resp>, execute: Executor<D, Req, Resp>)
    requires (Synchronizing(s, o) || Running(s)) && Matches(s, o, execute)
    ensures Matches(ClientStep(s, req), o, execute)
  {
    var s' := ClientStep(s, req);
    var done := s.sent[..s.handled];
    ReplayLength(o.device, o.rx, done, execute);
    assert s'.sent[..s'.handled] == done;
    if s.client.Take? {
      assert s.answers + [s.mapRx] == Replay(o.device, o.rx, done, execute).2[..|s.answers| + 1];
    }
  }

  lemma DeviceKeepsMatches<D, Req, Resp>(s: State<D, Req, Resp>, o: Origin<D, Resp>, execute: Executor<D, Req, Resp>)
    requires (Synchronizing(s, o) || Running(s)) && Matches(s, o, execute)
    ensures Matches(DeviceStep(s, execute), o, execute)
  {
    if s.thread.Respond? {
      var done' := s.sent[..s.handled + 1];
      assert done'[..|done'| - 1] == s.sent[..s.handled] && done'[|done'| - 1] == s.thread.req;
      ReplayLength(o.device, o.rx, done', execute);
    }
  }

  lemma MatchesKept<D, Req, Resp>(s: State<D, Req, Resp>, turn: Turn<Req>, o: Origin<D, Resp>, execute: Executor<D, Req, Resp>)
    requires (Synchronizing(s, o) || Running(s)) && Matches(s, o, execute)
    ensures Matches(Step(s, turn, execute), o, execute)
  {
    match turn
    case ClientTurn(req) => ClientKeepsMatches(s, req, o, execute);
    case DeviceTurn => DeviceKeepsMatches(s, o, execute);
  }

  lemma {:induction false} RunInvariant<D, Req, Resp>(s: State<D, Req, Resp>, turns: seq<Turn<Req>>, execute: Executor<D, Req, Resp>)
    requires Initial(s) && Prepared(s)
    ensures Inv(Run(s, turns, execute), Origin(s.mapPi, s.mapCi, s.device, s.mapRx), execute)
  {
    var o := Origin(s.mapPi, s.mapCi, s.device, s.mapRx);
    if turns != [] {
      var k := |turns| - 1;
      RunInvariant(s, turns[..k], execute);
      PhasesKept(Run(s, turns[..k], execute), turns[k], o, execute);
      MatchesKept(Run(s, turns[..k], execute), turns[k], o, execute);
    }
  }

  // ---------------------------------------------------------------- what every interleaving satisfies

  predicate ClientTouchesBuffers(pc: ClientPc) {
    pc.Fill? || pc.Take?
  }

  predicate DeviceTouchesBuffers<Req>(pc: DevicePc<Req>) {
    pc.Fetch? || pc.Respond?
  }

  /** The client's and the device's accesses to the buffers never overlap. */
  lemma BuffersNeverShared<D, Req, Resp>(s: State<D, Req, Resp>, turns: seq<Turn<Req>>, execute: Executor<D, Req, Resp>)
    requires Initial(s) && Prepared(s)
    ensures
      var t := Run(s, turns, execute);
      !(ClientTouchesBuffers(t.client) && DeviceTouchesBuffers(t.thread))
  {
    RunInvariant(s, turns, execute);
  }

  /** How far the producer index is ahead of the consumer index, in 32-bit arithmetic. */
  function Ahead(pi: uint32, ci: uint32): uint32 {
    (pi - ci) % 0x1_0000_0000
  }

  /** Once in step, the producer index is the consumer index or the next one, across wraparound. */
  lemma IndicesStayClose<D, Req, Resp>(s: State<D, Req, Resp>, turns: seq<Turn<Req>>, execute: Executor<D, Req, Resp>)
    requires Initial(s) && Prepared(s)
    ensures
      var t := Run(s, turns, execute);
      t.mapState == SYNCED ==> Ahead(t.mapPi, t.mapCi) <= 1
  {
    RunInvariant(s, turns, execute);
    RunningIndices(Run(s, turns, execute));
  }

  lemma RunningIndices<D, Req, Resp>(s: State<D, Req, Resp>)
    ensures Running(s) ==> Ahead(s.mapPi, s.mapCi) <= 1
  {
    IncrementMoves(s.mapCi);
    assert Running(s) ==> s.mapPi == s.mapCi || s.mapPi == Increment(s.mapCi);
  }

  /**
   * Each request is executed exactly once and in order, and the client's answers are those of
   * executing its requests directly.
   */
  lemma RunIsDirectExecution<D, Req, Resp>(s: State<D, Req, Resp>, turns: seq<Turn<Req>>, execute: Executor<D, Req, Resp>)
    requires Initial(s) && Prepared(s)
    ensures
      var t := Run(s, turns, execute);
      && t.handled <= |t.sent| <= t.handled + 1 && |t.answers| <= t.handled
      && t.device == Replay(s.device, s.mapRx, t.sent[..t.handled], execute).0
      && t.answers <= Replay(s.device, s.mapRx, t.sent, execute).2
      && (t.client.GetFree? ==> |t.answers| == t.handled == |t.sent|)
  {
    RunInvariant(s, turns, execute);
    var t := Run(s, turns, execute);
    ReplayPrefix(s.device, s.mapRx, t.sent, t.handled, execute);
  }

  lemma {:induction false} ReplayPrefix<D, Req, Resp>(d: D, rx: Resp, reqs: seq<Req>, k: nat, execute: Executor<D, Req, Resp>)
    requires k <= |reqs|
    ensures Replay(d, rx, reqs[..k], execute).2 <= Replay(d, rx, reqs, execute).2
  {
    if k == |reqs| {
      assert reqs[..k] == reqs;
    } else {
      var init := reqs[..|reqs| - 1];
      ReplayPrefix(d, rx, init, k, execute);
      assert init[..k] == reqs[..k];
    }
  }

  /** The device executes nothing that was not published, and the first request starts from equal indices. */
  lemma NoPhantomCommand<D, Req, Resp>(s: State<D, Req, Resp>, turns: seq<Turn<Req>>, execute: Executor<D, Req, Resp>)
    requires Initial(s) && Prepared(s)
    ensures
      var t := Run(s, turns, execute);
      && (DeviceTouchesBuffers(t.thread) ==> t.handled + 1 == |t.sent| && t.mapTx == t.sent[t.handled])
      && (t.thread.Respond? ==> t.thread.req == t.sent[t.handled])
      && (t.client.GetFree? && t.sent == [] ==> t.uPI == t.mapPi == t.mapCi && t.handled == 0)
  {
    RunInvariant(s, turns, execute);
  }

  /**
   * The device announces that it is in step only after the client has seen both start values
   * and copied the consumer index, and the client's first request starts from equal indices.
   */
  lemma SyncedAfterCopy<D, Req, Resp>(s: State<D, Req, Resp>, turns: seq<Turn<Req>>, execute: Executor<D, Req, Resp>)
    requires Initial(s) && Prepared(s)
    ensures
      var t := Run(s, turns, execute);
      && (t.mapState == SYNCED || t.thread.SetSynced? ==> !Looking(t.client) && !t.client.CopyRead? && !t.client.CopyWrite?)
      && (t.client.GetFree? ==> t.uPI == t.mapPi == t.mapCi)
  {
    RunInvariant(s, turns, execute);
  }

  // ---------------------------------------------------------------- progress

  function DeviceSteps<D, Req, Resp>(s: State<D, Req, Resp>, n: nat, execute: Executor<D, Req, Resp>): State<D, Req, Resp>
    decreases n
  {
    if n == 0 then s else DeviceSteps(DeviceStep(s, execute), n - 1, execute)
  }

  /** How many steps the device thread is from acknowledging the published request. */
  function Distance<D, Req, Resp>(s: State<D, Req, Resp>): nat {
    match s.thread
    case Poll => if s.mapCi == s.uPI then 0 else 5
    case Fetch => 4
    case Respond(_) => 3
    case AckRead => 2
    case AckWrite(_) => 1
    case _ => 0
  }

  /** Whatever came before, a published request is answered after at most five device steps. */
  lemma {:induction false} RequestIsAnswered<D, Req, Resp>(s: State<D, Req, Resp>, execute: Executor<D, Req, Resp>)
    requires Running(s) && s.client.WaitDone?
    ensures
      var t := DeviceSteps(s, Distance(s), execute);
      Distance(s) <= 5 && t.client.WaitDone? && t.mapCi == t.uPI && t.handled == |t.sent| && t.sent == s.sent
    decreases Distance(s)
  {
    IncrementMoves(s.mapCi);
    if Distance(s) > 0 {
      RequestIsAnswered(DeviceStep(s, execute), execute);
    }
  }

  function ClientSteps<D, Req, Resp>(s: State<D, Req, Resp>, n: nat, req: Req): State<D, Req, Resp>
    decreases n
  {
    if n == 0 then s else ClientSteps(ClientStep(s, req), n - 1, req)
  }

  /** An answered client takes its answer with its next two steps and is ready for another call. */
  lemma AnswerIsTaken<D, Req, Resp>(s: State<D, Req, Resp>, req: Req)
    requires Running(s) && s.client.WaitDone? && s.mapCi == s.uPI
    ensures
      var t := ClientSteps(s, 2, req);
      t.client.GetFree? && t.answers == s.answers + [s.mapRx] && t.sent == s.sent && t.uPI == t.mapCi
  {
    var s1 := ClientStep(s, req);
    assert ClientSteps(s, 2, req) == ClientSteps(s1, 1, req);
    assert ClientSteps(s1, 1, req) == ClientSteps(ClientStep(s1, req), 0, req);
  }

  /** A client between calls publishes its next request with its next three steps. */
  lemma RequestIsSent<D, Req, Resp>(s: State<D, Req, Resp>, req: Req)
    requires Running(s) && s.client.GetFree?
    ensures
      var t := ClientSteps(s, 3, req);
      t.client.WaitDone? && t.sent == s.sent + [req] && t.mapTx == req && t.mapPi == t.uPI == Increment(t.mapCi)
  {
    var s1 := ClientStep(s, req);
    var s2 := ClientStep(s1, req);
    assert ClientSteps(s, 3, req) == ClientSteps(s1, 2, req);
    assert ClientSteps(s1, 2, req) == ClientSteps(s2, 1, req);
    assert ClientSteps(s2, 1, req) == ClientSteps(ClientStep(s2, req), 0, req);
  }

  /** Wherever the run has got to, a client that waits for the device is told SYNCED after at most three device turns. */
  lemma SyncIsAnnounced<D, Req, Resp>(s: State<D, Req, Resp>, turns: seq<Turn<Req>>, execute: Executor<D, Req, Resp>) returns (n: nat)
    requires Initial(s) && Prepared(s) && Run(s, turns, execute).client.WaitSynced?
    ensures
      var t := DeviceSteps(Run(s, turns, execute), n, execute);
      n <= 3 && t.mapState == SYNCED && t.client.WaitSynced?
  {
    RunInvariant(s, turns, execute);
    n := Announce(Run(s, turns, execute), Origin(s.mapPi, s.mapCi, s.device, s.mapRx), execute);
  }

  lemma Announce<D, Req, Resp>(t: State<D, Req, Resp>, o: Origin<D, Resp>, execute: Executor<D, Req, Resp>) returns (n: nat)
    requires (Synchronizing(t, o) || Running(t)) && t.client.WaitSynced? && !(o.pi == PI_START && o.ci == CI_START)
    ensures
      var u := DeviceSteps(t, n, execute);
      n <= DeviceRemaining(t) <= 3 && u.mapState == SYNCED && u.client.WaitSynced?
    decreases DeviceRemaining(t)
  {
    if t.mapState == SYNCED {
      n := 0;
    } else {
      PhasesKept(t, DeviceTurn, o, execute);
      n := Announce(DeviceStep(t, execute), o, execute);
      n := n + 1;
    }
  }

  /** How far a client that has seen the start values is from being between calls. */
  function Remaining<D, Req, Resp>(s: State<D, Req, Resp>): nat {
    match s.client
    case CopyRead => 40 + DeviceRemaining(s)
    case CopyWrite(_) => 35 + DeviceRemaining(s)
    case WaitSynced => 30 + DeviceRemaining(s)
    case LoadPi => 20
    case Fill => 19
    case Publish => 18
    case WaitDone => 10 + Distance(s)
    case Take => 9
    case _ => 0
  }

  function DeviceRemaining<D, Req, Resp>(s: State<D, Req, Resp>): nat {
    match s.thread
    case SetPi => 4
    case SetCi => 3
    case WaitClient => 2
    case SetSynced => 1
    case _ => 0
  }

  lemma Advance<D, Req, Resp>(t: State<D, Req, Resp>, o: Origin<D, Resp>, req: Req, execute: Executor<D, Req, Resp>) returns (turn: Turn<Req>)
    requires (Synchronizing(t, o) || Running(t)) && !Looking(t.client) && !t.client.GetFree?
    ensures
      var t' := Step(t, turn, execute);
      Remaining(t') < Remaining(t) && !Looking(t'.client)
  {
    IncrementMoves(t.mapCi);
    if (t.client.WaitSynced? && t.mapState != SYNCED) || (t.client.WaitDone? && t.mapCi != t.uPI) {
      turn := DeviceTurn;
    } else {
      turn := ClientTurn(req);
    }
  }

  /** The next turn of a run that brings the client nearer. */
  lemma AdvanceRun<D, Req, Resp>(s: State<D, Req, Resp>, turns: seq<Turn<Req>>, req: Req, execute: Executor<D, Req, Resp>)
    returns (turn: Turn<Req>)
    requires Initial(s) && Prepared(s) && !Looking(Run(s, turns, execute).client) && !Run(s, turns, execute).client.GetFree?
    ensures
      var t' := Run(s, turns + [turn], execute);
      Remaining(t') < Remaining(Run(s, turns, execute)) && !Looking(t'.client)
  {
    RunInvariant(s, turns, execute);
    turn := Advance(Run(s, turns, execute), Origin(s.mapPi, s.mapCi, s.device, s.mapRx), req, execute);
    RunStep(s, turns, turn, execute);
  }

  lemma {:induction false} GetsFree<D, Req, Resp>(s: State<D, Req, Resp>, turns: seq<Turn<Req>>, req: Req, execute: Executor<D, Req, Resp>)
    returns (all: seq<Turn<Req>>)
    requires Initial(s) && Prepared(s) && !Looking(Run(s, turns, execute).client)
    ensures turns <= all && Run(s, all, execute).client.GetFree?
    decreases Remaining(Run(s, turns, execute))
  {
    if Run(s, turns, execute).client.GetFree? {
      all := turns;
    } else {
      var turn := AdvanceRun(s, turns, req, execute);
      all := GetsFree(s, turns + [turn], req, execute);
    }
  }

  /** Wherever the run has got to, a client that has seen the start values can get between calls, all its requests answered. */
  lemma CallCompletes<D, Req, Resp>(s: State<D, Req, Resp>, turns: seq<Turn<Req>>, req: Req, execute: Executor<D, Req, Resp>)
    returns (all: seq<Turn<Req>>)
    requires Initial(s) && Prepared(s) && !Looking(Run(s, turns, execute).client)
    ensures
      var t := Run(s, all, execute);
      turns <= all && t.client.GetFree? && |t.answers| == |t.sent|
  {
    all := GetsFree(s, turns, req, execute);
    RunIsDirectExecution(s, all, execute);
  }

  /** From every prepared page, the driver's among them, the client can come to make its first call. */
  lemma SessionOpens<D, Req, Resp>(s: State<D, Req, Resp>, req: Req, execute: Executor<D, Req, Resp>) returns (turns: seq<Turn<Req>>)
    requires Initial(s) && Prepared(s)
    ensures
      var t := Run(s, turns, execute);
      t.client.GetFree? && t.mapState == SYNCED && |t.answers| == |t.sent|
  {
    var c, d := ClientTurn(req), DeviceTurn;
    RunThree(s, d, d, c, execute);
    RunStep(s, [d, d, c], c, execute);
    assert Run(s, [d, d, c] + [c], execute).client == CopyRead;
    turns := CallCompletes(s, [d, d, c] + [c], req, execute);
    RunInvariant(s, turns, execute);
  }

  /** A client that never sees both start values looks for them fifteen times and gives up. */
  lemma {:induction false} GivesUp<D, Req, Resp>(s: State<D, Req, Resp>, req: Req, tries: nat, n: nat)
    requires s.client == CheckPi(tries) && tries <= SYNC_RETRY && !BothStartValues(s)
    requires n == (if s.mapPi == PI_START then 2 * (15 - tries) else 15 - tries) + 1
    ensures ClientSteps(s, n, req) == s.(client := GaveUp)
    ensures tries < SYNC_RETRY ==> exists m :: 0 < m < n && ClientSteps(s, m, req) == s.(client := CheckPi(tries + 1))
    decreases SYNC_RETRY - tries
  {
    var s1 := ClientStep(s, req);
    assert ClientSteps(s, n, req) == ClientSteps(s1, n - 1, req);
    if tries == SYNC_RETRY {
      assert ClientSteps(s1, 0, req) == s1;
    } else if s.mapPi != PI_START {
      assert ClientSteps(s, 1, req) == ClientSteps(s1, 0, req) == s1;
      GivesUp(s1, req, tries + 1, n - 1);
    } else {
      var s2 := ClientStep(s1, req);
      assert ClientSteps(s1, n - 1, req) == ClientSteps(s2, n - 2, req);
      assert ClientSteps(s, 2, req) == ClientSteps(s1, 1, req) == ClientSteps(s2, 0, req) == s2;
      GivesUp(s2, req, tries + 1, n - 2);
    }
  }

  // ---------------------------------------------------------------- pages that cannot synchronize

  /** The client is in a loop that only the device can end. */
  predicate ClientWaits<D, Req, Resp>(s: State<D, Req, Resp>) {
    match s.client
    case WaitSynced => s.mapState != SYNCED
    case GetFree => s.mapCi != s.uPI
    case WaitDone => s.mapCi != s.uPI
    case _ => false
  }

  /** Both sides are in loops that only the other can end. */
  predicate EachWaits<D, Req, Resp>(s: State<D, Req, Resp>) {
    ClientWaits(s) && s.thread.WaitClient? && s.mapPi != s.mapCi
  }

  /** The client has not given up, and no turn of either side changes anything. */
  ghost predicate Stuck<D, Req(!new), Resp>(s: State<D, Req, Resp>, execute: Executor<D, Req, Resp>) {
    !s.client.GaveUp? && forall turn: Turn<Req> :: Step(s, turn, execute) == s
  }

  /** Then nothing ever changes. */
  lemma {:induction false} StuckForever<D, Req(!new), Resp>(s: State<D, Req, Resp>, turns: seq<Turn<Req>>, execute: Executor<D, Req, Resp>)
    requires Stuck(s, execute)
    ensures Run(s, turns, execute) == s
  {
    if turns != [] {
      StuckForever(s, turns[..|turns| - 1], execute);
    }
  }

  /** A state that the invariant allows is not stuck. */
  lemma NotStuck<D, Req(!new), Resp>(t: State<D, Req, Resp>, o: Origin<D, Resp>, req: Req, execute: Executor<D, Req, Resp>)
    requires Synchronizing(t, o) || Running(t)
    ensures !Stuck(t, execute)
  {
    if !t.client.GaveUp? {
      if Looking(t.client) || t.client.GetFree? {
        assert Step(t, ClientTurn(req), execute).client != t.client;
      } else {
        var turn := Advance(t, o, req, execute);
        assert Remaining(Step(t, turn, execute)) != Remaining(t);
      }
    }
  }

  lemma RunStep<D, Req, Resp>(s: State<D, Req, Resp>, turns: seq<Turn<Req>>, turn: Turn<Req>, execute: Executor<D, Req, Resp>)
    ensures Run(s, turns + [turn], execute) == Step(Run(s, turns, execute), turn, execute)
  {
    assert (turns + [turn])[..|turns|] == turns;
  }

  lemma {:induction false} RunAppend<D, Req, Resp>(s: State<D, Req, Resp>, a: seq<Turn<Req>>, b: seq<Turn<Req>>, execute: Executor<D, Req, Resp>)
    ensures Run(s, a + b, execute) == Run(Run(s, a, execute), b, execute)
  {
    if b == [] {
      assert a + b == a;
    } else {
      var k := |b| - 1;
      assert a + b == a + b[..k] + [b[k]];
      RunAppend(s, a, b[..k], execute);
      RunStep(s, a + b[..k], b[k], execute);
    }
  }

  /** Three turns one after the other. */
  lemma RunThree<D, Req, Resp>(s: State<D, Req, Resp>, x: Turn<Req>, y: Turn<Req>, z: Turn<Req>, execute: Executor<D, Req, Resp>)
    ensures Run(s, [x, y, z], execute) == Step(Step(Step(s, x, execute), y, execute), z, execute)
  {
    RunStep(s, [], x, execute);
    RunStep(s, [x], y, execute);
    RunStep(s, [x, y], z, execute);
    assert [] + [x] == [x] && [x] + [y] == [x, y] && [x, y] + [z] == [x, y, z];
  }

  /** From a page that already holds both start values the client can copy before the device starts. */
  lemma StartValuesCanStick<D, Req(!new), Resp>(s: State<D, Req, Resp>, req: Req, execute: Executor<D, Req, Resp>)
    requires Initial(s) && BothStartValues(s) && s.mapState != SYNCED
    ensures exists turns: seq<Turn<Req>> :: Stuck(Run(s, turns, execute), execute)
  {
    var c, d := ClientTurn(req), DeviceTurn;
    RunThree(s, c, c, c, execute);
    var s1 := Run(s, [c, c, c], execute);
    assert s1 == s.(client := CopyWrite(CI_START));
    RunThree(s1, c, d, d, execute);
    RunAppend(s, [c, c, c], [c, d, d], execute);
    assert EachWaits(Run(s, [c, c, c] + [c, d, d], execute));
    assert Stuck(Run(s, [c, c, c] + [c, d, d], execute), execute);
  }

  /** The client believes a state word that is already SYNCED. */
  lemma ClientCopies<D, Req, Resp>(s: State<D, Req, Resp>, c: Turn<Req>, d: Turn<Req>, execute: Executor<D, Req, Resp>)
    requires Initial(s) && s.mapState == SYNCED && c.ClientTurn? && d.DeviceTurn?
    ensures Run(s, [d, d, c] + [c, c, c], execute) ==
      s.(mapPi := CI_START, mapCi := CI_START, thread := WaitClient, client := WaitSynced)
  {
    RunThree(s, d, d, c, execute);
    var s1 := Run(s, [d, d, c], execute);
    assert s1 == s.(mapPi := PI_START, mapCi := CI_START, thread := WaitClient, client := CheckCi(0));
    RunThree(s1, c, c, c, execute);
    RunAppend(s, [d, d, c], [c, c, c], execute);
  }

  /** It then sends while the device still waits for equal indices. */
  lemma ClientSends<D, Req(!new), Resp>(s: State<D, Req, Resp>, c: Turn<Req>, execute: Executor<D, Req, Resp>)
    requires s.client == WaitSynced && s.mapState == SYNCED && s.mapCi == CI_START && s.thread == WaitClient && c.ClientTurn?
    ensures Stuck(Run(s, [c, c, c] + [c, c, c], execute), execute)
  {
    RunThree(s, c, c, c, execute);
    var s1 := Run(s, [c, c, c], execute);
    assert s1 == s.(uPI := CI_START, client := Fill);
    RunThree(s1, c, c, c, execute);
    RunAppend(s, [c, c, c], [c, c, c], execute);
    IncrementMoves(CI_START);
    assert EachWaits(Run(s, [c, c, c] + [c, c, c], execute));
  }

  /** From a page whose state word is already SYNCED the two sides can end up waiting for each other. */
  lemma SyncedPageCanStick<D, Req(!new), Resp>(s: State<D, Req, Resp>, req: Req, execute: Executor<D, Req, Resp>)
    requires Initial(s) && s.mapState == SYNCED
    ensures exists turns: seq<Turn<Req>> :: Stuck(Run(s, turns, execute), execute)
  {
    var c, d := ClientTurn(req), DeviceTurn;
    var first, second := [d, d, c] + [c, c, c], [c, c, c] + [c, c, c];
    ClientCopies(s, c, d, execute);
    ClientSends(Run(s, first, execute), c, execute);
    RunAppend(s, first, second, execute);
    assert Stuck(Run(s, first + second, execute), execute);
  }

  /** From any page: no interleaving gets stuck exactly when the page is prepared. */
  lemma NeverStuckIff<D(!new), Req(!new), Resp(!new)>(s: State<D, Req, Resp>, req: Req, execute: Executor<D, Req, Resp>)
    requires Initial(s)
    ensures (forall turns: seq<Turn<Req>> :: !Stuck(Run(s, turns, execute), execute)) <==> Prepared(s)
  {
    if s.mapState == SYNCED {
      SyncedPageCanStick(s, req, execute);
    } else if BothStartValues(s) {
      StartValuesCanStick(s, req, execute);
    } else {
      forall turns: seq<Turn<Req>>
        ensures !Stuck(Run(s, turns, execute), execute)
      {
        RunInvariant(s, turns, execute);
        NotStuck(Run(s, turns, execute), Origin(s.mapPi, s.mapCi, s.device, s.mapRx), req, execute);
      }
    }
  }
}
