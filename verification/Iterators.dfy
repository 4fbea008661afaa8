/**
 * The associative array's iterators: four slots, each holding the next item of one iteration,
 * and handles that name a slot. Items are named by their positions in the insertion order, and
 * the table does not change; `ItemIterators` has the slots in memory.
 */
module Iterators {
  import opened Bits

  const MAX_ITERS := 4
  const FLAG_RESET := 0x8000_0000
  const FLAG_NEW := 0x4000_0000
  const FLAG_VALID := 0x2000_0000
  const FLAG_DONE := 0x1000_0000
  const ITER_INVALID := 0xF1FF_FFFF

  datatype Option<+T> = None | Some(value: T)
  datatype Status = Good | InvalidIter | IterDone

  function IndexOf(handle: nat): nat {
    handle % MAX_ITERS
  }

  /** The lowest free slot from `i` on, or four. */
  function FirstFree(slots: seq<Option<nat>>, i: nat): (k: nat)
    requires |slots| == MAX_ITERS && i <= MAX_ITERS
    ensures i <= k <= MAX_ITERS && (k < MAX_ITERS ==> slots[k] == None)
    ensures forall j :: i <= j < k ==> slots[j] != None
    decreases MAX_ITERS - i
  {
    if i == MAX_ITERS || slots[i] == None then i else FirstFree(slots, i + 1)
  }

  /** The item after one in insertion order. */
  function Successor(item: nat, n: nat): Option<nat> {
    if item + 1 < n then Some(item + 1) else None
  }

  /** am_assca_get_iter. */
  function GetIter(slots: seq<Option<nat>>, handle: nat): nat
    requires |slots| == MAX_ITERS
  {
    if HasFlag(handle, FLAG_NEW) then
      var k := FirstFree(slots, 0);
      if k < MAX_ITERS then FLAG_VALID + k else ITER_INVALID
    else if HasFlag(handle, FLAG_RESET) then ITER_INVALID
    else if HasFlag(handle, FLAG_VALID) then handle
    else ITER_INVALID
  }

  /** What one call leaves: its status, the slots, the caller's handle and the item it copied out. */
  datatype Outcome = Outcome(status: Status, slots: seq<Option<nat>>, handle: nat, item: Option<nat>)

  /** am_assca_iter over a table of `n` items, which are named by their positions. */
  function Iterate(n: nat, slots: seq<Option<nat>>, handle: nat): (o: Outcome)
    requires |slots| == MAX_ITERS
    ensures |o.slots| == MAX_ITERS
  {
    var fromHead := HasFlag(handle, FLAG_RESET) || HasFlag(handle, FLAG_NEW);
    var iter := GetIter(slots, handle);
    var k := IndexOf(iter);
    if iter != ITER_INVALID then
      var at := if fromHead then (if n > 0 then Some(0) else None) else slots[k];
      if at.Some? then
        Outcome(Good, slots[k := Successor(at.value, n)], iter, at)
      else Outcome(IterDone, slots, iter, None)
    else Outcome(InvalidIter, slots[k := None], k + FLAG_DONE, None)
  }

  // ---------------------------------------------------------------- interleaved iterations

  /** One user of the iterators: not iterating, or holding a handle and the items got so far. */
  datatype Cursor = Closed | Open(handle: nat, got: seq<nat>)

  datatype State = State(slots: seq<Option<nat>>, cursors: seq<Cursor>)

  /** A user begins or continues its iteration, or someone makes a call that is refused. */
  datatype Event = Begin(user: nat) | Continue(user: nat) | Misuse(given: nat)

  /** Whose call it is; a misuse is nobody's. */
  function CallerOf(e: Event): nat {
    if e.Misuse? then MAX_ITERS else e.user
  }

  predicate WellFormed(s: State, e: Event) {
    && |s.slots| == |s.cursors| == MAX_ITERS
    && match e
       case Begin(user) => user < MAX_ITERS && s.cursors[user].Closed?
       case Continue(user) => user < MAX_ITERS && s.cursors[user].Open?
       case Misuse(given) => GetIter(s.slots, given) == ITER_INVALID
  }

  /** The handle the call passes. */
  function HandleOf(s: State, e: Event): nat
    requires WellFormed(s, e)
  {
    match e
    case Begin(_) => FLAG_NEW
    case Continue(user) => s.cursors[user].handle
    case Misuse(given) => given
  }

  function CallOf(s: State, e: Event, n: nat): Outcome
    requires WellFormed(s, e)
  {
    Iterate(n, s.slots, HandleOf(s, e))
  }

  function Step(s: State, e: Event, n: nat): State
    requires WellFormed(s, e)
  {
    var o := CallOf(s, e, n);
    if e.Misuse? then s.(slots := o.slots)
    else
      var got := if e.Begin? then [] else s.cursors[e.user].got;
      State(o.slots, s.cursors[e.user := if o.status.Good? then Open(o.handle, got + [o.item.value]) else Closed])
  }

  /** An iteration that has had its last item but not been told that it is over. */
  predicate AtEnd(c: Cursor, n: nat) {
    c.Open? && |c.got| == n
  }

  /** An open iteration other than the caller's uses the slot. */
  predicate HeldByOther(s: State, k: nat, caller: nat) {
    exists j :: 0 <= j < |s.cursors| && j != caller && s.cursors[j].Open? && s.cursors[j].handle == FLAG_VALID + k
  }

  /**
   * What a caller must make sure of, for any handle it may pass. A refused call must find slot 3
   * empty or its own; a new iteration in a table of two or more items must not be given the slot
   * of an iteration that is at its end; a call with a handle must own the slot it names unless
   * that is empty.
   */
  predicate Harmless(s: State, handle: nat, caller: nat, n: nat)
    requires |s.slots| == MAX_ITERS
  {
    var iter := GetIter(s.slots, handle);
    if iter == ITER_INVALID then s.slots[3] == None || !HeldByOther(s, 3, caller)
    else if HasFlag(handle, FLAG_NEW) then n < 2 || !HeldByOther(s, FirstFree(s.slots, 0), caller)
    else s.slots[IndexOf(iter)] == None || !HeldByOther(s, IndexOf(iter), caller)
  }

  /** The discipline: every call is harmless. */
  predicate Allowed(s: State, e: Event, n: nat) {
    WellFormed(s, e) && Harmless(s, HandleOf(s, e), CallerOf(e), n)
  }

  // ---------------------------------------------------------------- the invariant

  function FirstItems(k: nat): (s: seq<nat>)
    ensures |s| == k && forall i :: 0 <= i < k ==> s[i] == i
  {
    seq(k, i => i)
  }

  predicate SlotHandle(handle: nat) {
    FLAG_VALID <= handle < FLAG_VALID + MAX_ITERS
  }

  /** An open iteration has had the first items in order, and its slot points at the next one. */
  ghost predicate CursorHolds(c: Cursor, slots: seq<Option<nat>>, n: nat)
    requires |slots| == MAX_ITERS
  {
    c.Open? ==>
      && SlotHandle(c.handle) && 1 <= |c.got| <= n && c.got == FirstItems(|c.got|)
      && slots[IndexOf(c.handle)] == if |c.got| < n then Some(|c.got|) else None
  }

  ghost predicate CursorsHold(s: State, n: nat) {
    && |s.slots| == |s.cursors| == MAX_ITERS
    && forall j :: 0 <= j < MAX_ITERS ==> CursorHolds(s.cursors[j], s.slots, n)
  }

  /** In a table of two or more items no two iterations share a slot. */
  predicate DistinctHandles(cursors: seq<Cursor>, n: nat) {
    n >= 2 ==> forall i, j :: 0 <= i < j < |cursors| && cursors[i].Open? && cursors[j].Open? ==> cursors[i].handle != cursors[j].handle
  }

  predicate SlotsOwned(s: State) {
    forall k :: 0 <= k < |s.slots| && s.slots[k] != None ==> Owned(s, k)
  }

  ghost predicate Inv(s: State, n: nat) {
    CursorsHold(s, n) && DistinctHandles(s.cursors, n) && SlotsOwned(s)
  }

  /** Some open iteration uses the slot. */
  predicate Owned(s: State, k: nat) {
    exists j :: 0 <= j < |s.cursors| && s.cursors[j].Open? && s.cursors[j].handle == FLAG_VALID + k
  }

  lemma OwnerOf(s: State, k: nat) returns (j: nat)
    requires SlotsOwned(s) && k < |s.slots| && s.slots[k] != None
    ensures j < |s.cursors| && s.cursors[j].Open? && s.cursors[j].handle == FLAG_VALID + k
  {
    assert Owned(s, k);
    j :| 0 <= j < |s.cursors| && s.cursors[j].Open? && s.cursors[j].handle == FLAG_VALID + k;
  }

  lemma FourBelowFour(a: nat, b: nat, c: nat, d: nat, j: nat)
    requires a < 4 && b < 4 && c < 4 && d < 4 && j < 4
    requires a != b && a != c && a != d && b != c && b != d && c != d
    ensures j == a || j == b || j == c || j == d
  {
  }

  /** When every slot is in use, every iteration is open. */
  lemma SlotsInUse(s: State, j: nat)
    requires |s.slots| == |s.cursors| == MAX_ITERS && SlotsOwned(s) && j < MAX_ITERS
    requires forall k :: 0 <= k < MAX_ITERS ==> s.slots[k] != None
    ensures s.cursors[j].Open?
  {
    var a := OwnerOf(s, 0);
    var b := OwnerOf(s, 1);
    var c := OwnerOf(s, 2);
    var d := OwnerOf(s, 3);
    FourBelowFour(a, b, c, d, j);
  }

  lemma FreeSlot(s: State, user: nat, n: nat)
    requires Inv(s, n) && user < MAX_ITERS && s.cursors[user].Closed?
    ensures FirstFree(s.slots, 0) < MAX_ITERS
  {
    if FirstFree(s.slots, 0) == MAX_ITERS {
      SlotsInUse(s, user);
    }
  }

  lemma FlagsOfNew()
    ensures HasFlag(FLAG_NEW, FLAG_NEW)
  {
    assert FLAG_NEW / FLAG_NEW == 1;
  }

  lemma IndexOfHandle(k: nat)
    requires k < MAX_ITERS
    ensures IndexOf(FLAG_VALID + k) == k
  {
    assert FLAG_VALID == 4 * 0x800_0000;
  }

  lemma NewHandle(s: State, n: nat)
    requires |s.slots| == MAX_ITERS && FirstFree(s.slots, 0) < MAX_ITERS
    ensures
      var k := FirstFree(s.slots, 0);
      Iterate(n, s.slots, FLAG_NEW) ==
        if n > 0 then Outcome(Good, s.slots[k := Successor(0, n)], FLAG_VALID + k, Some(0))
        else Outcome(IterDone, s.slots, FLAG_VALID + k, None)
  {
    FlagsOfNew();
    IndexOfHandle(FirstFree(s.slots, 0));
    assert GetIter(s.slots, FLAG_NEW) == FLAG_VALID + FirstFree(s.slots, 0);
  }

  lemma HeldHandle(s: State, user: nat, n: nat)
    requires Inv(s, n) && user < MAX_ITERS && s.cursors[user].Open?
    ensures
      var c := s.cursors[user];
      var k := IndexOf(c.handle);
      c.handle == FLAG_VALID + k &&
      Iterate(n, s.slots, c.handle) ==
        if |c.got| < n then Outcome(Good, s.slots[k := Successor(|c.got|, n)], c.handle, Some(|c.got|))
        else Outcome(IterDone, s.slots, c.handle, None)
  {
    var c := s.cursors[user];
    assert CursorHolds(c, s.slots, n);
    var k := c.handle - FLAG_VALID;
    assert c.handle % 4 == k;
    assert c.handle / FLAG_NEW == 0 && c.handle / FLAG_RESET == 0 && c.handle / FLAG_VALID == 1;
  }

  /** The user holds slot `k`, or begins in it while it is free and, but in tiny tables, nobody's. */
  ghost predicate MayAdvance(s: State, user: nat, k: nat, got: seq<nat>, n: nat) {
    && Inv(s, n) && user < MAX_ITERS && k < MAX_ITERS && 1 <= |got| <= n && got == FirstItems(|got|)
    && (s.cursors[user].Closed? ==> s.slots[k] == None && (n < 2 || !HeldByOther(s, k, user)))
    && (s.cursors[user].Open? ==> s.cursors[user].handle == FLAG_VALID + k)
  }

  function Advanced(s: State, user: nat, k: nat, got: seq<nat>, n: nat): State
    requires user < |s.cursors| && k < |s.slots| && got != []
  {
    State(s.slots[k := Successor(|got| - 1, n)], s.cursors[user := Open(FLAG_VALID + k, got)])
  }

  lemma OtherHandles(s: State, user: nat, k: nat, got: seq<nat>, n: nat, j: nat)
    requires MayAdvance(s, user, k, got, n) && n >= 2 && j < MAX_ITERS && j != user && s.cursors[j].Open?
    ensures SlotHandle(s.cursors[j].handle) && s.cursors[j].handle != FLAG_VALID + k && IndexOf(s.cursors[j].handle) != k
  {
    var c := s.cursors[j];
    assert CursorHolds(c, s.slots, n);
    IndexOfHandle(c.handle - FLAG_VALID);
  }

  lemma FilledSlot(s: State, n: nat, k: nat)
    requires Inv(s, n) && k < MAX_ITERS
    ensures s.slots[k] != None ==> n >= 2 && HeldByOther(s, k, MAX_ITERS)
  {
    if s.slots[k] != None {
      var j := OwnerOf(s, k);
      IndexOfHandle(k);
      assert CursorHolds(s.cursors[j], s.slots, n);
    }
  }

  lemma AdvanceKeepsCursors(s: State, user: nat, k: nat, got: seq<nat>, n: nat)
    requires MayAdvance(s, user, k, got, n)
    ensures CursorsHold(Advanced(s, user, k, got, n), n)
  {
    var s' := Advanced(s, user, k, got, n);
    forall j | 0 <= j < MAX_ITERS
      ensures CursorHolds(s'.cursors[j], s'.slots, n)
    {
      if j == user {
        IndexOfHandle(k);
      } else if s.cursors[j].Open? {
        assert CursorHolds(s.cursors[j], s.slots, n);
        if n >= 2 {
          OtherHandles(s, user, k, got, n, j);
        } else {
          FilledSlot(s, n, k);
          assert s'.slots == s.slots;
        }
      }
    }
  }

  lemma AdvanceKeepsHandles(s: State, user: nat, k: nat, got: seq<nat>, n: nat)
    requires MayAdvance(s, user, k, got, n)
    ensures DistinctHandles(Advanced(s, user, k, got, n).cursors, n)
  {
    forall j | n >= 2 && 0 <= j < MAX_ITERS && j != user && s.cursors[j].Open?
      ensures s.cursors[j].handle != FLAG_VALID + k
    {
      OtherHandles(s, user, k, got, n, j);
    }
  }

  lemma AdvanceKeepsOwners(s: State, user: nat, k: nat, got: seq<nat>, n: nat)
    requires MayAdvance(s, user, k, got, n)
    ensures SlotsOwned(Advanced(s, user, k, got, n))
  {
    var s' := Advanced(s, user, k, got, n);
    assert s'.cursors[user].handle == FLAG_VALID + k;
    forall i | 0 <= i < MAX_ITERS && s'.slots[i] != None && i != k
      ensures Owned(s', i)
    {
      assert Owned(s, i);
      var j :| 0 <= j < MAX_ITERS && s.cursors[j].Open? && s.cursors[j].handle == FLAG_VALID + i;
      assert s'.cursors[j] == s.cursors[j];
    }
  }

  /** The user's slot moves on; the other iterations do not notice. */
  lemma AdvanceKeeps(s: State, user: nat, k: nat, got: seq<nat>, n: nat)
    requires MayAdvance(s, user, k, got, n)
    ensures Inv(Advanced(s, user, k, got, n), n)
  {
    AdvanceKeepsCursors(s, user, k, got, n);
    AdvanceKeepsHandles(s, user, k, got, n);
    AdvanceKeepsOwners(s, user, k, got, n);
  }

  lemma CloseKeepsOwners(s: State, user: nat, n: nat)
    requires Inv(s, n) && user < MAX_ITERS && (s.cursors[user].Open? ==> AtEnd(s.cursors[user], n))
    ensures SlotsOwned(s.(cursors := s.cursors[user := Closed]))
  {
    var s' := s.(cursors := s.cursors[user := Closed]);
    forall i | 0 <= i < MAX_ITERS && s'.slots[i] != None
      ensures Owned(s', i)
    {
      assert Owned(s, i);
      var j :| 0 <= j < MAX_ITERS && s.cursors[j].Open? && s.cursors[j].handle == FLAG_VALID + i;
      IndexOfHandle(i);
      assert CursorHolds(s.cursors[j], s.slots, n);
      assert s'.cursors[j] == s.cursors[j];
    }
  }

  lemma CloseKeeps(s: State, user: nat, n: nat)
    requires Inv(s, n) && user < MAX_ITERS && (s.cursors[user].Open? ==> AtEnd(s.cursors[user], n))
    ensures Inv(s.(cursors := s.cursors[user := Closed]), n)
  {
    CloseKeepsOwners(s, user, n);
    var s' := s.(cursors := s.cursors[user := Closed]);
    forall j | 0 <= j < MAX_ITERS
      ensures CursorHolds(s'.cursors[j], s'.slots, n)
    {
      assert CursorHolds(s.cursors[j], s.slots, n);
    }
  }

  /** What a user must be told: the next item in insertion order, or that there are no more. */
  function Expected(s: State, e: Event, n: nat): (Status, Option<nat>)
    requires WellFormed(s, e)
  {
    if e.Misuse? then (InvalidIter, None) else
    var count := if e.Begin? then 0 else |s.cursors[e.user].got|;
    if count < n then (Good, Some(count)) else (IterDone, None)
  }

  lemma BegunState(s: State, user: nat, k: nat, n: nat)
    requires WellFormed(s, Begin(user)) && k < MAX_ITERS
    requires Iterate(n, s.slots, FLAG_NEW) == Outcome(Good, s.slots[k := Successor(0, n)], FLAG_VALID + k, Some(0))
    ensures Step(s, Begin(user), n) == Advanced(s, user, k, [0], n)
  {
    var o := Iterate(n, s.slots, FLAG_NEW);
    assert CallOf(s, Begin(user), n) == o;
    assert [] + [0] == [0] && |[0]| - 1 == 0;
  }

  lemma BeginCorrect(s: State, user: nat, n: nat)
    requires Inv(s, n) && Allowed(s, Begin(user), n)
    ensures var o := CallOf(s, Begin(user), n); (o.status, o.item) == Expected(s, Begin(user), n)
    ensures Inv(Step(s, Begin(user), n), n)
  {
    FreeSlot(s, user, n);
    NewHandle(s, n);
    if n > 0 {
      var k := FirstFree(s.slots, 0);
      assert [0] == FirstItems(1);
      AdvanceKeeps(s, user, k, [0], n);
      BegunState(s, user, k, n);
    } else {
      CloseKeeps(s, user, n);
    }
  }

  lemma ContinueCorrect(s: State, user: nat, n: nat)
    requires Inv(s, n) && Allowed(s, Continue(user), n)
    ensures var o := CallOf(s, Continue(user), n); (o.status, o.item) == Expected(s, Continue(user), n)
    ensures Inv(Step(s, Continue(user), n), n)
  {
    var c := s.cursors[user];
    HeldHandle(s, user, n);
    assert CursorHolds(c, s.slots, n);
    if |c.got| < n {
      var k, got := IndexOf(c.handle), c.got + [|c.got|];
      assert got == FirstItems(|got|);
      AdvanceKeeps(s, user, k, got, n);
      assert Step(s, Continue(user), n) == Advanced(s, user, k, got, n);
    } else {
      CloseKeeps(s, user, n);
    }
  }

  lemma MisuseCorrect(s: State, given: nat, n: nat)
    requires Inv(s, n) && Allowed(s, Misuse(given), n)
    ensures var o := CallOf(s, Misuse(given), n); (o.status, o.item) == (InvalidIter, None)
    ensures Step(s, Misuse(given), n) == s
  {
    RefusedCall(s.slots, given, n);
    FilledSlot(s, n, 3);
    assert s.slots[3 := None] == s.slots;
  }

  /** A harmless call gives its caller what it should and keeps every iteration where it is. */
  lemma StepCorrect(s: State, e: Event, n: nat)
    requires Inv(s, n) && Allowed(s, e, n)
    ensures var o := CallOf(s, e, n); (o.status, o.item) == Expected(s, e, n)
    ensures Inv(Step(s, e, n), n)
  {
    match e
    case Begin(user) => BeginCorrect(s, user, n);
    case Continue(user) => ContinueCorrect(s, user, n);
    case Misuse(given) => MisuseCorrect(s, given, n);
  }

  // ---------------------------------------------------------------- every disciplined run

  const START := State([None, None, None, None], [Closed, Closed, Closed, Closed])

  /** A run in which every call keeps to the discipline. */
  ghost predicate Disciplined(events: seq<Event>, n: nat) {
    events == [] ||
    var init := events[..|events| - 1];
    && Disciplined(init, n)
    && Allowed(Run(init, n), events[|events| - 1], n)
  }

  ghost function Run(events: seq<Event>, n: nat): State {
    if events == [] then START
    else
      var s, e := Run(events[..|events| - 1], n), events[|events| - 1];
      if WellFormed(s, e) then Step(s, e, n) else s
  }

  lemma {:induction false} RunInvariant(events: seq<Event>, n: nat)
    requires Disciplined(events, n)
    ensures Inv(Run(events, n), n)
  {
    if events != [] {
      var init := events[..|events| - 1];
      RunInvariant(init, n);
      StepCorrect(Run(init, n), events[|events| - 1], n);
    }
  }

  /**
   * However four iterations interleave, each call gives its user the next item in insertion
   * order and, after the last one and not before, that the iteration is over.
   */
  lemma IterationsAreIndependent(events: seq<Event>, e: Event, n: nat)
    requires Disciplined(events, n) && Allowed(Run(events, n), e, n)
    ensures
      var s := Run(events, n);
      && (var o := CallOf(s, e, n); (o.status, o.item) == Expected(s, e, n))
      && forall j :: 0 <= j < |s.cursors| && s.cursors[j].Open? ==> s.cursors[j].got == FirstItems(|s.cursors[j].got|)
  {
    RunInvariant(events, n);
    var s := Run(events, n);
    StepCorrect(s, e, n);
    forall j | 0 <= j < |s.cursors| && s.cursors[j].Open?
      ensures s.cursors[j].got == FirstItems(|s.cursors[j].got|)
    {
      assert CursorHolds(s.cursors[j], s.slots, n);
    }
  }

  // ---------------------------------------------------------------- the discipline is exact

  /** Every open iteration but the caller's would still be told what it should be. */
  ghost predicate OthersUndisturbed(s: State, slots: seq<Option<nat>>, caller: nat, n: nat)
    requires |slots| == |s.slots| == |s.cursors| == MAX_ITERS
  {
    forall j :: 0 <= j < MAX_ITERS && j != caller && s.cursors[j].Open? ==>
      var o := Iterate(n, slots, s.cursors[j].handle);
      (o.status, o.item) == Expected(s, Continue(j), n)
  }

  /** What a call with a slot's own handle gives is what the slot holds. */
  lemma CallReadsSlot(slots: seq<Option<nat>>, handle: nat, n: nat)
    requires |slots| == MAX_ITERS && SlotHandle(handle)
    ensures
      var o, k := Iterate(n, slots, handle), handle - FLAG_VALID;
      (o.status, o.item) == if slots[k].Some? then (Good, slots[k]) else (IterDone, None)
  {
    var k := handle - FLAG_VALID;
    IndexOfHandle(k);
    assert handle / FLAG_NEW == 0 && handle / FLAG_RESET == 0 && handle / FLAG_VALID == 1;
  }

  lemma RefusedCall(slots: seq<Option<nat>>, handle: nat, n: nat)
    requires |slots| == MAX_ITERS && GetIter(slots, handle) == ITER_INVALID
    ensures Iterate(n, slots, handle) == Outcome(InvalidIter, slots[3 := None], 3 + FLAG_DONE, None)
  {
    assert IndexOf(ITER_INVALID) == 3;
  }

  /** The one slot a call writes, and what it leaves there. */
  function Written(slots: seq<Option<nat>>, handle: nat, n: nat): (w: (nat, Option<nat>))
    requires |slots| == MAX_ITERS
    ensures w.0 < MAX_ITERS
  {
    var iter := GetIter(slots, handle);
    var k := IndexOf(iter);
    if iter == ITER_INVALID then (k, None)
    else if HasFlag(handle, FLAG_NEW) then (k, if n < 2 then None else Some(1))
    else (k, if slots[k].Some? then Successor(slots[k].value, n) else None)
  }

  lemma CallWrites(slots: seq<Option<nat>>, handle: nat, n: nat)
    requires |slots| == MAX_ITERS
    ensures
      var (k, v) := Written(slots, handle, n);
      Iterate(n, slots, handle).slots == slots[k := v]
  {
    var iter := GetIter(slots, handle);
    if HasFlag(handle, FLAG_NEW) && iter != ITER_INVALID {
      IndexOfHandle(FirstFree(slots, 0));
    }
    var k := IndexOf(iter);
    assert slots[k := slots[k]] == slots;
  }

  /** One other iteration is told what it should be exactly when its slot is as it was. */
  lemma UndisturbedSlot(s: State, k: nat, v: Option<nat>, j: nat, n: nat)
    requires Inv(s, n) && k < MAX_ITERS && j < MAX_ITERS && s.cursors[j].Open?
    ensures
      var o := Iterate(n, s.slots[k := v], s.cursors[j].handle);
      (o.status, o.item) == Expected(s, Continue(j), n) <==> s.cursors[j].handle != FLAG_VALID + k || s.slots[k] == v
  {
    var c := s.cursors[j];
    assert CursorHolds(c, s.slots, n);
    IndexOfHandle(c.handle - FLAG_VALID);
    CallReadsSlot(s.slots[k := v], c.handle, n);
  }

  lemma UndisturbedSlots(s: State, k: nat, v: Option<nat>, caller: nat, n: nat)
    requires Inv(s, n) && k < MAX_ITERS
    ensures OthersUndisturbed(s, s.slots[k := v], caller, n) <==> s.slots[k] == v || !HeldByOther(s, k, caller)
  {
    forall j | 0 <= j < MAX_ITERS && s.cursors[j].Open?
      ensures
        var o := Iterate(n, s.slots[k := v], s.cursors[j].handle);
        (o.status, o.item) == Expected(s, Continue(j), n) <==> s.cursors[j].handle != FLAG_VALID + k || s.slots[k] == v
    {
      UndisturbedSlot(s, k, v, j, n);
    }
  }

  /**
   * For every handle that anyone may pass: the other iterations go on undisturbed exactly when
   * the call is harmless.
   */
  lemma UndisturbedIffHarmless(s: State, handle: nat, caller: nat, n: nat)
    requires Inv(s, n)
    ensures OthersUndisturbed(s, Iterate(n, s.slots, handle).slots, caller, n) <==> Harmless(s, handle, caller, n)
  {
    CallWrites(s.slots, handle, n);
    var (k, v) := Written(s.slots, handle, n);
    UndisturbedSlots(s, k, v, caller, n);
    HarmlessIsUnchanged(s, handle, caller, n);
  }

  lemma HarmlessIsUnchanged(s: State, handle: nat, caller: nat, n: nat)
    requires |s.slots| == MAX_ITERS
    ensures
      var (k, v) := Written(s.slots, handle, n);
      Harmless(s, handle, caller, n) <==> s.slots[k] == v || !HeldByOther(s, k, caller)
  {
    var iter := GetIter(s.slots, handle);
    assert IndexOf(ITER_INVALID) == 3;
    if HasFlag(handle, FLAG_NEW) && iter != ITER_INVALID {
      IndexOfHandle(FirstFree(s.slots, 0));
    }
  }

  /**
   * After any disciplined run, the discipline asks no more of the next call than it must: the
   * call is allowed exactly when it leaves the other iterations undisturbed.
   */
  lemma DisciplineIsExact(events: seq<Event>, e: Event, n: nat)
    requires Disciplined(events, n) && WellFormed(Run(events, n), e)
    ensures
      var s := Run(events, n);
      Allowed(s, e, n) <==> OthersUndisturbed(s, Step(s, e, n).slots, CallerOf(e), n)
  {
    RunInvariant(events, n);
    var s := Run(events, n);
    UndisturbedIffHarmless(s, HandleOf(s, e), CallerOf(e), n);
  }

  /** A begin disturbs nobody exactly when the lowest free slot is not that of an iteration at its end. */
  lemma BeginUndisturbedIff(s: State, user: nat, n: nat)
    requires Inv(s, n) && n >= 2 && user < MAX_ITERS && s.cursors[user].Closed?
    ensures OthersUndisturbed(s, Step(s, Begin(user), n).slots, user, n) <==>
      forall j :: 0 <= j < MAX_ITERS && AtEnd(s.cursors[j], n) ==> s.cursors[j].handle != FLAG_VALID + FirstFree(s.slots, 0)
  {
    FreeSlot(s, user, n);
    FlagsOfNew();
    UndisturbedIffHarmless(s, FLAG_NEW, user, n);
    var k := FirstFree(s.slots, 0);
    IndexOfHandle(k);
    forall j | 0 <= j < MAX_ITERS && s.cursors[j].Open? && s.cursors[j].handle == FLAG_VALID + k
      ensures AtEnd(s.cursors[j], n)
    {
      assert CursorHolds(s.cursors[j], s.slots, n);
    }
  }

  /** A refused call, whatever its handle, disturbs nobody exactly when slot 3 is empty. */
  lemma RefusalUndisturbedIff(s: State, handle: nat, n: nat)
    requires Inv(s, n) && GetIter(s.slots, handle) == ITER_INVALID
    ensures OthersUndisturbed(s, Iterate(n, s.slots, handle).slots, MAX_ITERS, n) <==> s.slots[3] == None
  {
    UndisturbedIffHarmless(s, handle, MAX_ITERS, n);
    FilledSlot(s, n, 3);
  }

  // ---------------------------------------------------------------- outside the discipline

  /**
   * An iteration begun while another is at its end takes over that one's slot if it is the
   * lowest free one, and the other, instead of ending, gets the second item again.
   */
  lemma BegunAtEndSharesSlot(s: State, user: nat, other: nat, n: nat)
    requires Inv(s, n) && n >= 2 && user < MAX_ITERS && other < MAX_ITERS && s.cursors[user].Closed?
    requires AtEnd(s.cursors[other], n) && s.cursors[other].handle == FLAG_VALID + FirstFree(s.slots, 0)
    ensures
      var s' := Step(s, Begin(user), n);
      && s'.cursors[other] == s.cursors[other]
      && CallOf(s', Continue(other), n).item == Some(1) && Expected(s', Continue(other), n) == (IterDone, None)
  {
    FreeSlot(s, user, n);
    NewHandle(s, n);
    IndexOfHandle(FirstFree(s.slots, 0));
    CallReadsSlot(Step(s, Begin(user), n).slots, s.cursors[other].handle, n);
  }

  /** A refused call ends the iteration that uses the last slot, whatever it has still to get. */
  lemma RefusalEndsAnother(s: State, handle: nat, other: nat, n: nat)
    requires Inv(s, n) && GetIter(s.slots, handle) == ITER_INVALID
    requires other < MAX_ITERS && s.cursors[other].Open? && s.cursors[other].handle == FLAG_VALID + 3
    ensures
      var o := Iterate(n, s.slots, handle);
      && o.status == InvalidIter && Iterate(n, o.slots, s.cursors[other].handle).status == IterDone
      && (s.slots[3] != None ==> |s.cursors[other].got| < n)
  {
    IndexOfHandle(3);
    assert CursorHolds(s.cursors[other], s.slots, n);
    RefusedCall(s.slots, handle, n);
    CallReadsSlot(s.slots[3 := None], s.cursors[other].handle, n);
  }

  /** Refused are: a fifth iteration, every reset, and the very handle that a refusal gives back. */
  lemma WhatIsRefused(slots: seq<Option<nat>>, handle: nat, n: nat)
    requires |slots| == MAX_ITERS
    ensures FirstFree(slots, 0) == MAX_ITERS ==> GetIter(slots, FLAG_NEW) == ITER_INVALID
    ensures HasFlag(handle, FLAG_RESET) && !HasFlag(handle, FLAG_NEW) ==> GetIter(slots, handle) == ITER_INVALID
    ensures GetIter(slots, handle) == ITER_INVALID ==>
      var back := Iterate(n, slots, handle).handle;
      GetIter(slots[3 := None], back) == ITER_INVALID
  {
    FlagsOfNew();
    if GetIter(slots, handle) == ITER_INVALID {
      RefusedCall(slots, handle, n);
    }
    var done := 3 + FLAG_DONE;
    assert done / FLAG_NEW == 0 && done / FLAG_RESET == 0 && done / FLAG_VALID == 0;
  }
}
