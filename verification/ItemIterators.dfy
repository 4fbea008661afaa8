/** The iterator slots in memory: pointers to items of a hash table, moved along its insertion order. */
module ItemIterators {
  import opened Bits
  import opened Elements
  import opened HashModel
  import opened HashTables
  import opened Iterators

  /** The item at a position of the insertion order, or null. */
  ghost predicate ItemAt(order: seq<Node>, at: Option<nat>, item: Node?) {
    match at
    case None => item == null
    case Some(p) => p < |order| && item == order[p]
  }

  class IterArray {
    const table: HashTable
    const slots: array<Node?>

    constructor (table: HashTable)
      ensures this.table == table && fresh(slots) && Tracks([None, None, None, None])
    {
      this.table := table;
      slots := new Node?[MAX_ITERS](_ => null);
    }

    /** The slots point at the items of these positions. */
    ghost predicate Tracks(at: seq<Option<nat>>)
      reads slots, table`model
    {
      slots.Length == MAX_ITERS == |at| && forall k :: 0 <= k < MAX_ITERS ==> ItemAt(table.model.order, at[k], slots[k])
    }

    /** am_assca_get_iter. */
    method GetHandle(handle: nat, ghost at: seq<Option<nat>>) returns (iter: nat)
      requires Tracks(at)
      ensures iter == GetIter(at, handle)
    {
      iter := ITER_INVALID;
      if HasFlag(handle, FLAG_NEW) {
        var i := 0;
        while i < MAX_ITERS
          invariant 0 <= i <= MAX_ITERS && iter == ITER_INVALID
          invariant FirstFree(at, 0) == FirstFree(at, i)
        {
          assert ItemAt(table.model.order, at[i], slots[i]);
          if slots[i] == null {
            iter := FLAG_VALID + i;
            break;
          }
          i := i + 1;
        }
      } else if HasFlag(handle, FLAG_RESET) {
      } else if HasFlag(handle, FLAG_VALID) {
        iter := handle;
      }
    }

    /** The item a call starts from: the table's head, or the one in its slot. */
    method Current(fromHead: bool, k: nat, ghost at: seq<Option<nat>>) returns (item: Node?, ghost p: Option<nat>)
      requires table.Valid() && Tracks(at) && k < MAX_ITERS
      ensures p == if fromHead then (if |table.model.order| > 0 then Some(0) else None) else at[k]
      ensures ItemAt(table.model.order, p, item)
    {
      if fromHead {
        item := table.head;
        p := if |table.model.order| > 0 then Some(0) else None;
        assert table.OrderLinked(table.model.order);
      } else {
        item, p := slots[k], at[k];
      }
    }

    method Following(item: Node, ghost p: nat) returns (next: Node?)
      requires table.Valid() && p < |table.model.order| && item == table.model.order[p]
      ensures ItemAt(table.model.order, Successor(p, |table.model.order|), next)
    {
      table.NextItem(p);
      next := item.next;
    }

    method SetSlot(k: nat, item: Node?, ghost p: Option<nat>, ghost at: seq<Option<nat>>)
      requires Tracks(at) && k < MAX_ITERS && ItemAt(table.model.order, p, item)
      modifies slots
      ensures Tracks(at[k := p])
    {
      slots[k] := item;
    }

    /** Give the current item, if there is one, and move the slot on to its successor. */
    method Take(fromHead: bool, k: nat, ghost at: seq<Option<nat>>) returns (status: Status, item: Node?, ghost at': seq<Option<nat>>)
      requires table.Valid() && Tracks(at) && k < MAX_ITERS
      modifies slots
      ensures Tracks(at')
      ensures
        var n := |table.model.order|;
        var p := if fromHead then (if n > 0 then Some(0) else None) else at[k];
        && ItemAt(table.model.order, p, item)
        && if p.Some? then status == Good && at' == at[k := Successor(p.value, n)] else status == IterDone && at' == at
    {
      ghost var p;
      item, p := Current(fromHead, k, at);
      if item != null {
        var next := Following(item, p.value);
        SetSlot(k, next, Successor(p.value, |table.model.order|), at);
        status, at' := Good, at[k := Successor(p.value, |table.model.order|)];
      } else {
        status, at' := IterDone, at;
      }
    }

    /** am_assca_iter: what the model's call gives, with the item for its position. */
    method Next(handle: nat, ghost at: seq<Option<nat>>) returns (status: Status, handle': nat, item: Node?, ghost at': seq<Option<nat>>)
      requires table.Valid() && Tracks(at)
      modifies slots
      ensures Tracks(at')
      ensures
        var o := Iterate(|table.model.order|, at, handle);
        status == o.status && handle' == o.handle && at' == o.slots && ItemAt(table.model.order, o.item, item)
    {
      var fromHead := HasFlag(handle, FLAG_RESET) || HasFlag(handle, FLAG_NEW);
      var iter := GetHandle(handle, at);
      var k := IndexOf(iter);
      if iter != ITER_INVALID {
        handle' := iter;
        status, item, at' := Take(fromHead, k, at);
      } else {
        handle' := k + FLAG_DONE;
        SetSlot(k, null, None, at);
        status, item, at' := InvalidIter, null, at[k := None];
      }
    }
  }
}
