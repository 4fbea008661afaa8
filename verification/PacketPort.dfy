/**
 * The packet layer on its buffers: the client fills the transmit buffer in place, the dispatcher
 * reads it and fills the receive buffer in place, and the client reads the answer from there.
 */
module PacketPorts {
  import opened Buffers
  import opened Packets

  /** Write a wrapper over the start of a buffer, field by field; the tag is left alone. */
  method PutWrapper(buffer: array<byte>, funcId: nat, packType: byte, op: byte, size: nat)
    requires buffer.Length == PACK_SIZE
    modifies buffer
    ensures
      var w := Wrapper(funcId, packType, op, FromU16(old(buffer[..])[4..6]), size);
      buffer[..] == Overwrite(old(buffer[..]), WrapperBytes(w))
  {
    ghost var before := buffer[..];
    buffer[0], buffer[1] := funcId % 256, (funcId / 256) % 256;
    buffer[2] := packType;
    buffer[6], buffer[7] := size % 256, (size / 256) % 256;
    buffer[3] := op;
    ghost var tag := FromU16(before[4..6]);
    assert U16(tag) == before[4..6];
    assert buffer[..] == U16(funcId) + [packType, op] + U16(tag) + U16(size) + before[8..];
  }

  /** A created function, the device behind it and the two buffers between it and its client. */
  class Port<D(!new)> {
    const f: Function<D>
    const tx: array<byte>
    const rx: array<byte>
    var device: D

    ghost predicate Valid() {
      && tx.Length == rx.Length == PACK_SIZE && tx != rx
      && f.Function? && Usable(f)
    }

    constructor (f: Function<D>, device: D)
      requires f.Function? && Usable(f)
      ensures Valid() && this.f == f && this.device == device && fresh(tx) && fresh(rx)
    {
      this.f, this.device := f, device;
      tx, rx := new byte[PACK_SIZE](_ => 0), new byte[PACK_SIZE](_ => 0);
    }

    /** Build the request for a call. */
    method Fill(call: Call, wide: bool)
      requires Valid() && Sized(f, call)
      modifies tx
      ensures tx[..] == Request(f, call, wide, old(tx[..]))
    {
      ghost var before := tx[..];
      var packType: byte := if call.Sort? then PACK_ACTION else PACK_ALIGN;
      PutWrapper(tx, f.handle, packType, OpOf(call), TxSize(f, call, wide));
      var payload := Payload(call);
      Copy(tx, WRAPPER_SIZE, payload);
      ghost var w := Wrapper(f.handle, packType, OpOf(call), FromU16(before[4..6]), TxSize(f, call, wide));
      assert tx[..] == WrapperBytes(w) + payload + before[8 + |payload|..];
    }

    /** Close a response: the error flag, size and status, or the size. */
    method FinishResponse(w: Wrapper, status: Status, txBytes: nat, ghost body: seq<byte>, ghost resp0: seq<byte>)
      returns (sent: nat)
      requires Valid() && |resp0| == PACK_SIZE && WRAPPER_SIZE + |body| <= PACK_SIZE
      requires rx[..] == Overwrite(resp0, WrapperBytes(w) + body)
      modifies rx
      ensures rx[..] == Finish(w, body, resp0, status, txBytes)
      ensures sent == if status != RET_GOOD then RESP_ERR_SIZE else txBytes
    {
      if status != RET_GOOD {
        Copy(rx, 0, WrapperBytes(w.(packType := SetFlag(w.packType, FLAG_ERR), size := RESP_ERR_SIZE)) + U32(status));
        sent := RESP_ERR_SIZE;
      } else {
        Copy(rx, 0, WrapperBytes(w.(size := txBytes)));
        sent := txBytes;
      }
    }

    /** The handler that the packet type selects; what it did to the response is in `body`. */
    method CallHandler(w: Wrapper, packType: byte, ghost resp0: seq<byte>) returns (status: Status, length: nat, ghost body: seq<byte>)
      requires Valid() && |resp0| == PACK_SIZE && w.op < MAX_OPS && KnownType(packType) && packType != PACK_OPCODE_ONLY
      requires rx[..] == Overwrite(resp0, WrapperBytes(w))
      requires !f.handlers(w.op).NoHandler? && WellTyped(f, w.(packType := packType)) && w.size == WrapperOf(tx[..]).size
      modifies this`device, rx
      ensures WRAPPER_SIZE + |body| <= PACK_SIZE && rx[..] == Overwrite(resp0, WrapperBytes(w) + body)
      ensures
        match f.handlers(w.op)
        case Reader(read) =>
          (status, body) == read(device, tx[8..8 + f.idxSize]) && length == WRAPPER_SIZE + f.dataSize && device == old(device)
        case Writer(write) =>
          && (device, status) == write(old(device), tx[8..8 + f.idxSize], tx[8 + f.idxSize..8 + f.idxSize + f.dataSize])
          && length == WRAPPER_SIZE && body == []
        case Actor(act) =>
          w.size < 65536 && (device, status) == act(old(device), tx[8..], ActionLength(w.size)) && length == WRAPPER_SIZE && body == []
        case Fivo(answer) => (device, status, body, length) == answer(old(device), tx[FIVO_HEADER_SIZE..], FivoLength(tx[..]))
        case _ => false
    {
      body := [];
      if packType == PACK_ALIGN || packType == KPACK {
        if w.op % 2 == 1 {
          var (st, data) := f.handlers(w.op).read(device, tx[8..8 + f.idxSize]);
          Copy(rx, WRAPPER_SIZE, data);
          status, length, body := st, WRAPPER_SIZE + f.dataSize, data;
        } else {
          var (device', st) := f.handlers(w.op).write(device, tx[8..8 + f.idxSize], tx[8 + f.idxSize..8 + f.idxSize + f.dataSize]);
          device, status, length := device', st, WRAPPER_SIZE;
        }
      } else if packType == PACK_ACTION {
        WrapperSizeBounded(tx[..]);
        var (device', st) := f.handlers(w.op).act(device, tx[8..], ActionLength(w.size));
        device, status, length := device', st, WRAPPER_SIZE;
      } else {
        var (device', st, data, l) := f.handlers(w.op).answer(device, tx[FIVO_HEADER_SIZE..], FivoLength(tx[..]));
        Copy(rx, WRAPPER_SIZE, data);
        device, status, length, body := device', st, l, data;
      }
    }

    /** An opcode-only handler is given the whole response buffer. */
    method CallFiller(w: Wrapper, ghost resp0: seq<byte>) returns (txBytes: nat)
      requires Valid() && |resp0| == PACK_SIZE && rx[..] == Overwrite(resp0, WrapperBytes(w)) && f.handlers(w.op).OpcodeOnly?
      modifies this`device, rx
      ensures
        var (device', status, filled, length) := f.handlers(w.op).fill(old(device), Overwrite(resp0, WrapperBytes(w)));
        && device == device' && |filled| == PACK_SIZE
        && rx[..] == Finish(WrapperOf(filled), filled[8..], filled, status, length)
        && txBytes == if status != RET_GOOD then RESP_ERR_SIZE else length
    {
      var (device', status, filled, length) := f.handlers(w.op).fill(device, rx[..]);
      Copy(rx, 0, filled);
      assert rx[..] == filled;
      device := device';
      WrapperBytesRoundTrip(filled);
      assert filled == WrapperBytes(WrapperOf(filled)) + filled[8..];
      txBytes := FinishResponse(WrapperOf(rx[..]), status, length, filled[8..], filled);
    }

    /** am_pack_process_cmd. */
    method ProcessCmd() returns (txBytes: nat)
      requires Valid() && WellTyped(f, WrapperOf(tx[..]))
      modifies this`device, rx
      ensures
        var o := Process(f, old(device), tx[..], old(rx[..]));
        device == o.device && rx[..] == o.resp && txBytes == o.txBytes
    {
      ghost var resp0 := rx[..];
      var request := WrapperOf(tx[..]);
      var w := request.(packType := SetFlag(request.packType, FLAG_RESP));
      Copy(rx, 0, WrapperBytes(w));
      var status, length: nat;
      ghost var body: seq<byte> := [];
      if f.handlers(w.op).NoHandler? {
        status, length := RET_INVALID_OPCODE, 0;
      } else if request.packType == PACK_OPCODE_ONLY {
        txBytes := CallFiller(w, resp0);
        return;
      } else if KnownType(request.packType) {
        status, length, body := CallHandler(w, request.packType, resp0);
      } else {
        status, length := RET_INVALID_PACK_OP, 0;
      }
      assert rx[..] == Overwrite(resp0, WrapperBytes(w) + body);
      txBytes := FinishResponse(w, status, length, body, resp0);
    }

    /** Encode, execute, decode: one call, sent as its generic or as its 32-bit form. */
    method Invoke(call: Call, wide: bool) returns (r: Result)
      requires Valid() && Sized(f, call) && (Registered(f, call) || f.handlers(OpOf(call)).NoHandler?)
      modifies this`device, tx, rx
      ensures tx[..] == Request(f, call, wide, old(tx[..]))
      ensures (device, r) == Packet(f, old(device), call, wide, old(tx[..]), old(rx[..]))
    {
      RequestWellTyped(f, call, wide, tx[..]);
      Fill(call, wide);
      var sent := ProcessCmd();
      var status := ResponseStatus(rx[..]);
      if status != RET_GOOD || !call.Read? {
        r := Result(status, []);
      } else if WrapperOf(rx[..]).size >= if wide then READ_ALIGN_SIZE else WRAPPER_SIZE + f.dataSize {
        r := Result(RET_GOOD, rx[8..8 + f.dataSize]);
      } else {
        r := Result(if wide then RET_IO_UNDERRUN else RET_IO_ERR, []);
      }
    }

    /** A read or a write in the form am_set_pack_access selects for the function's sizes. */
    method Access(call: Call) returns (r: Result)
      requires Valid() && !call.Sort? && Sized(f, call) && Registered(f, call)
      modifies this`device, tx, rx
      ensures (device, r) == Direct(f, old(device), call)
      ensures WrapperOf(tx[..]).size == 8 + |Payload(call)| + (if call.Write? && f.dataSize == 4 && f.idxSize == 4 then 1 else 0)
    {
      var wide := f.dataSize == 4 && f.idxSize == 4;
      AccessIsTransparent(f, device, call, wide, tx[..], rx[..]);
      RequestFields(f, call, wide, tx[..]);
      AnnouncedLength(f, call, wide);
      r := Invoke(call, wide);
    }

    /** am_pack_sort. */
    method SortDevice(param: seq<byte>, ghost need: nat, ghost body: (D, seq<byte>) -> (D, Status)) returns (r: Result)
      requires Valid() && Sized(f, Sort(param)) && Registered(f, Sort(param))
      requires LooksAt(f.handlers(OP_SORT).act, need, body) && need <= PACK_SIZE - WRAPPER_SIZE
      modifies this`device, tx, rx
      ensures !(need <= |param| + 2 < need + 2) ==> (device, r) == Direct(f, old(device), Sort(param))
      ensures need <= |param| + 2 < need + 2 ==>
        var (device', status) := body(old(device), Seen(param, old(tx[..]))[..need]);
        device == device' && r == Result(status, [])
    {
      SortIsTransparentIff(f, device, param, false, tx[..], rx[..], need, body);
      SortThroughPackets(f, device, param, false, tx[..], rx[..]);
      r := Invoke(Sort(param), false);
    }
  }
}
