/**
 * The packet layer: requests and responses as 512-byte buffers, the dispatcher that executes a
 * request, and the client calls that build requests and read responses. The main results say
 * that going through packets cannot be told from calling the device function directly.
 */
module Packets {
  import opened Bits
  import opened Buffers

  // ---------------------------------------------------------------- constants

  const PACK_SIZE := 512
  const WRAPPER_SIZE := 8
  const READ_ALIGN_SIZE := 12
  const WRITE_ALIGN_SIZE := 10  // eight bytes of wrapper, one of data, one of padding
  const RESP_ERR_SIZE := 12

  const PACK_OPCODE_ONLY: byte := 1
  const PACK_FIVO: byte := 2
  const PACK_ALIGN: byte := 3
  const PACK_ACTION: byte := 4
  const KPACK: byte := 5
  const MAX_OPS := 64
  const FIVO_HEADER_SIZE := 16
  const FLAG_RESP := 0x80
  const FLAG_ERR := 0x40

  const OP_SORT: byte := 8
  const OP_WRITE_ALIGN: byte := 16
  const OP_READ_ALIGN: byte := 17

  const RET_GOOD := 0
  const RET_PARAM_ERR := 1
  const RET_IO_ERR := 3
  const RET_IO_UNDERRUN := 10
  const RET_INVALID_FUNC := 6
  const RET_INVALID_PACK_OP := 13
  const RET_INVALID_OPCODE := 15

  type Status = x: int | 0 <= x < 0x8000_0000

  // ---------------------------------------------------------------- fields of a buffer

  /** Bitwise OR with a one-bit flag. */
  function SetFlag(b: byte, flag: nat): byte
    requires flag == FLAG_RESP || flag == FLAG_ERR
  {
    if HasFlag(b, flag) then b else b + flag
  }

  /** AM_PACK_WRAPPER_T. */
  datatype Wrapper = Wrapper(funcId: nat, packType: byte, op: byte, appTag: nat, size: nat)

  function WrapperBytes(w: Wrapper): (b: seq<byte>)
    ensures |b| == WRAPPER_SIZE
  {
    U16(w.funcId) + [w.packType, w.op] + U16(w.appTag) + U16(w.size)
  }

  function WrapperOf(b: seq<byte>): Wrapper
    requires WRAPPER_SIZE <= |b|
  {
    Wrapper(FromU16(b[0..2]), b[2], b[3], FromU16(b[4..6]), FromU16(b[6..8]))
  }

  /** Wrappers come back from the bytes as they went in, fields cut to their widths. */
  lemma WrapperRoundTrip(w: Wrapper, rest: seq<byte>)
    ensures WrapperOf(WrapperBytes(w) + rest) ==
      w.(funcId := w.funcId % 65536, appTag := w.appTag % 65536, size := w.size % 65536)
  {
    var b := WrapperBytes(w) + rest;
    assert b[0..2] == U16(w.funcId) && b[4..6] == U16(w.appTag) && b[6..8] == U16(w.size);
    U16Truncates(w.funcId);
    U16Truncates(w.appTag);
    U16Truncates(w.size);
  }

  /** Where each field lies, low byte first. */
  lemma WrapperLayout(w: Wrapper)
    ensures
      var b := WrapperBytes(w);
      && b[0] == w.funcId % 256 && b[1] == w.funcId / 256 % 256 && b[2] == w.packType && b[3] == w.op
      && b[4] == w.appTag % 256 && b[5] == w.appTag / 256 % 256 && b[6] == w.size % 256 && b[7] == w.size / 256 % 256
  {
  }

  /** ... and the bytes from the fields. */
  lemma WrapperBytesRoundTrip(b: seq<byte>)
    requires WRAPPER_SIZE <= |b|
    ensures WrapperBytes(WrapperOf(b)) == b[..8]
  {
    assert U16(FromU16(b[0..2])) == b[0..2] && U16(FromU16(b[4..6])) == b[4..6] && U16(FromU16(b[6..8])) == b[6..8];
  }

  // ---------------------------------------------------------------- devices

  /**
   * An entry of a device's operation table; `NoHandler` is a null pointer. An opcode-only handler
   * fills the response buffer as it likes; a fixed-in-variable-out one gives the bytes behind the
   * wrapper. Both report a length.
   */
  datatype Handler<!D> =
    | NoHandler
    | Reader(read: (D, seq<byte>) -> (Status, seq<byte>))
    | Writer(write: (D, seq<byte>, seq<byte>) -> (D, Status))
    | Actor(act: (D, seq<byte>, nat) -> (D, Status))
    | OpcodeOnly(fill: (D, seq<byte>) -> (D, Status, seq<byte>, nat))
    | Fivo(answer: (D, seq<byte>, nat) -> (D, Status, seq<byte>, nat))

  /** A created function: its operation table and the sizes its creation reported; or a null pointer. */
  datatype Function<!D> =
    | NoFunction
    | Function(handlers: byte -> Handler<D>, handle: nat, idxSize: nat, dataSize: nat)

  /** Index and data fit a packet, reads give exactly `dataSize` bytes and no response outgrows its buffer. */
  ghost predicate Usable<D(!new)>(f: Function<D>) {
    f.Function? ==>
      && WRAPPER_SIZE + f.idxSize + f.dataSize <= PACK_SIZE
      && (forall op: byte, d: D, idx :: f.handlers(op).Reader? ==> |f.handlers(op).read(d, idx).1| == f.dataSize)
      && (forall op: byte, d: D, resp :: f.handlers(op).OpcodeOnly? && |resp| == PACK_SIZE ==>
            |f.handlers(op).fill(d, resp).2| == PACK_SIZE)
      && (forall op: byte, d: D, data, l :: f.handlers(op).Fivo? ==>
            WRAPPER_SIZE + |f.handlers(op).answer(d, data, l).2| <= PACK_SIZE)
  }

  predicate KnownType(packType: byte) {
    PACK_OPCODE_ONLY <= packType <= KPACK
  }

  /** The operation is in the table, and its handler has the type that the packet type calls it with. */
  predicate WellTyped<D>(f: Function<D>, w: Wrapper) {
    f.Function? ==>
      && w.op < MAX_OPS
      && (KnownType(w.packType) ==>
            match f.handlers(w.op)
            case NoHandler => true
            case Reader(_) => (w.packType == PACK_ALIGN || w.packType == KPACK) && w.op % 2 == 1
            case Writer(_) => (w.packType == PACK_ALIGN || w.packType == KPACK) && w.op % 2 == 0
            case Actor(_) => w.packType == PACK_ACTION
            case OpcodeOnly(_) => w.packType == PACK_OPCODE_ONLY
            case Fivo(_) => w.packType == PACK_FIVO)
  }

  // ---------------------------------------------------------------- the dispatcher

  /** What executing a request leaves: the device, the response buffer and the bytes to send. */
  datatype Outcome<D> = Outcome(device: D, resp: seq<byte>, txBytes: nat)

  /** Finish a response: on an error the status follows the wrapper. */
  function Finish(w: Wrapper, body: seq<byte>, resp0: seq<byte>, status: Status, txBytes: nat): (r: seq<byte>)
    requires |resp0| == PACK_SIZE && WRAPPER_SIZE + |body| <= PACK_SIZE
    ensures |r| == PACK_SIZE
  {
    var filled := Overwrite(resp0, WrapperBytes(w) + body);
    if status != RET_GOOD then
      Overwrite(filled, WrapperBytes(w.(packType := SetFlag(w.packType, FLAG_ERR), size := RESP_ERR_SIZE)) + U32(status))
    else
      Overwrite(filled, WrapperBytes(w.(size := txBytes)))
  }

  /** The length an action is told: an unsigned 64-bit difference. */
  function ActionLength(size: nat): nat
    requires size < 65536
  {
    if size >= WRAPPER_SIZE then size - WRAPPER_SIZE else size + 0x1_0000_0000_0000_0000 - WRAPPER_SIZE
  }

  /** It is the size less the wrapper's eight bytes, modulo 2^64 when a size is too small. */
  lemma ActionLengthWraps(size: nat)
    requires size < 65536
    ensures ActionLength(size) < 0x1_0000_0000_0000_0000
    ensures (ActionLength(size) + 8) % 0x1_0000_0000_0000_0000 == size
  {
  }

  lemma WrapperSizeBounded(b: seq<byte>)
    requires WRAPPER_SIZE <= |b|
    ensures WrapperOf(b).size < 65536
  {
  }

  /** The length field of a fixed-in-variable-out request. */
  function FivoLength(req: seq<byte>): nat
    requires |req| == PACK_SIZE
  {
    FromU32(req[8..12]) + 0x1_0000_0000 * FromU32(req[12..16])
  }

  /** am_pack_process_cmd. */
  ghost function Process<D(!new)>(f: Function<D>, device: D, req: seq<byte>, resp0: seq<byte>): (o: Outcome<D>)
    requires |req| == |resp0| == PACK_SIZE && Usable(f) && WellTyped(f, WrapperOf(req))
    ensures |o.resp| == PACK_SIZE
  {
    var w := WrapperOf(req);
    var rw := w.(packType := SetFlag(w.packType, FLAG_RESP));
    if f.NoFunction? then Outcome(device, Finish(rw, [], resp0, RET_INVALID_FUNC, 0), RESP_ERR_SIZE)
    else if f.handlers(w.op).NoHandler? then
      Outcome(device, Finish(rw, [], resp0, RET_INVALID_OPCODE, 0), RESP_ERR_SIZE)
    else if !KnownType(w.packType) then
      Outcome(device, Finish(rw, [], resp0, RET_INVALID_PACK_OP, 0), RESP_ERR_SIZE)
    else
      match f.handlers(w.op)
      case Reader(read) =>
        var (status, data) := read(device, req[8..8 + f.idxSize]);
        var txBytes := WRAPPER_SIZE + f.dataSize;
        Outcome(device, Finish(rw, data, resp0, status, txBytes), if status != RET_GOOD then RESP_ERR_SIZE else txBytes)
      case Writer(write) =>
        var (device', status) := write(device, req[8..8 + f.idxSize], req[8 + f.idxSize..8 + f.idxSize + f.dataSize]);
        Outcome(device', Finish(rw, [], resp0, status, WRAPPER_SIZE),
                if status != RET_GOOD then RESP_ERR_SIZE else WRAPPER_SIZE)
      case Actor(act) =>
        WrapperSizeBounded(req);
        var (device', status) := act(device, req[8..], ActionLength(w.size));
        Outcome(device', Finish(rw, [], resp0, status, WRAPPER_SIZE),
                if status != RET_GOOD then RESP_ERR_SIZE else WRAPPER_SIZE)
      case OpcodeOnly(fill) =>
        var (device', status, filled, txBytes) := fill(device, Overwrite(resp0, WrapperBytes(rw)));
        Outcome(device', Finish(WrapperOf(filled), filled[8..], filled, status, txBytes),
                if status != RET_GOOD then RESP_ERR_SIZE else txBytes)
      case Fivo(answer) =>
        var (device', status, body, txBytes) := answer(device, req[FIVO_HEADER_SIZE..], FivoLength(req));
        Outcome(device', Finish(rw, body, resp0, status, txBytes), if status != RET_GOOD then RESP_ERR_SIZE else txBytes)
  }

  // ---------------------------------------------------------------- what the client sees of a response

  /** send_and_wait: the status a response carries. */
  function ResponseStatus(resp: seq<byte>): nat
    requires |resp| == PACK_SIZE
  {
    if HasFlag(WrapperOf(resp).packType, FLAG_ERR) then FromU32(resp[8..12]) else RET_GOOD
  }

  lemma FinishedError(w: Wrapper, filled: seq<byte>, status: Status)
    requires |filled| == PACK_SIZE
    ensures
      var ew := w.(packType := SetFlag(w.packType, FLAG_ERR), size := RESP_ERR_SIZE);
      ResponseStatus(Overwrite(filled, WrapperBytes(ew) + U32(status))) == status
  {
    var ew := w.(packType := SetFlag(w.packType, FLAG_ERR), size := RESP_ERR_SIZE);
    var r := Overwrite(filled, WrapperBytes(ew) + U32(status));
    var rest := U32(status) + filled[12..];
    WrapperRoundTrip(ew, rest);
    assert r == WrapperBytes(ew) + rest;
    assert r[8..12] == U32(status);
    U32RoundTrip(status);
  }

  lemma FinishedGood(w: Wrapper, body: seq<byte>, resp0: seq<byte>, txBytes: nat)
    requires |resp0| == PACK_SIZE && WRAPPER_SIZE + |body| <= PACK_SIZE && txBytes <= PACK_SIZE
    requires !HasFlag(w.packType, FLAG_ERR)
    ensures
      var r := Finish(w, body, resp0, RET_GOOD, txBytes);
      ResponseStatus(r) == RET_GOOD && WrapperOf(r).size == txBytes && r[8..8 + |body|] == body
  {
    var filled := Overwrite(resp0, WrapperBytes(w) + body);
    var r := Finish(w, body, resp0, RET_GOOD, txBytes);
    WrapperRoundTrip(w.(size := txBytes), filled[8..]);
    assert r[8..8 + |body|] == filled[8..8 + |body|] == body;
  }

  lemma FinishedResponse(w: Wrapper, body: seq<byte>, resp0: seq<byte>, status: Status, txBytes: nat)
    requires |resp0| == PACK_SIZE && WRAPPER_SIZE + |body| <= PACK_SIZE && txBytes <= PACK_SIZE
    requires !HasFlag(w.packType, FLAG_ERR)
    ensures
      var r := Finish(w, body, resp0, status, txBytes);
      && ResponseStatus(r) == status
      && (status == RET_GOOD ==> WrapperOf(r).size == txBytes && r[8..8 + |body|] == body)
  {
    if status != RET_GOOD {
      FinishedError(w, Overwrite(resp0, WrapperBytes(w) + body), status);
    } else {
      FinishedGood(w, body, resp0, txBytes);
    }
  }

  /** The wrapper of a finished response: the given one with the error flag and the size filled in. */
  lemma FinishedWrapper(w: Wrapper, body: seq<byte>, resp0: seq<byte>, status: Status, txBytes: nat)
    requires |resp0| == PACK_SIZE && WRAPPER_SIZE + |body| <= PACK_SIZE && w.funcId < 65536 && w.appTag < 65536
    ensures WrapperOf(Finish(w, body, resp0, status, txBytes)) ==
      if status != RET_GOOD then w.(packType := SetFlag(w.packType, FLAG_ERR), size := RESP_ERR_SIZE)
      else w.(size := txBytes % 65536)
  {
    var filled := Overwrite(resp0, WrapperBytes(w) + body);
    if status != RET_GOOD {
      var ew := w.(packType := SetFlag(w.packType, FLAG_ERR), size := RESP_ERR_SIZE);
      WrapperRoundTrip(ew, U32(status) + filled[12..]);
      assert Finish(w, body, resp0, status, txBytes) == WrapperBytes(ew) + (U32(status) + filled[12..]);
    } else {
      WrapperRoundTrip(w.(size := txBytes), filled[8..]);
    }
  }

  // ---------------------------------------------------------------- every response

  /** The request calls a handler that fills the whole response buffer itself. */
  predicate FillsResponse<D>(f: Function<D>, w: Wrapper) {
    f.Function? && f.handlers(w.op).OpcodeOnly? && KnownType(w.packType)
  }

  /** Any other response is finished once, with some body, status and length. */
  lemma ResponseFinished<D(!new)>(f: Function<D>, device: D, req: seq<byte>, rx0: seq<byte>)
    returns (body: seq<byte>, status: Status, length: nat)
    requires |req| == |rx0| == PACK_SIZE && Usable(f) && WellTyped(f, WrapperOf(req)) && !FillsResponse(f, WrapperOf(req))
    ensures WRAPPER_SIZE + |body| <= PACK_SIZE
    ensures
      var w, o := WrapperOf(req), Process(f, device, req, rx0);
      && o.resp == Finish(w.(packType := SetFlag(w.packType, FLAG_RESP)), body, rx0, status, length)
      && o.txBytes == (if status != RET_GOOD then RESP_ERR_SIZE else length)
      && (status == RET_GOOD ==> f.Function? && !f.handlers(w.op).NoHandler? && KnownType(w.packType))
      && (status == RET_GOOD ==> match f.handlers(w.op)
            case Reader(_) => length == 8 + f.dataSize
            case Writer(_) => length == 8
            case Actor(_) => length == 8
            case Fivo(answer) => length == answer(device, req[FIVO_HEADER_SIZE..], FivoLength(req)).3
            case _ => true)
  {
    var w := WrapperOf(req);
    if f.NoFunction? {
      body, status, length := [], RET_INVALID_FUNC, 0;
    } else if f.handlers(w.op).NoHandler? {
      body, status, length := [], RET_INVALID_OPCODE, 0;
    } else if !KnownType(w.packType) {
      body, status, length := [], RET_INVALID_PACK_OP, 0;
    } else {
      match f.handlers(w.op)
      case Reader(read) =>
        var r := read(device, req[8..8 + f.idxSize]);
        body, status, length := r.1, r.0, 8 + f.dataSize;
      case Writer(write) =>
        var r := write(device, req[8..8 + f.idxSize], req[8 + f.idxSize..8 + f.idxSize + f.dataSize]);
        body, status, length := [], r.1, 8;
      case Actor(act) =>
        var r := act(device, req[8..], ActionLength(w.size));
        body, status, length := [], r.1, 8;
      case Fivo(answer) =>
        var r := answer(device, req[FIVO_HEADER_SIZE..], FivoLength(req));
        body, status, length := r.2, r.1, r.3;
    }
  }

  /**
   * Every such response answers its request: it carries the request's function, operation and
   * tag, its type with the response flag, and as its size the number of bytes that are sent.
   */
  lemma ResponseEchoes<D(!new)>(f: Function<D>, device: D, req: seq<byte>, rx0: seq<byte>)
    requires |req| == |rx0| == PACK_SIZE && Usable(f) && WellTyped(f, WrapperOf(req)) && !FillsResponse(f, WrapperOf(req))
    ensures
      var o, w := Process(f, device, req, rx0), WrapperOf(req);
      var rw := WrapperOf(o.resp);
      && rw.funcId == w.funcId && rw.op == w.op && rw.appTag == w.appTag
      && HasFlag(rw.packType, FLAG_RESP) && rw.packType % 64 == w.packType % 64
      && rw.size == o.txBytes % 65536
  {
    var w := WrapperOf(req);
    var body, status, length := ResponseFinished(f, device, req, rx0);
    FinishedWrapper(w.(packType := SetFlag(w.packType, FLAG_RESP)), body, rx0, status, length);
    FlagsKeepType(w.packType);
  }

  lemma FlagsKeepType(b: byte)
    ensures HasFlag(SetFlag(b, FLAG_RESP), FLAG_RESP) && SetFlag(b, FLAG_RESP) % 64 == b % 64
    ensures
      var e := SetFlag(SetFlag(b, FLAG_RESP), FLAG_ERR);
      HasFlag(e, FLAG_RESP) && HasFlag(e, FLAG_ERR) && e % 64 == b % 64
    ensures HasFlag(SetFlag(b, FLAG_RESP), FLAG_ERR) <==> HasFlag(b, FLAG_ERR)
  {
  }

  /**
   * How many bytes are sent: twelve with the error flag, otherwise the wrapper and, for a read,
   * the data, or the length that a fixed-in-variable-out handler reports.
   */
  lemma ResponseLength<D(!new)>(f: Function<D>, device: D, req: seq<byte>, rx0: seq<byte>)
    requires |req| == |rx0| == PACK_SIZE && Usable(f) && WellTyped(f, WrapperOf(req)) && !FillsResponse(f, WrapperOf(req))
    requires !HasFlag(WrapperOf(req).packType, FLAG_ERR)
    ensures
      var o, w := Process(f, device, req, rx0), WrapperOf(req);
      if HasFlag(WrapperOf(o.resp).packType, FLAG_ERR) then o.txBytes == 12
      else
        && f.Function? && !f.handlers(w.op).NoHandler?
        && match f.handlers(w.op)
           case Reader(_) => o.txBytes == 8 + f.dataSize
           case Writer(_) => o.txBytes == 8
           case Actor(_) => o.txBytes == 8
           case Fivo(answer) => o.txBytes == answer(device, req[FIVO_HEADER_SIZE..], FivoLength(req)).3
           case _ => true
  {
    var w := WrapperOf(req);
    var body, status, length := ResponseFinished(f, device, req, rx0);
    FinishedWrapper(w.(packType := SetFlag(w.packType, FLAG_RESP)), body, rx0, status, length);
    FlagsKeepType(w.packType);
  }

  /**
   * An opcode-only request: its handler is given a response that already answers the request.
   * On success what it left there is sent, at the length it reports; otherwise its status is.
   */
  lemma OpcodeOnlyProcessed<D(!new)>(f: Function<D>, device: D, req: seq<byte>, rx0: seq<byte>)
    requires |req| == |rx0| == PACK_SIZE && Usable(f) && f.Function? && WrapperOf(req).op < MAX_OPS
    requires f.handlers(WrapperOf(req).op).OpcodeOnly? && WrapperOf(req).packType == PACK_OPCODE_ONLY
    ensures
      var o, w := Process(f, device, req, rx0), WrapperOf(req);
      var given := Overwrite(rx0, WrapperBytes(w.(packType := PACK_OPCODE_ONLY + 128)));
      var (device', status, left, length) := f.handlers(w.op).fill(device, given);
      && WrapperOf(given) == w.(packType := PACK_OPCODE_ONLY + 128) && given[8..] == rx0[8..]
      && o.device == device' && |left| == PACK_SIZE
      && if status == RET_GOOD then
           && o.txBytes == length && o.resp[8..] == left[8..]
           && WrapperOf(o.resp) == WrapperOf(left).(size := length % 65536)
         else
           o.txBytes == WrapperOf(o.resp).size == 12 && ResponseStatus(o.resp) == status
  {
    var w := WrapperOf(req);
    GivenResponse(w, rx0);
    var given := Overwrite(rx0, WrapperBytes(w.(packType := PACK_OPCODE_ONLY + 128)));
    var (device', status, left, length) := f.handlers(w.op).fill(device, given);
    LeftResponse(left, status, length);
  }

  lemma GivenResponse(w: Wrapper, rx0: seq<byte>)
    requires |rx0| == PACK_SIZE && w.packType == PACK_OPCODE_ONLY && w.funcId < 65536 && w.appTag < 65536 && w.size < 65536
    ensures SetFlag(w.packType, FLAG_RESP) == PACK_OPCODE_ONLY + 128
    ensures
      var rw := w.(packType := PACK_OPCODE_ONLY + 128);
      var given := Overwrite(rx0, WrapperBytes(rw));
      WrapperOf(given) == rw && given[8..] == rx0[8..]
  {
    WrapperRoundTrip(w.(packType := PACK_OPCODE_ONLY + 128), rx0[8..]);
  }

  lemma LeftResponse(left: seq<byte>, status: Status, length: nat)
    requires |left| == PACK_SIZE
    ensures
      var r := Finish(WrapperOf(left), left[8..], left, status, length);
      if status == RET_GOOD then r[8..] == left[8..] && WrapperOf(r) == WrapperOf(left).(size := length % 65536)
      else WrapperOf(r).size == 12 && ResponseStatus(r) == status
  {
    var lw := WrapperOf(left);
    FinishedWrapper(lw, left[8..], left, status, length);
    if status != RET_GOOD {
      FinishedError(lw, Overwrite(left, WrapperBytes(lw) + left[8..]), status);
    }
  }

  // ---------------------------------------------------------------- calls

  datatype Call = Read(idx: seq<byte>) | Write(idx: seq<byte>, data: seq<byte>) | Sort(param: seq<byte>)

  /** What a call gives its caller; `data` is what a read stored, nothing on an error. */
  datatype Result = Result(status: nat, data: seq<byte>)

  function OpOf(call: Call): byte {
    match call
    case Read(_) => OP_READ_ALIGN
    case Write(_, _) => OP_WRITE_ALIGN
    case Sort(_) => OP_SORT
  }

  /** The call's arguments have the sizes the function was created with, and fit a packet. */
  predicate Sized<D>(f: Function<D>, call: Call) {
    && f.Function?
    && match call
       case Read(idx) => |idx| == f.idxSize
       case Write(idx, data) => |idx| == f.idxSize && |data| == f.dataSize
       case Sort(param) => WRAPPER_SIZE + |param| <= PACK_SIZE
  }

  /** The function has registered an operation of the right type for the call. */
  predicate Registered<D>(f: Function<D>, call: Call) {
    && f.Function?
    && match call
       case Read(_) => f.handlers(OP_READ_ALIGN).Reader?
       case Write(_, _) => f.handlers(OP_WRITE_ALIGN).Writer?
       case Sort(_) => f.handlers(OP_SORT).Actor?
  }

  /** Calling the device function directly. */
  function Direct<D>(f: Function<D>, device: D, call: Call): (D, Result)
    requires Registered(f, call)
  {
    match call
    case Read(idx) =>
      var (status, data) := f.handlers(OP_READ_ALIGN).read(device, idx);
      (device, Result(status, if status == RET_GOOD then data else []))
    case Write(idx, data) =>
      var (device', status) := f.handlers(OP_WRITE_ALIGN).write(device, idx, data);
      (device', Result(status, []))
    case Sort(param) =>
      var (device', status) := f.handlers(OP_SORT).act(device, param, |param|);
      (device', Result(status, []))
  }

  /** The size field of a request, for the generic forms and for the 32-bit forms. */
  function TxSize<D>(f: Function<D>, call: Call, wide: bool): nat
    requires f.Function?
  {
    match call
    case Read(_) => if wide then READ_ALIGN_SIZE else WRAPPER_SIZE + f.idxSize
    case Write(_, _) => if wide then WRITE_ALIGN_SIZE + 7 else WRAPPER_SIZE + f.dataSize + f.idxSize
    case Sort(param) => WRITE_ALIGN_SIZE + |param|
  }

  function Payload(call: Call): seq<byte> {
    match call
    case Read(idx) => idx
    case Write(idx, data) => idx + data
    case Sort(param) => param
  }

  /** The request a call leaves in the transmit buffer; tag and trailing bytes are what was there. */
  function Request<D>(f: Function<D>, call: Call, wide: bool, tx0: seq<byte>): (req: seq<byte>)
    requires |tx0| == PACK_SIZE && Sized(f, call) && WRAPPER_SIZE + f.idxSize + f.dataSize <= PACK_SIZE
    ensures |req| == PACK_SIZE
  {
    var packType := if call.Sort? then PACK_ACTION else PACK_ALIGN;
    var w := Wrapper(f.handle, packType, OpOf(call), FromU16(tx0[4..6]), TxSize(f, call, wide));
    Overwrite(tx0, WrapperBytes(w) + Payload(call))
  }

  /** What the caller gets from a response of which `received` bytes have come; a read checks that they are enough. */
  function DecodeReceived<D>(f: Function<D>, call: Call, wide: bool, resp: seq<byte>, received: nat): Result
    requires |resp| == PACK_SIZE && f.Function? && WRAPPER_SIZE + f.idxSize + f.dataSize <= PACK_SIZE
  {
    var status := ResponseStatus(resp);
    if status != RET_GOOD || !call.Read? then Result(status, [])
    else if received >= (if wide then READ_ALIGN_SIZE else WRAPPER_SIZE + f.dataSize) then
      Result(RET_GOOD, resp[8..8 + f.dataSize])
    else Result(if wide then RET_IO_UNDERRUN else RET_IO_ERR, [])
  }

  /** ... of a mapped response, which has as many bytes as its size field says. */
  function Decode<D>(f: Function<D>, call: Call, wide: bool, resp: seq<byte>): Result
    requires |resp| == PACK_SIZE && f.Function? && WRAPPER_SIZE + f.idxSize + f.dataSize <= PACK_SIZE
  {
    DecodeReceived(f, call, wide, resp, WrapperOf(resp).size)
  }

  /** A good response too short for its data gives the reader an error and no data. */
  lemma ShortReadIsRefused<D>(f: Function<D>, idx: seq<byte>, wide: bool, resp: seq<byte>, received: nat)
    requires |resp| == PACK_SIZE && f.Function? && WRAPPER_SIZE + f.idxSize + f.dataSize <= PACK_SIZE && (wide ==> f.dataSize == 4)
    requires ResponseStatus(resp) == RET_GOOD
    ensures DecodeReceived(f, Read(idx), wide, resp, received) ==
      if received >= 8 + f.dataSize then Result(0, resp[8..8 + f.dataSize]) else Result(if wide then 10 else 3, [])
  {
  }

  lemma FrontSlice(resp: seq<byte>, rx: seq<byte>, n: nat, i: nat, j: nat)
    requires i <= j <= n <= |resp| == |rx|
    ensures Overwrite(rx, resp[..n])[i..j] == resp[i..j]
  {
  }

  /** A response that is sent as a datagram, and received over whatever a buffer held, is decoded as it was. */
  lemma SentIsDecoded<D>(f: Function<D>, call: Call, wide: bool, resp: seq<byte>, rx: seq<byte>, n: nat)
    requires |resp| == |rx| == PACK_SIZE && f.Function? && WRAPPER_SIZE + f.idxSize + f.dataSize <= PACK_SIZE
    requires WRAPPER_SIZE <= n == WrapperOf(resp).size <= PACK_SIZE && (wide ==> f.dataSize == 4)
    requires HasFlag(WrapperOf(resp).packType, FLAG_ERR) ==> RESP_ERR_SIZE <= n
    ensures WrapperOf(Overwrite(rx, resp[..n])) == WrapperOf(resp)
    ensures DecodeReceived(f, call, wide, Overwrite(rx, resp[..n]), n) == Decode(f, call, wide, resp)
  {
    var got := Overwrite(rx, resp[..n]);
    FrontSlice(resp, rx, n, 0, 2);
    FrontSlice(resp, rx, n, 4, 6);
    FrontSlice(resp, rx, n, 6, 8);
    if n >= 12 {
      FrontSlice(resp, rx, n, 8, 12);
    }
    if n >= 8 + f.dataSize {
      FrontSlice(resp, rx, n, 8, 8 + f.dataSize);
    }
  }

  lemma RequestFields<D>(f: Function<D>, call: Call, wide: bool, tx0: seq<byte>)
    requires |tx0| == PACK_SIZE && Sized(f, call) && WRAPPER_SIZE + f.idxSize + f.dataSize <= PACK_SIZE
    ensures
      var req := Request(f, call, wide, tx0);
      && WrapperOf(req).op == OpOf(call)
      && WrapperOf(req).packType == (if call.Sort? then PACK_ACTION else PACK_ALIGN)
      && WrapperOf(req).size == TxSize(f, call, wide)
      && WrapperOf(req).funcId == f.handle % 65536 && WrapperOf(req).appTag == FromU16(tx0[4..6])
      && req[8..] == Payload(call) + tx0[8 + |Payload(call)|..]
  {
    var w := Wrapper(f.handle, if call.Sort? then PACK_ACTION else PACK_ALIGN, OpOf(call), FromU16(tx0[4..6]), TxSize(f, call, wide));
    var rest := Payload(call) + tx0[8 + |Payload(call)|..];
    WrapperRoundTrip(w, rest);
    assert w.size % 65536 == w.size && w.appTag % 65536 == w.appTag;
    assert Request(f, call, wide, tx0) == WrapperBytes(w) + rest;
  }

  /** A request is announced as long as it is, but a 32-bit write one byte longer and a sort two. */
  lemma AnnouncedLength<D>(f: Function<D>, call: Call, wide: bool)
    requires Sized(f, call) && (wide ==> f.idxSize == f.dataSize == 4)
    ensures TxSize(f, call, wide) == 8 + |Payload(call)| + (if call.Sort? then 2 else if call.Write? && wide then 1 else 0)
  {
  }

  lemma RequestWellTyped<D>(f: Function<D>, call: Call, wide: bool, tx0: seq<byte>)
    requires |tx0| == PACK_SIZE && Sized(f, call) && WRAPPER_SIZE + f.idxSize + f.dataSize <= PACK_SIZE
    requires Registered(f, call) || f.handlers(OpOf(call)).NoHandler?
    ensures WellTyped(f, WrapperOf(Request(f, call, wide, tx0)))
  {
    RequestFields(f, call, wide, tx0);
  }

  /** A whole call through packets: encode, execute, decode. */
  ghost function Packet<D(!new)>(f: Function<D>, device: D, call: Call, wide: bool, tx0: seq<byte>, rx0: seq<byte>): (D, Result)
    requires |tx0| == |rx0| == PACK_SIZE && Usable(f) && Sized(f, call)
    requires Registered(f, call) || f.handlers(OpOf(call)).NoHandler?
  {
    RequestWellTyped(f, call, wide, tx0);
    var o := Process(f, device, Request(f, call, wide, tx0), rx0);
    (o.device, Decode(f, call, wide, o.resp))
  }

  // ---------------------------------------------------------------- packets are transparent

  lemma NoErrorFlag(w: Wrapper)
    requires KnownType(w.packType)
    ensures !HasFlag(SetFlag(w.packType, FLAG_RESP), FLAG_ERR)
  {
  }

  /** What the dispatcher does with a read request. */
  lemma ReadProcessed<D(!new)>(f: Function<D>, device: D, req: seq<byte>, rx0: seq<byte>)
    requires |req| == |rx0| == PACK_SIZE && Usable(f) && f.Function? && f.handlers(WrapperOf(req).op).Reader?
    requires KnownType(WrapperOf(req).packType) && WellTyped(f, WrapperOf(req))
    ensures
      var o := Process(f, device, req, rx0);
      var (status, data) := f.handlers(WrapperOf(req).op).read(device, req[8..8 + f.idxSize]);
      && o.device == device && ResponseStatus(o.resp) == status
      && (status == RET_GOOD ==> WrapperOf(o.resp).size == WRAPPER_SIZE + f.dataSize && o.resp[8..8 + f.dataSize] == data)
  {
    var w := WrapperOf(req);
    NoErrorFlag(w);
    var (status, data) := f.handlers(WrapperOf(req).op).read(device, req[8..8 + f.idxSize]);
    FinishedResponse(w.(packType := SetFlag(w.packType, FLAG_RESP)), data, rx0, status, WRAPPER_SIZE + f.dataSize);
  }

  /** ... and with a write request. */
  lemma WriteProcessed<D(!new)>(f: Function<D>, device: D, req: seq<byte>, rx0: seq<byte>)
    requires |req| == |rx0| == PACK_SIZE && Usable(f) && f.Function? && f.handlers(WrapperOf(req).op).Writer?
    requires KnownType(WrapperOf(req).packType) && WellTyped(f, WrapperOf(req))
    ensures
      var o := Process(f, device, req, rx0);
      var (device', status) := f.handlers(WrapperOf(req).op).write(device, req[8..8 + f.idxSize],
                                                                req[8 + f.idxSize..8 + f.idxSize + f.dataSize]);
      o.device == device' && ResponseStatus(o.resp) == status
  {
    var w := WrapperOf(req);
    NoErrorFlag(w);
    var (device', status) := f.handlers(WrapperOf(req).op).write(device, req[8..8 + f.idxSize],
                                                              req[8 + f.idxSize..8 + f.idxSize + f.dataSize]);
    FinishedResponse(w.(packType := SetFlag(w.packType, FLAG_RESP)), [], rx0, status, WRAPPER_SIZE);
  }

  /** ... and with an action. */
  lemma ActionProcessed<D(!new)>(f: Function<D>, device: D, req: seq<byte>, rx0: seq<byte>)
    requires |req| == |rx0| == PACK_SIZE && Usable(f) && f.Function? && f.handlers(WrapperOf(req).op).Actor?
    requires KnownType(WrapperOf(req).packType) && WellTyped(f, WrapperOf(req))
    ensures WrapperOf(req).size < 65536
    ensures
      var o := Process(f, device, req, rx0);
      var (device', status) := f.handlers(WrapperOf(req).op).act(device, req[8..], ActionLength(WrapperOf(req).size));
      o.device == device' && ResponseStatus(o.resp) == status
  {
    var w := WrapperOf(req);
    NoErrorFlag(w);
    var (device', status) := f.handlers(WrapperOf(req).op).act(device, req[8..], ActionLength(w.size));
    FinishedResponse(w.(packType := SetFlag(w.packType, FLAG_RESP)), [], rx0, status, WRAPPER_SIZE);
  }

  lemma ReadIsTransparent<D(!new)>(f: Function<D>, device: D, idx: seq<byte>, wide: bool, tx0: seq<byte>, rx0: seq<byte>)
    requires |tx0| == |rx0| == PACK_SIZE && Usable(f) && Sized(f, Read(idx)) && Registered(f, Read(idx))
    requires wide ==> f.idxSize == f.dataSize == 4
    ensures Packet(f, device, Read(idx), wide, tx0, rx0) == Direct(f, device, Read(idx))
  {
    RequestFields(f, Read(idx), wide, tx0);
    var req := Request(f, Read(idx), wide, tx0);
    PayloadSlices(req, idx, [], tx0[8 + |idx|..]);
    ReadProcessed(f, device, req, rx0);
  }

  lemma WriteIsTransparent<D(!new)>(f: Function<D>, device: D, idx: seq<byte>, data: seq<byte>, wide: bool, tx0: seq<byte>, rx0: seq<byte>)
    requires |tx0| == |rx0| == PACK_SIZE && Usable(f) && Sized(f, Write(idx, data)) && Registered(f, Write(idx, data))
    ensures Packet(f, device, Write(idx, data), wide, tx0, rx0) == Direct(f, device, Write(idx, data))
  {
    RequestFields(f, Write(idx, data), wide, tx0);
    var req := Request(f, Write(idx, data), wide, tx0);
    PayloadSlices(req, idx, data, tx0[8 + |idx + data|..]);
    WriteProcessed(f, device, req, rx0);
  }

  lemma PayloadSlices(req: seq<byte>, idx: seq<byte>, data: seq<byte>, rest: seq<byte>)
    requires 8 <= |req| && (req[8..] == idx + data + rest || (data == [] && req[8..] == idx + rest))
    ensures 8 + |idx| + |data| <= |req|
    ensures req[8..8 + |idx|] == idx && req[8 + |idx|..8 + |idx| + |data|] == data
  {
    assert req[8..8 + |idx|] == req[8..][..|idx|];
    assert req[8 + |idx|..8 + |idx| + |data|] == req[8..][|idx|..|idx| + |data|];
  }

  /** A read or write through packets does to the device and gives the caller what the direct call does. */
  lemma AccessIsTransparent<D(!new)>(f: Function<D>, device: D, call: Call, wide: bool, tx0: seq<byte>, rx0: seq<byte>)
    requires |tx0| == |rx0| == PACK_SIZE && Usable(f) && Sized(f, call) && Registered(f, call) && !call.Sort?
    requires wide ==> f.idxSize == f.dataSize == 4
    ensures Packet(f, device, call, wide, tx0, rx0) == Direct(f, device, call)
  {
    match call
    case Read(idx) => ReadIsTransparent(f, device, idx, wide, tx0, rx0);
    case Write(idx, data) => WriteIsTransparent(f, device, idx, data, wide, tx0, rx0);
  }

  /** A call of an operation the function has not registered leaves the device alone and says so. */
  lemma UnregisteredIsRefused<D(!new)>(f: Function<D>, device: D, call: Call, wide: bool, tx0: seq<byte>, rx0: seq<byte>)
    requires |tx0| == |rx0| == PACK_SIZE && Usable(f) && Sized(f, call) && f.handlers(OpOf(call)).NoHandler?
    ensures Packet(f, device, call, wide, tx0, rx0) == (device, Result(RET_INVALID_OPCODE, []))
  {
    RequestFields(f, call, wide, tx0);
    RequestWellTyped(f, call, wide, tx0);
    var w := WrapperOf(Request(f, call, wide, tx0));
    NoErrorFlag(w);
    FinishedResponse(w.(packType := SetFlag(w.packType, FLAG_RESP)), [], rx0, RET_INVALID_OPCODE, 0);
  }

  /** A packet for no function is refused with its own status. */
  lemma NoFunctionIsRefused<D(!new)>(device: D, req: seq<byte>, rx0: seq<byte>)
    requires |req| == |rx0| == PACK_SIZE
    ensures
      var o := Process(NoFunction, device, req, rx0);
      o.device == device && ResponseStatus(o.resp) == 6 && o.txBytes == 12
  {
    var w := WrapperOf(req);
    var rw := w.(packType := SetFlag(w.packType, FLAG_RESP));
    FinishedError(rw, Overwrite(rx0, WrapperBytes(rw) + []), RET_INVALID_FUNC);
  }

  /** A fixed-in-variable-out request: its answer follows the wrapper, its length is the one the handler reports. */
  lemma FivoProcessed<D(!new)>(f: Function<D>, device: D, req: seq<byte>, rx0: seq<byte>)
    requires |req| == |rx0| == PACK_SIZE && Usable(f) && f.Function? && WrapperOf(req).op < MAX_OPS
    requires f.handlers(WrapperOf(req).op).Fivo? && WrapperOf(req).packType == PACK_FIVO
    requires f.handlers(WrapperOf(req).op).answer(device, req[FIVO_HEADER_SIZE..], FivoLength(req)).3 <= PACK_SIZE
    ensures
      var o := Process(f, device, req, rx0);
      var (device', status, body, txBytes) := f.handlers(WrapperOf(req).op).answer(device, req[FIVO_HEADER_SIZE..], FivoLength(req));
      && o.device == device' && ResponseStatus(o.resp) == status
      && (status == RET_GOOD ==> o.txBytes == WrapperOf(o.resp).size == txBytes && o.resp[8..8 + |body|] == body)
  {
    var w := WrapperOf(req);
    NoErrorFlag(w);
    var (device', status, body, txBytes) := f.handlers(w.op).answer(device, req[FIVO_HEADER_SIZE..], FivoLength(req));
    FinishedResponse(w.(packType := SetFlag(w.packType, FLAG_RESP)), body, rx0, status, txBytes);
  }

  /** A packet of a type the dispatcher does not know is refused, for every operation, and the device left alone. */
  lemma UnknownTypeIsRefused<D(!new)>(f: Function<D>, device: D, req: seq<byte>, rx0: seq<byte>)
    requires |req| == |rx0| == PACK_SIZE && Usable(f) && f.Function? && WrapperOf(req).op < MAX_OPS
    requires !f.handlers(WrapperOf(req).op).NoHandler? && !KnownType(WrapperOf(req).packType)
    ensures
      var o := Process(f, device, req, rx0);
      o.device == device && ResponseStatus(o.resp) == RET_INVALID_PACK_OP && o.txBytes == RESP_ERR_SIZE
  {
    var w := WrapperOf(req);
    var rw := w.(packType := SetFlag(w.packType, FLAG_RESP));
    FinishedError(rw, Overwrite(rx0, WrapperBytes(rw) + []), RET_INVALID_PACK_OP);
  }

  /** The 32-bit forms differ from the generic ones in a size field that nothing reads. */
  lemma WideFormsAgree<D(!new)>(f: Function<D>, device: D, call: Call, tx0: seq<byte>, rx0: seq<byte>)
    requires |tx0| == |rx0| == PACK_SIZE && Usable(f) && Sized(f, call) && Registered(f, call) && !call.Sort?
    requires f.idxSize == f.dataSize == 4
    ensures Packet(f, device, call, true, tx0, rx0) == Packet(f, device, call, false, tx0, rx0)
    ensures call.Write? ==> TxSize(f, call, true) == TxSize(f, call, false) + 1
  {
    AccessIsTransparent(f, device, call, true, tx0, rx0);
    AccessIsTransparent(f, device, call, false, tx0, rx0);
  }

  // ---------------------------------------------------------------- sorts

  /** An action that looks at `need` bytes of its parameter and refuses anything shorter. */
  ghost predicate LooksAt<D(!new)>(act: (D, seq<byte>, nat) -> (D, Status), need: nat, body: (D, seq<byte>) -> (D, Status)) {
    forall d: D, m, l: nat :: act(d, m, l) == if l < need || |m| < need then (d, RET_PARAM_ERR) else body(d, m[..need])
  }

  /** The parameter as the device sees it: the sender's bytes and then whatever the buffer held. */
  function Seen(param: seq<byte>, tx0: seq<byte>): seq<byte>
    requires WRAPPER_SIZE + |param| <= |tx0|
  {
    param + tx0[8 + |param|..]
  }

  /** A sort request is announced two bytes longer than it is. */
  lemma SortThroughPackets<D(!new)>(f: Function<D>, device: D, param: seq<byte>, wide: bool, tx0: seq<byte>, rx0: seq<byte>)
    requires |tx0| == |rx0| == PACK_SIZE && Usable(f) && Sized(f, Sort(param)) && Registered(f, Sort(param))
    ensures
      var (device', status) := f.handlers(OP_SORT).act(device, Seen(param, tx0), |param| + 2);
      Packet(f, device, Sort(param), wide, tx0, rx0) == (device', Result(status, []))
  {
    RequestFields(f, Sort(param), wide, tx0);
    ActionProcessed(f, device, Request(f, Sort(param), wide, tx0), rx0);
  }

  /**
   * A sort through packets agrees with the direct call exactly when its parameter is not one or
   * two bytes short - or when the device refuses what it then makes of the buffer.
   */
  lemma SortIsTransparentIff<D(!new)>(f: Function<D>, device: D, param: seq<byte>, wide: bool, tx0: seq<byte>, rx0: seq<byte>,
                                      need: nat, body: (D, seq<byte>) -> (D, Status))
    requires |tx0| == |rx0| == PACK_SIZE && Usable(f) && Sized(f, Sort(param)) && Registered(f, Sort(param))
    requires LooksAt(f.handlers(OP_SORT).act, need, body) && need <= PACK_SIZE - WRAPPER_SIZE
    ensures Packet(f, device, Sort(param), wide, tx0, rx0) == Direct(f, device, Sort(param)) <==>
      !(need <= |param| + 2 < need + 2) || body(device, Seen(param, tx0)[..need]) == (device, RET_PARAM_ERR)
  {
    SortThroughPackets(f, device, param, wide, tx0, rx0);
    if need <= |param| {
      assert Seen(param, tx0)[..need] == param[..need];
    }
  }

  // ---------------------------------------------------------------- whole sessions

  function DirectSession<D>(f: Function<D>, device: D, calls: seq<Call>): (D, seq<Result>)
    requires forall i :: 0 <= i < |calls| ==> Registered(f, calls[i])
  {
    if calls == [] then (device, [])
    else
      var (device', r) := Direct(f, device, calls[0]);
      var (device'', rs) := DirectSession(f, device', calls[1..]);
      (device'', [r] + rs)
  }

  /** The same calls one after the other through one pair of buffers. */
  ghost function PacketSession<D(!new)>(f: Function<D>, device: D, calls: seq<Call>, wide: bool, tx0: seq<byte>, rx0: seq<byte>)
    : (D, seq<Result>)
    requires |tx0| == |rx0| == PACK_SIZE && Usable(f)
    requires forall i :: 0 <= i < |calls| ==> Sized(f, calls[i]) && Registered(f, calls[i])
  {
    if calls == [] then (device, [])
    else
      var (device', r) := Packet(f, device, calls[0], wide, tx0, rx0);
      var req := Request(f, calls[0], wide, tx0);
      RequestWellTyped(f, calls[0], wide, tx0);
      var (device'', rs) := PacketSession(f, device', calls[1..], wide, req, Process(f, device, req, rx0).resp);
      (device'', [r] + rs)
  }

  /** Every session through packets leaves the device and answers the caller as the direct calls would. */
  lemma {:induction false} SessionsAgree<D(!new)>(f: Function<D>, device: D, calls: seq<Call>, wide: bool,
                                                   tx0: seq<byte>, rx0: seq<byte>,
                                                   need: nat, body: (D, seq<byte>) -> (D, Status))
    requires |tx0| == |rx0| == PACK_SIZE && Usable(f) && f.Function? && (wide ==> f.idxSize == f.dataSize == 4)
    requires f.handlers(OP_SORT).Actor? ==> LooksAt(f.handlers(OP_SORT).act, need, body) && need <= PACK_SIZE - WRAPPER_SIZE
    requires forall i :: 0 <= i < |calls| ==> Sized(f, calls[i]) && Registered(f, calls[i])
    requires forall i :: 0 <= i < |calls| && calls[i].Sort? ==> !(need <= |calls[i].param| + 2 < need + 2)
    ensures PacketSession(f, device, calls, wide, tx0, rx0) == DirectSession(f, device, calls)
  {
    if calls != [] {
      var call := calls[0];
      if call.Sort? {
        SortIsTransparentIff(f, device, call.param, wide, tx0, rx0, need, body);
      } else {
        AccessIsTransparent(f, device, call, wide, tx0, rx0);
      }
      RequestWellTyped(f, call, wide, tx0);
      var req := Request(f, call, wide, tx0);
      SessionsAgree(f, Direct(f, device, call).0, calls[1..], wide, req, Process(f, device, req, rx0).resp, need, body);
    }
  }
}
