/**
 * Fixed-size packets of the associative array's kernel device: how many 64-bit words a write
 * takes, in the 8-bit fields that hold it, and how key and data travel in it.
 */
module FixedPackets {
  import opened Buffers

  const DWORD := 4
  const PACKET_BYTES := 256
  const MAX_QWORDS := 32

  function CeilDiv(x: nat, d: nat): nat
    requires 0 < d
  {
    x / d + (if x % d != 0 then 1 else 0)
  }

  /** The 32-bit words of a write: the opcode, the padded key and the padded data. */
  function WriteDwords(keySize: nat, dataSize: nat): nat {
    1 + CeilDiv(keySize, DWORD) + CeilDiv(dataSize, DWORD)
  }

  /** The sizing in am_create_assca_device, step by step in its 8-bit fields. */
  method SizeWrite(keySize: nat, dataSize: nat) returns (dataOffset: byte, qwords: byte)
    ensures dataOffset == Narrow(CeilDiv(keySize, DWORD))
    ensures
      var dwords := Narrow(WriteDwords(keySize, dataSize));
      qwords == CeilDiv(dwords, 2)
  {
    dataOffset := Narrow(keySize / DWORD);
    if keySize % DWORD != 0 {
      NarrowSum(keySize / DWORD, 1);
      dataOffset := Narrow(dataOffset + 1);
    }
    ghost var exact := CeilDiv(keySize, DWORD);
    qwords := dataOffset;
    NarrowSum(exact, dataSize / DWORD);
    qwords, exact := Narrow(qwords + dataSize / DWORD), exact + dataSize / DWORD;
    if dataSize % DWORD != 0 {
      NarrowSum(exact, 1);
      qwords, exact := Narrow(qwords + 1), exact + 1;
    }
    NarrowSum(exact, 1);
    qwords, exact := Narrow(qwords + 1), exact + 1;
    if qwords % 2 != 0 {
      qwords := 1 + qwords / 2;
    } else {
      qwords := qwords / 2;
    }
  }

  /** Storing to an 8-bit field. */
  function Narrow(x: nat): byte {
    x % 256
  }

  lemma NarrowSum(x: nat, y: nat)
    ensures Narrow(Narrow(x) + y) == Narrow(x + y)
  {
    assert x == 256 * (x / 256) + x % 256;
  }

  /** The 8-bit byte count the driver keeps. */
  function DeviceBytes(qwords: byte): byte {
    Narrow(qwords * 8)
  }

  /** The bytes the driver copies for a command that carries `qwords` in its number. */
  function CopiedBytes(qwords: byte): nat {
    qwords * 8 + 8
  }

  /** Every field holds the true value and the driver copies no more than a packet. */
  predicate Fits(keySize: nat, dataSize: nat, dataOffset: byte, qwords: byte) {
    && dataOffset == CeilDiv(keySize, DWORD)
    && qwords == CeilDiv(WriteDwords(keySize, dataSize), 2)
    && DeviceBytes(qwords) == qwords * 8
    && qwords <= MAX_QWORDS && CopiedBytes(qwords) <= PACKET_BYTES
  }

  lemma CeilOfHalf(x: nat)
    ensures 2 * CeilDiv(x, 2) >= x && 2 * CeilDiv(x, 2) <= x + 1
  {
  }

  /** `bytes` is `size` rounded up to whole words. */
  predicate Padded(size: nat, bytes: nat) {
    bytes % 4 == 0 && size <= bytes < size + 4
  }

  lemma WordsOfPadded(size: nat, bytes: nat)
    requires Padded(size, bytes)
    ensures 4 * CeilDiv(size, DWORD) == bytes
  {
  }

  lemma FitsWords(keySize: nat, dataSize: nat, dataOffset: byte, qwords: byte)
    requires dataOffset == Narrow(CeilDiv(keySize, DWORD))
    requires qwords == CeilDiv(Narrow(WriteDwords(keySize, dataSize)), 2)
    ensures Fits(keySize, dataSize, dataOffset, qwords) <==> WriteDwords(keySize, dataSize) <= 62
  {
    var dwords := WriteDwords(keySize, dataSize);
    CeilOfHalf(dwords);
    if dwords <= 62 {
      assert Narrow(dwords) == dwords;
    }
  }

  /** Nothing wraps and nothing is copied from beyond the packet exactly up to 62 words of opcode, key and data. */
  lemma FitsIff(keySize: nat, dataSize: nat, keyBytes: nat, dataBytes: nat, dataOffset: byte, qwords: byte)
    requires Padded(keySize, keyBytes) && Padded(dataSize, dataBytes)
    requires dataOffset == Narrow(CeilDiv(keySize, DWORD))
    requires qwords == CeilDiv(Narrow(WriteDwords(keySize, dataSize)), 2)
    ensures Fits(keySize, dataSize, dataOffset, qwords) <==> 4 + keyBytes + dataBytes <= 248
  {
    FitsWords(keySize, dataSize, dataOffset, qwords);
    WordsOfPadded(keySize, keyBytes);
    WordsOfPadded(dataSize, dataBytes);
  }

  /**
   * The packet is the least whole number of 64-bit words that holds four bytes of opcode and key
   * and data, each rounded up to words; the data starts right behind the rounded key.
   */
  lemma LeastQwords(keySize: nat, dataSize: nat, keyBytes: nat, dataBytes: nat, qwords: nat)
    requires Padded(keySize, keyBytes) && Padded(dataSize, dataBytes)
    ensures CeilDiv(WriteDwords(keySize, dataSize), 2) <= qwords <==> 4 + keyBytes + dataBytes <= 8 * qwords
    ensures CeilDiv(keySize, DWORD) < 256 ==> DataByte(CeilDiv(keySize, DWORD)) == 4 + keyBytes
  {
    WordsOfPadded(keySize, keyBytes);
    WordsOfPadded(dataSize, dataBytes);
    CeilOfHalf(WriteDwords(keySize, dataSize));
  }

  // ---------------------------------------------------------------- the packet in transit

  /**
   * A command carries its size less one 64-bit word in its number: the driver takes one that
   * carries `sent` words for a device that expects `qwords` exactly when it is at most one short,
   * and has then copied all the bytes the device expects.
   */
  lemma TakenIff(copied: seq<byte>, keySize: nat, dataSize: nat, dataOffset: byte, sent: byte, qwords: byte)
    requires qwords <= MAX_QWORDS - 1 && |copied| == CopiedBytes(sent)
    requires DWORD + keySize <= |copied| && DataByte(dataOffset) + dataSize <= |copied|
    ensures Extract(copied, keySize, dataSize, dataOffset, DeviceBytes(qwords)) != Refused <==> qwords <= sent + 1
    ensures qwords <= sent + 1 <==> 8 * qwords <= |copied|
  {
  }

  lemma SliceOfPrefix(s: seq<byte>, n: nat, i: nat, j: nat)
    requires i <= j <= n <= |s|
    ensures s[..n][i..j] == s[i..j]
  {
  }

  /** Where the data starts: after the opcode and the key's words. */
  function DataByte(dataOffset: byte): nat {
    DWORD + DWORD * dataOffset
  }

  /** am_kd_fixed_write_packet: key and data go to their places behind the opcode. */
  method BuildWrite(packet: array<byte>, key: seq<byte>, data: seq<byte>, dataOffset: byte)
    requires packet.Length == PACKET_BYTES && WriteDwords(|key|, |data|) <= 62 && dataOffset == CeilDiv(|key|, DWORD)
    modifies packet
    ensures packet[DWORD..DWORD + |key|] == key
    ensures packet[DataByte(dataOffset)..DataByte(dataOffset) + |data|] == data
    ensures packet[..DWORD] == old(packet[..DWORD])
  {
    var at := DataByte(dataOffset);
    ghost var before := packet[..];
    Copy(packet, DWORD, key);
    ghost var withKey := packet[..];
    assert withKey[DWORD..DWORD + |key|] == key && withKey[..DWORD] == before[..DWORD];
    Copy(packet, at, data);
    assert packet[..at] == withKey[..at] && packet[at..at + |data|] == data;
    SliceOfPrefix(withKey, at, DWORD, DWORD + |key|);
    SliceOfPrefix(packet[..], at, DWORD, DWORD + |key|);
    SliceOfPrefix(withKey, at, 0, DWORD);
    SliceOfPrefix(packet[..], at, 0, DWORD);
  }

  datatype Extracted = Refused | Extracted(key: seq<byte>, data: seq<byte>)

  /** The packet-write branch of appmemd_ioctl on the bytes the driver copied. */
  function Extract(copied: seq<byte>, keySize: nat, dataSize: nat, dataOffset: byte, deviceBytes: byte): Extracted
    requires DWORD + keySize <= |copied| && DataByte(dataOffset) + dataSize <= |copied|
  {
    if |copied| >= deviceBytes
    then Extracted(copied[DWORD..DWORD + keySize], copied[DataByte(dataOffset)..DataByte(dataOffset) + dataSize])
    else Refused
  }

  /** Client to driver: the driver hands the device exactly the client's key and data. */
  method WriteThroughDriver(packet: array<byte>, key: seq<byte>, data: seq<byte>) returns (r: Extracted)
    requires packet.Length == PACKET_BYTES && WriteDwords(|key|, |data|) <= 62
    modifies packet
    ensures r == Extracted(key, data)
  {
    var dataOffset, qwords := SizeWrite(|key|, |data|);
    FitsWords(|key|, |data|, dataOffset, qwords);
    CeilOfHalf(WriteDwords(|key|, |data|));
    BuildWrite(packet, key, data, dataOffset);
    ghost var sent := packet[..];
    var copied := packet[..CopiedBytes(qwords)];
    assert copied == sent[..CopiedBytes(qwords)];
    SliceOfPrefix(sent, |copied|, DWORD, DWORD + |key|);
    SliceOfPrefix(sent, |copied|, DataByte(dataOffset), DataByte(dataOffset) + |data|);
    r := Extract(copied, |key|, |data|, dataOffset, DeviceBytes(qwords));
  }
}
