/**
 The TMF8828 time-of-flight sensor's register access, built on the I2C
 controller: reading a register assembles the returned bytes into one integer
 and extracts the bit field `[bitIndexLow..bitIndexHigh]`; writing a field
 reads the register first and merges the new field into it.
 */
module TMF8828 {
  import opened Wrappers
  import opened Bits
  import opened BitField
  import opened I2CTrace
  import opened I2CController

  /** The chip's 7-bit address 0x41, shifted left to leave room for the R/W bit. */
  const Address: nat := Shl(0x41, 1)

  /** Application ids the APPID register can report. */
  const MeasureApp: nat := 0x03
  const BootloaderApp: nat := 0x80

  /** The order in which a multi-byte register's bytes arrive. */
  datatype ByteOrder = MsbFirst | LsbFirst

  /** The TMF8828 sends the least significant byte first. */
  const MultiByteOrder: ByteOrder := LsbFirst

  /** A register: its address and the bit field it occupies. */
  datatype Register = Register(address: nat, bitIndexLow: nat, bitIndexHigh: nat)

  /** Why reading the application id failed: the value read is not a known application. */
  datatype AppError = UnknownApp(appId: Option<nat>)

  /** The command the boot loader's download-init sends to CMD_STAT. */
  const DownloadInitData: seq<nat> := [0x14, 0x01, 0x29, 0xC1]

  /** The command that remaps RAM and resets, sent to CMD_STAT. */
  const RamremapResetData: seq<nat> := [0x11, 0x00, 0xEE]

  /** The chip address has its R/W bit clear: it is the write address, and 0x83 is the read address. */
  lemma AddressBytes()
    ensures Address == 0x82 && Address % 2 == 0
    ensures WriteAddress(Address) == 0x82
    ensures ReadAddress(Address) == 0x83
  {
  }

  /** The number of bytes a read fetches by default: the fewest whole bytes that hold bit bitIndexHigh. */
  function DefaultByteCount(reg: Register): (n: nat)
    ensures n >= 1
    ensures (n - 1) * 8 <= reg.bitIndexHigh < n * 8
  {
    reg.bitIndexHigh / 8 + 1
  }

  /** The number of bytes a read fetches: the requested count, or the default. */
  function ByteCount(reg: Register, requested: Option<nat>): nat
  {
    match requested
    case Some(n) => n
    case None => DefaultByteCount(reg)
  }

  /** Every entry is a byte. */
  predicate AllBytes(bs: seq<nat>)
  {
    forall i :: 0 <= i < |bs| ==> bs[i] < 256
  }

  /** The value of bytes read most significant first: the last byte is the least significant. */
  function BigEndian(bs: seq<nat>): nat
    decreases |bs|
  {
    if |bs| == 0 then 0 else BigEndian(bs[..|bs| - 1]) * 256 + bs[|bs| - 1]
  }

  /** The value of bytes read least significant first: byte i weighs 256^i. */
  function LittleEndian(bs: seq<nat>): nat
    decreases |bs|
  {
    if |bs| == 0 then 0 else bs[0] + 256 * LittleEndian(bs[1..])
  }

  /** The integer a list of bytes stands for in the given order. */
  function Value(order: ByteOrder, bs: seq<nat>): nat
  {
    match order
    case MsbFirst => BigEndian(bs)
    case LsbFirst => LittleEndian(bs)
  }

  /** The bytes in the opposite order (Python's `[::-1]`). */
  function Reverse(bs: seq<nat>): (r: seq<nat>)
    ensures |r| == |bs|
    ensures forall i :: 0 <= i < |bs| ==> r[i] == bs[|bs| - 1 - i]
    decreases |bs|
  {
    if |bs| == 0 then [] else Reverse(bs[1..]) + [bs[0]]
  }

  /** Least significant first is most significant first of the reversed bytes. */
  lemma {:induction false} LittleEndianIsReversedBigEndian(bs: seq<nat>)
    ensures LittleEndian(bs) == BigEndian(Reverse(bs))
    decreases |bs|
  {
    if |bs| > 0 {
      LittleEndianIsReversedBigEndian(bs[1..]);
      var r := Reverse(bs);
      assert r[..|r| - 1] == Reverse(bs[1..]);
      assert r[|r| - 1] == bs[0];
    }
  }

  /** Byte i of a least-significant-first value (bits 8i..8i+7) is the i-th byte of the list. */
  lemma {:induction false} LittleEndianByte(bs: seq<nat>, i: nat)
    requires AllBytes(bs)
    requires i < |bs|
    ensures FieldValue(LittleEndian(bs), 8 * i, 8 * i + 7) == bs[i]
    decreases i
  {
    var v := LittleEndian(bs);
    var rest := LittleEndian(bs[1..]);
    assert Width(8 * i, 8 * i + 7) == 8;
    assert Pow2(8) == 256;
    ShrDiv(v, 8);
    assert v / 256 == rest;
    if i == 0 {
      assert v % 256 == bs[0];
    } else {
      assert AllBytes(bs[1..]);
      LittleEndianByte(bs[1..], i - 1);
      ShrAdd(v, 8, 8 * (i - 1));
      assert 8 * i == 8 + 8 * (i - 1);
    }
  }

  /** Appending a byte below a shifted value: `(v << 8) | b` is v * 256 + b. */
  lemma OrShiftByte(v: nat, b: nat)
    requires b < 256
    ensures Or(Shl(v, 8), b) == v * 256 + b
  {
    assert Pow2(8) == 256;
    forall i: nat
      ensures Bit(And(Shl(v, 8), b), i) == Bit(0, i)
    {
      BitAnd(Shl(v, 8), b, i);
      BitShl(v, 8, i);
      BitZero(i);
      if i >= 8 {
        BitAbove(b, 8, i);
      }
    }
    BitsEqual(And(Shl(v, 8), b), 0);
    OrDisjoint(Shl(v, 8), b);
  }

  /** Folds the bytes into one integer with `v = (v << 8) | byte`, reversing them first for LSB-first order. */
  method Assemble(order: ByteOrder, bs: seq<nat>) returns (v: nat)
    ensures AllBytes(bs) ==> v == Value(order, bs)
  {
    var ordered := if order == MsbFirst then bs else Reverse(bs);
    assert AllBytes(bs) ==> AllBytes(ordered);
    v := 0;
    var i := 0;
    while i < |ordered|
      invariant 0 <= i <= |ordered|
      invariant AllBytes(ordered) ==> v == BigEndian(ordered[..i])
    {
      if ordered[i] < 256 {
        OrShiftByte(v, ordered[i]);
      }
      assert ordered[..i + 1][..i] == ordered[..i];
      v := Or(Shl(v, 8), ordered[i]);
      i := i + 1;
    }
    assert ordered[..|ordered|] == ordered;
    if order == LsbFirst {
      LittleEndianIsReversedBigEndian(bs);
    }
  }

  /** Growing the mask by one bit below: bit b joins bits b+1..high, and it was not set before. */
  lemma FieldMaskStep(b: nat, high: nat)
    requires b <= high
    ensures Or(FieldMask(b + 1, high), Pow2(b)) == FieldMask(b, high)
    ensures FieldMask(b + 1, high) + Pow2(b) == FieldMask(b, high)
  {
    forall i: nat
      ensures Bit(Or(FieldMask(b + 1, high), Pow2(b)), i) == Bit(FieldMask(b, high), i)
      ensures Bit(And(FieldMask(b + 1, high), Pow2(b)), i) == Bit(0, i)
    {
      BitOr(FieldMask(b + 1, high), Pow2(b), i);
      BitAnd(FieldMask(b + 1, high), Pow2(b), i);
      FieldMaskBit(b + 1, high, i);
      FieldMaskBit(b, high, i);
      BitPow2(b, i);
      BitZero(i);
    }
    BitsEqual(Or(FieldMask(b + 1, high), Pow2(b)), FieldMask(b, high));
    BitsEqual(And(FieldMask(b + 1, high), Pow2(b)), 0);
    OrDisjoint(FieldMask(b + 1, high), Pow2(b));
  }

  /** An empty range of bits gives an empty mask. */
  lemma EmptyFieldMask(low: nat, high: nat)
    requires high < low
    ensures FieldMask(low, high) == 0
  {
  }

  /** The write path's mask: `mask |= 1 << bit` for bit from high down to low. */
  method MaskByOr(low: nat, high: nat) returns (mask: nat)
    ensures mask == FieldMask(low, high)
  {
    mask := 0;
    var bit: int := high;
    while bit >= low
      invariant bit <= high
      invariant bit >= low - 1 || bit == high
      invariant mask == FieldMask(bit + 1, high)
    {
      FieldMaskStep(bit, high);
      mask := Or(mask, Shl(1, bit));
      bit := bit - 1;
    }
    if bit == high {
      EmptyFieldMask(low, high);
    }
  }

  /** The read path's mask: `desired_bits += 1 << bit` for bit from high down to low. */
  method MaskBySum(low: nat, high: nat) returns (mask: nat)
    ensures mask == FieldMask(low, high)
  {
    mask := 0;
    var bit: int := high;
    while bit >= low
      invariant bit <= high
      invariant bit >= low - 1 || bit == high
      invariant mask == FieldMask(bit + 1, high)
    {
      FieldMaskStep(bit, high);
      mask := mask + Shl(1, bit);
      bit := bit - 1;
    }
    if bit == high {
      EmptyFieldMask(low, high);
    }
  }

  /** The command buffer a read of n bytes at register address a streams. */
  function ReadCommandAt(a: nat, n: nat): seq<nat>
  {
    [0x83, 0x02, 0x00, n, 0x82, a, 0x83]
  }

  /** The command buffer a write of the given bytes to register address a streams. */
  function WriteCommandAt(a: nat, bytes: seq<nat>): seq<nat>
  {
    [0x02, 0x00, 0x04, |bytes|, 0x82, a] + bytes
  }

  /** The trace of a wire read of n bytes at register address a. */
  function ReadTraceAt(eps: Endpoints, a: nat, n: nat, hw: Hardware): seq<Event>
  {
    ReceiveTrace(eps, ReadCommandAt(a, n), n, Wire, true, true, hw)
  }

  /** The register contents a read of n bytes returns. */
  function RegisterValue(eps: Endpoints, hw: Hardware, n: nat): nat
  {
    Value(MultiByteOrder, WireBytes(eps, hw, n))
  }

  /** The field value a read of n bytes of reg returns. */
  function FieldRead(eps: Endpoints, hw: Hardware, reg: Register, n: nat): nat
  {
    FieldValue(RegisterValue(eps, hw, n), reg.bitIndexLow, reg.bitIndexHigh)
  }

  /** Reads n bytes at register address a over the wire: a write-address, register, repeated-start read. */
  method ReadBytesAt(c: Controller, eps: Endpoints, a: nat, n: nat, hw: Hardware)
    returns (r: Option<seq<nat>>, trace: seq<Event>, c': Controller)
    ensures trace == ReadTraceAt(eps, a, n, hw)
    ensures r.Some? <==> Seen(hw, ReceivePolls)
    ensures r.Some? ==> r.value == WireBytes(eps, hw, n) && AllBytes(r.value)
  {
    AddressBytes();
    assert Shl(1, 1) == 2;
    assert ReadShape(Address, Reg([a])).preamble == [0x82, a, 0x83];
    assert [3 + ReadFlag, 2, 0, n] + [0x82, a, 0x83] == ReadCommandAt(a, n);
    var rx;
    rx, trace, c' := ReadLong(c, eps, Address, Reg([a]), n, Wire, true, true, hw);
    match rx {
      case Ok(Bytes(bs)) => r := Some(bs);
      case _ => r := None;
    }
  }

  /** Reads num_bytes bytes starting at a raw register address. */
  method ReadByAddr(c: Controller, eps: Endpoints, regAddr: nat, numBytes: nat, hw: Hardware)
    returns (r: Option<seq<nat>>, trace: seq<Event>, c': Controller)
    ensures trace == Upload(eps, [0x83, 0x02, 0x00, numBytes, 0x82, regAddr, 0x83])
                   + Polls(eps, PollCount(hw, ReceivePolls))
                   + (if Seen(hw, ReceivePolls) then [Pulse(eps.memStart)] + DrainReads(eps, numBytes) else [])
    ensures r.Some? <==> Seen(hw, ReceivePolls)
    ensures r.Some? ==> |r.value| == numBytes && AllBytes(r.value)
    ensures r.Some? ==> forall i :: 0 <= i < numBytes ==> r.value[i] == LaneDecode(eps.wireOut.bitIndexLow, OutValue(hw, i))
  {
    r, trace, c' := ReadBytesAt(c, eps, regAddr, numBytes, hw);
    if r.Some? {
      ReceiveWireBytes(eps, numBytes, hw);
    }
  }

  /** Reads a register and assembles the bytes into one integer, before any field is extracted. */
  method ReadRegister(c: Controller, eps: Endpoints, reg: Register, numberOfBytes: Option<nat>, hw: Hardware)
    returns (raw: Option<nat>, trace: seq<Event>, c': Controller)
    ensures var n := ByteCount(reg, numberOfBytes);
      && trace == ReadTraceAt(eps, reg.address, n, hw)
      && (raw.Some? <==> Seen(hw, ReceivePolls))
      && (raw.Some? ==> raw.value == RegisterValue(eps, hw, n))
  {
    var n := ByteCount(reg, numberOfBytes);
    var bytes;
    bytes, trace, c' := ReadBytesAt(c, eps, reg.address, n, hw);
    if bytes.None? {
      return None, trace, c';
    }
    var v := Assemble(MultiByteOrder, bytes.value);
    raw := Some(v);
  }

  /**
   Reads a register's bit field: None when the read times out, else the
   field's value, which fits in the field's width.
   */
  method Read(c: Controller, eps: Endpoints, reg: Register, numberOfBytes: Option<nat>, hw: Hardware)
    returns (value: Option<nat>, trace: seq<Event>, c': Controller)
    ensures var n := ByteCount(reg, numberOfBytes);
      && trace == ReadTraceAt(eps, reg.address, n, hw)
      && (value.Some? <==> Seen(hw, ReceivePolls))
      && (value.Some? ==> value.value == FieldRead(eps, hw, reg, n))
      && (value.Some? ==> value.value < Pow2(Width(reg.bitIndexLow, reg.bitIndexHigh)))
  {
    var raw;
    raw, trace, c' := ReadRegister(c, eps, reg, numberOfBytes, hw);
    if raw.None? {
      return None, trace, c';
    }
    var desired := MaskBySum(reg.bitIndexLow, reg.bitIndexHigh);
    ExtractIsFieldValue(raw.value, reg.bitIndexLow, reg.bitIndexHigh);
    value := Some(Shr(And(raw.value, desired), reg.bitIndexLow));
  }

  /** Writes bytes to register address a; the transmit's outcome is not reported. */
  method WriteBytesAt(c: Controller, eps: Endpoints, a: nat, bytes: seq<nat>, hw: Hardware)
    returns (trace: seq<Event>, c': Controller)
    ensures trace == TransmitTrace(eps, WriteCommandAt(a, bytes), hw)
  {
    AddressBytes();
    assert Shl(1, 2) == 4;
    assert WriteShape(Address, Reg([a])).preamble == [0x82, a];
    assert bytes[..|bytes|] == bytes;
    assert [2, 0, 4, |bytes|] + [0x82, a] + bytes == WriteCommandAt(a, bytes);
    var r;
    r, trace, c' := WriteLong(c, eps, Address, Reg([a]), |bytes|, bytes, hw);
  }

  /**
   Writes data into reg's bit field, keeping the register's other bits: reads
   the register, merges, and writes the merged value back as the bytes toList
   gives. Reports false, with no write, when the read times out.
   */
  method Write(c: Controller, eps: Endpoints, reg: Register, data: nat, toList: nat -> seq<nat>,
               readHw: Hardware, writeHw: Hardware)
    returns (written: bool, trace: seq<Event>, c': Controller)
    ensures var n := DefaultByteCount(reg);
      && (written <==> Seen(readHw, ReceivePolls))
      && (!written ==> trace == ReadTraceAt(eps, reg.address, n, readHw))
      && (written ==>
            var merged := InsertField(RegisterValue(eps, readHw, n), reg.bitIndexLow, reg.bitIndexHigh, data);
            trace == ReadTraceAt(eps, reg.address, n, readHw)
                     + TransmitTrace(eps, WriteCommandAt(reg.address, toList(merged)), writeHw))
  {
    var shifted := Shl(data, reg.bitIndexLow);
    var mask := MaskByOr(reg.bitIndexLow, reg.bitIndexHigh);
    var current, readTrace;
    current, readTrace, c' := ReadRegister(c, eps, reg, None, readHw);
    if current.None? {
      return false, readTrace, c';
    }
    var merged := Or(And(shifted, mask), AndNot(current.value, mask));
    var writeTrace;
    writeTrace, c' := WriteBytesAt(c', eps, reg.address, toList(merged), writeHw);
    trace := readTrace + writeTrace;
    written := true;
  }

  /**
   The write as the driver performs it: the merge takes its background from
   the field value that Read returns, not from the register's contents.
   */
  method WriteAsWritten(c: Controller, eps: Endpoints, reg: Register, data: nat, toList: nat -> seq<nat>,
                        readHw: Hardware, writeHw: Hardware)
    returns (written: bool, trace: seq<Event>, c': Controller)
    ensures var n := DefaultByteCount(reg);
      && (written <==> Seen(readHw, ReceivePolls))
      && (!written ==> trace == ReadTraceAt(eps, reg.address, n, readHw))
      && (written ==>
            var merged := InsertField(FieldRead(eps, readHw, reg, n), reg.bitIndexLow, reg.bitIndexHigh, data);
            trace == ReadTraceAt(eps, reg.address, n, readHw)
                     + TransmitTrace(eps, WriteCommandAt(reg.address, toList(merged)), writeHw))
  {
    var shifted := Shl(data, reg.bitIndexLow);
    var mask := MaskByOr(reg.bitIndexLow, reg.bitIndexHigh);
    var readOut, readTrace;
    readOut, readTrace, c' := Read(c, eps, reg, None, readHw);
    if readOut.None? {
      return false, readTrace, c';
    }
    var merged := Or(And(shifted, mask), AndNot(readOut.value, mask));
    var writeTrace;
    writeTrace, c' := WriteBytesAt(c', eps, reg.address, toList(merged), writeHw);
    trace := readTrace + writeTrace;
    written := true;
  }

  /** Bits 4..7 form the mask 0xF0. */
  lemma HighNibbleMask()
    ensures FieldMask(4, 7) == 0xF0
  {
  }

  /** Bits 4..7 of 0xAB hold 0xA. */
  lemma HighNibbleOfAB()
    ensures FieldValue(0xAB, 4, 7) == 0x0A
  {
  }

  /** Inserting 5 into bits 4..7 of any background is the merge under mask 0xF0. */
  lemma InsertFiveIntoHighNibble(background: nat)
    ensures InsertField(background, 4, 7, 5) == Merge(5, 4, 0xF0, background)
  {
    HighNibbleMask();
  }

  /** Clearing bits 4..7 of 0xAB leaves 0x0B. */
  lemma ClearHighNibbleOfAB()
    ensures AndNot(0xAB, 0xF0) == 0x0B
  {
    assert AndNot(1, 1) == 0;
    assert AndNot(2, 3) == 0;
    assert AndNot(5, 7) == 0;
    assert AndNot(10, 15) == 0;
    assert AndNot(21, 30) == 1;
    assert AndNot(42, 60) == 2;
    assert AndNot(85, 120) == 5;
  }

  /** 5 shifted into bits 4..7 is 0x50, and it survives the mask. */
  lemma FiveInHighNibble()
    ensures And(Shl(5, 4), 0xF0) == 0x50
  {
  }

  /** Merging 5 into bits 4..7 over 0x0A. */
  lemma MergeOverFieldValue()
    ensures Merge(5, 4, 0xF0, 0x0A) == 0x5A
  {
    FiveInHighNibble();
    KeepLowNibbleOfA();
    assert Or(0x50, 0x0A) == 0x5A;
  }

  /** 0x0A has nothing in bits 4..7 to clear. */
  lemma KeepLowNibbleOfA()
    ensures AndNot(0x0A, 0xF0) == 0x0A
  {
  }

  /** Merging 5 into bits 4..7 over 0xAB. */
  lemma MergeOverRegister()
    ensures Merge(5, 4, 0xF0, 0xAB) == 0x5B
  {
    ClearHighNibbleOfAB();
    FiveInHighNibble();
    assert Or(0x50, 0x0B) == 0x5B;
  }

  /** As written: 5 into bits 4..7 over the field value 0xA of 0xAB gives 0x5A. */
  lemma AsWrittenMergeOfAB()
    ensures InsertField(FieldValue(0xAB, 4, 7), 4, 7, 5) == 0x5A
  {
    HighNibbleOfAB();
    InsertFiveIntoHighNibble(0x0A);
    MergeOverFieldValue();
  }

  /** Corrected: 5 into bits 4..7 of 0xAB itself gives 0x5B. */
  lemma CorrectedMergeOfAB()
    ensures InsertField(0xAB, 4, 7, 5) == 0x5B
  {
    InsertFiveIntoHighNibble(0xAB);
    MergeOverRegister();
  }

  /**
   Writing 5 into bits 4..7 of a register holding 0xAB: the as-written merge
   clears bit 0, which lies outside the field and is set in the register;
   the corrected merge keeps it.
   */
  lemma WriteAsWrittenLosesBits()
    ensures Bit(0xAB, 0) == 1
    ensures Bit(InsertField(FieldValue(0xAB, 4, 7), 4, 7, 5), 0) == 0
    ensures Bit(InsertField(0xAB, 4, 7, 5), 0) == 1
  {
    AsWrittenMergeOfAB();
    CorrectedMergeOfAB();
    assert Bit(0x5A, 0) == 0;
    assert Bit(0x5B, 0) == 1;
  }

  /** Reads the APPID register; fails unless it names a known application. */
  method ReadApp(c: Controller, eps: Endpoints, appId: Register, hw: Hardware)
    returns (r: Result<nat, AppError>, trace: seq<Event>, c': Controller)
    ensures var n := DefaultByteCount(appId);
      && trace == ReadTraceAt(eps, appId.address, n, hw)
      && (r.Ok? <==> Seen(hw, ReceivePolls) && FieldRead(eps, hw, appId, n) in {MeasureApp, BootloaderApp})
      && (r.Ok? ==> r.value == FieldRead(eps, hw, appId, n))
  {
    var v;
    v, trace, c' := Read(c, eps, appId, None, hw);
    if v.Some? && (v.value == MeasureApp || v.value == BootloaderApp) {
      r := Ok(v.value);
    } else {
      r := Err(UnknownApp(v));
    }
  }

  /** Sends the download-init command [0x14, 0x01, 0x29, 0xC1] to CMD_STAT. */
  method DownloadInit(c: Controller, eps: Endpoints, cmdStat: Register, hw: Hardware)
    returns (trace: seq<Event>, c': Controller)
    ensures trace == TransmitTrace(eps, [0x02, 0x00, 0x04, 0x04, 0x82, cmdStat.address, 0x14, 0x01, 0x29, 0xC1], hw)
  {
    trace, c' := WriteBytesAt(c, eps, cmdStat.address, DownloadInitData, hw);
    assert WriteCommandAt(cmdStat.address, DownloadInitData)
        == [0x02, 0x00, 0x04, 0x04, 0x82, cmdStat.address, 0x14, 0x01, 0x29, 0xC1];
  }

  /** Sends the RAM-remap-and-reset command [0x11, 0x00, 0xEE] to CMD_STAT. */
  method RamremapReset(c: Controller, eps: Endpoints, cmdStat: Register, hw: Hardware)
    returns (trace: seq<Event>, c': Controller)
    ensures trace == TransmitTrace(eps, [0x02, 0x00, 0x04, 0x03, 0x82, cmdStat.address, 0x11, 0x00, 0xEE], hw)
  {
    trace, c' := WriteBytesAt(c, eps, cmdStat.address, RamremapResetData, hw);
    assert WriteCommandAt(cmdStat.address, RamremapResetData)
        == [0x02, 0x00, 0x04, 0x03, 0x82, cmdStat.address, 0x11, 0x00, 0xEE];
  }
}
