/**
 The I2C controller: the command buffer it builds (a control header followed by
 the preamble and, for a write, the payload), how it streams that buffer into
 the FPGA and waits for the done flag, and how a read drains the result over
 the wire-out register or the bulk pipe.
 */
module I2CController {
  import opened Wrappers
  import opened Bits
  import opened I2CTrace

  /** Maximum wait for a transaction, in milliseconds. */
  const I2CMaxTimeoutMs: nat := 50
  /** A transmit polls the done flag every millisecond. */
  const TransmitPolls: nat := I2CMaxTimeoutMs
  /** A receive polls the done flag every ten milliseconds. */
  const ReceivePolls: nat := I2CMaxTimeoutMs / 10
  /** The longest preamble the hardware buffer holds. */
  const MaxPreamble: nat := 7
  /** The read flag a receive sets in byte 0 of the command buffer. */
  const ReadFlag: nat := 0x80

  /**
   The controller's command buffer and the index where the payload starts.
   Byte 0 is the preamble length (with the read flag), byte 1 the start mask,
   byte 2 the stop mask, byte 3 the payload length, then the preamble.
   */
  datatype Controller = Controller(buf: seq<nat>, dataStart: nat)

  /** A buffer that holds at least the control header and the preamble. */
  predicate Configured(c: Controller)
  {
    4 <= c.dataStart <= |c.buf|
  }

  /** Why a transaction did not take place. */
  datatype Error = PreambleTooLong(length: nat) | MissingEndpoint

  /** How a receive hands back its data. */
  datatype Transfer = Wire | Pipe | Unrecognised

  /** A register address: absent for single-register chips, else its bytes. */
  datatype RegAddr = NoReg | Reg(bytes: seq<nat>)

  /** What a receive returns: nothing, the bytes read over the wire, or the pipe's reply. */
  datatype RxValue = Nothing | Bytes(data: seq<nat>) | Piped(reply: PipeReply)

  /** The arguments a transaction passes to configure: preamble, start mask, stop mask. */
  datatype Shape = Shape(preamble: seq<nat>, starts: nat, stops: nat)

  /**
   Configuration exactly as the controller performs it: a fresh buffer of
   4 + n entries, filled position by position. No length check is made.
   */
  function ConfigureAsWritten(n: nat, starts: nat, stops: nat, preamble: seq<nat>): (c: Controller)
    requires n <= |preamble|
    ensures c.buf == [n, starts, stops, 0] + preamble[..n]
    ensures c.dataStart == |c.buf| == 4 + n
    ensures Configured(c)
  {
    var buf := seq(4 + n, i requires 0 <= i < 4 + n =>
      if i == 0 then n
      else if i == 1 then starts
      else if i == 2 then stops
      else if i == 3 then 0
      else preamble[i - 4]);
    Controller(buf, 4 + n)
  }

  /**
   Configuration that refuses a preamble longer than the buffer holds. The
   result depends on the arguments alone: whatever was configured before is
   discarded.
   */
  function Configure(n: nat, starts: nat, stops: nat, preamble: seq<nat>): (r: Result<Controller, Error>)
    requires n <= |preamble|
    ensures r.Err? <==> n > MaxPreamble
    ensures r.Err? ==> r.error == PreambleTooLong(n)
    ensures r.Ok? ==> r.value.buf == [n, starts, stops, 0] + preamble[..n]
    ensures r.Ok? ==> r.value.dataStart == |r.value.buf| == 4 + n
  {
    if n > MaxPreamble then Err(PreambleTooLong(n)) else Ok(ConfigureAsWritten(n, starts, stops, preamble))
  }

  /** The controller as written accepts an 8-byte preamble, which the hardware buffer does not hold. */
  lemma ConfigureAcceptsLongPreamble(starts: nat, stops: nat, preamble: seq<nat>)
    requires |preamble| == 8
    ensures |ConfigureAsWritten(8, starts, stops, preamble).buf| == 12
    ensures ConfigureAsWritten(8, starts, stops, preamble).buf[0] > MaxPreamble
    ensures Configure(8, starts, stops, preamble) == Err(PreambleTooLong(8))
  {
  }

  /** The device address with the R/W bit cleared (write): `devAddr & 0xfe`. */
  function WriteAddress(dev: nat): (a: nat)
    ensures a < 256 && a % 2 == 0
    ensures a / 2 == (dev % 256) / 2
  {
    AndOnes(dev / 2, 7);
    assert And(dev, 0xfe) == 2 * And(dev / 2, 0x7f) by {
      assert Pow2(7) - 1 == 0x7f;
    }
    ModDouble(dev, 128);
    And(dev, 0xfe)
  }

  /** The device address with the R/W bit set (read): `devAddr | 1`. */
  function ReadAddress(dev: nat): (a: nat)
    ensures a % 2 == 1
    ensures a / 2 == dev / 2
  {
    assert Or(dev / 2, 0) == dev / 2;
    Or(dev, 1)
  }

  /** Preamble and masks of a write: the write address, then the register address; a stop after the preamble. */
  function WriteShape(dev: nat, reg: RegAddr): Shape
  {
    var preamble := match reg
      case NoReg => [WriteAddress(dev)]
      case Reg(bytes) => [WriteAddress(dev)] + bytes;
    Shape(preamble, 0, Shl(1, |preamble|))
  }

  /**
   Preamble and masks of a read. Without a register address: the read address
   alone. With one: write address, register address, then a repeated start and
   the read address.
   */
  function ReadShape(dev: nat, reg: RegAddr): Shape
  {
    match reg
    case NoReg => Shape([ReadAddress(dev)], 0, 0)
    case Reg(bytes) => Shape([WriteAddress(dev)] + bytes + [ReadAddress(dev)], Shl(1, |bytes|), 0)
  }

  /**
   A write addresses the device with the R/W bit clear, then sends the register
   address; the only stop mark sits one past the last preamble byte, and there
   is no start mark.
   */
  lemma WriteShapeAddressing(dev: nat, reg: RegAddr)
    ensures var s := WriteShape(dev, reg);
      && |s.preamble| >= 1
      && s.preamble[0] % 2 == 0 && s.preamble[0] / 2 == (dev % 256) / 2
      && (reg.Reg? ==> s.preamble[1..] == reg.bytes)
      && (reg.NoReg? ==> |s.preamble| == 1)
      && s.starts == 0
      && forall i: nat :: Bit(s.stops, i) == if i == |s.preamble| then 1 else 0
  {
    var s := WriteShape(dev, reg);
    forall i: nat
      ensures Bit(s.stops, i) == if i == |s.preamble| then 1 else 0
    {
      BitPow2(|s.preamble|, i);
    }
  }

  /**
   A read ends with the device address carrying the R/W bit set. With a
   register address it starts with the write address and the register bytes,
   and its one start mark is at the byte just before the read address (the
   repeated START); without one it is the read address alone with no marks.
   */
  lemma ReadShapeAddressing(dev: nat, reg: RegAddr)
    ensures var s := ReadShape(dev, reg); var p := s.preamble;
      && |p| >= 1
      && p[|p| - 1] % 2 == 1 && p[|p| - 1] / 2 == dev / 2
      && s.stops == 0
      && (reg.NoReg? ==> |p| == 1 && s.starts == 0)
      && (reg.Reg? ==>
            && |p| == |reg.bytes| + 2
            && p[0] % 2 == 0 && p[0] / 2 == (dev % 256) / 2
            && p[1 .. |p| - 1] == reg.bytes
            && forall i: nat :: Bit(s.starts, i) == if i + 2 == |p| then 1 else 0)
  {
    var s := ReadShape(dev, reg);
    if reg.Reg? {
      forall i: nat
        ensures Bit(s.starts, i) == if i + 2 == |s.preamble| then 1 else 0
      {
        BitPow2(|reg.bytes|, i);
      }
    }
  }

  /** The trace of a transmit of the given command bytes. */
  function TransmitTrace(eps: Endpoints, bytes: seq<nat>, hw: Hardware): seq<Event>
  {
    Upload(eps, bytes) + Polls(eps, PollCount(hw, TransmitPolls))
  }

  /** A pipe receive that resets the FIFO needs both pipe endpoints. */
  predicate MissingPipeEndpoint(eps: Endpoints, mode: Transfer, resetPipe: bool)
  {
    mode == Pipe && resetPipe && (eps.fifoReset.None? || eps.pipeOut.None?)
  }

  /** Whether a raised done flag ends a receive's wait; with readout, an unrecognised mode ignores it. */
  predicate ActsOnDone(mode: Transfer, readout: bool)
  {
    !readout || mode != Unrecognised
  }

  /** Whether a receive sees the done flag and acts on it. */
  predicate ReceiveSeen(hw: Hardware, mode: Transfer, readout: bool)
  {
    ActsOnDone(mode, readout) && Seen(hw, ReceivePolls)
  }

  /** The number of polls a receive makes. */
  function ReceivePollCount(hw: Hardware, mode: Transfer, readout: bool): (n: nat)
    ensures n <= ReceivePolls
    ensures !ReceiveSeen(hw, mode, readout) ==> n == ReceivePolls
  {
    if ActsOnDone(mode, readout) then PollCount(hw, ReceivePolls) else ReceivePolls
  }

  /** The bytes a wire read returns: byte i is the lane of wire-out read i. */
  function WireBytes(eps: Endpoints, hw: Hardware, k: nat): (bs: seq<nat>)
    ensures |bs| == k
    ensures forall i :: 0 <= i < k ==> bs[i] < 256
  {
    seq(k, i requires 0 <= i < k => Shr(OutValue(hw, i), eps.wireOut.bitIndexLow) % 256)
  }

  /** The events that fetch a receive's data once the done flag is seen. */
  function DrainEvents(eps: Endpoints, k: nat, mode: Transfer): seq<Event>
  {
    match mode
    case Wire => [Pulse(eps.memStart)] + DrainReads(eps, k)
    case Pipe => if eps.pipeOut.Some? then [ReadPipe(eps.pipeOut.value.address, k)] else []
    case Unrecognised => []
  }

  /** The trace of a receive that streams the command bytes `cmd`. */
  function ReceiveTrace(eps: Endpoints, cmd: seq<nat>, k: nat, mode: Transfer, resetPipe: bool,
                        readout: bool, hw: Hardware): seq<Event>
    requires !MissingPipeEndpoint(eps, mode, resetPipe)
  {
    (if mode == Pipe && resetPipe then [Pulse(eps.fifoReset.value)] else [])
    + Upload(eps, cmd)
    + Polls(eps, ReceivePollCount(hw, mode, readout))
    + (if ReceiveSeen(hw, mode, readout) && readout then DrainEvents(eps, k, mode) else [])
  }

  /** What a receive returns. */
  function ReceiveResult(eps: Endpoints, k: nat, mode: Transfer, readout: bool, hw: Hardware): Result<RxValue, Error>
  {
    if !(ReceiveSeen(hw, mode, readout) && readout) then Ok(Nothing)
    else match mode
      case Wire => Ok(Bytes(WireBytes(eps, hw, k)))
      case Pipe => if eps.pipeOut.Some? then Ok(Piped(hw.pipe)) else Err(MissingEndpoint)
      case Unrecognised => Ok(Nothing)
  }

  /** The buffer a receive streams from: read flag set in byte 0, payload length in byte 3. */
  function ReadCommand(c: Controller, k: nat): seq<nat>
    requires Configured(c)
  {
    c.buf[0 := Or(c.buf[0], ReadFlag)][3 := k]
  }

  /** For a preamble length below 128 the read flag is bit 7 on top of the length. */
  lemma ReadFlagKeepsLength(n: nat)
    requires n < 128
    ensures Or(n, ReadFlag) == n + ReadFlag
    ensures Or(n, ReadFlag) % 128 == n
    ensures Bit(Or(n, ReadFlag), 7) == 1
  {
    assert ReadFlag == Pow2(7);
    forall i: nat
      ensures Bit(And(n, ReadFlag), i) == Bit(0, i)
    {
      BitAnd(n, ReadFlag, i);
      BitPow2(7, i);
      BitZero(i);
      if i >= 7 {
        BitAbove(n, 7, i);
      }
    }
    BitsEqual(And(n, ReadFlag), 0);
    OrDisjoint(n, ReadFlag);
    BitOr(n, ReadFlag, 7);
    BitPow2(7, 7);
  }

  /** A receive after configuration streams the header with the read flag and payload length, then the preamble. */
  lemma ReadCommandLayout(n: nat, starts: nat, stops: nat, preamble: seq<nat>, k: nat)
    requires n <= MaxPreamble && n <= |preamble|
    ensures var c := ConfigureAsWritten(n, starts, stops, preamble);
      ReadCommand(c, k)[..c.dataStart] == [n + ReadFlag, starts, stops, k] + preamble[..n]
  {
    ReadFlagKeepsLength(n);
  }

  /** Pushes bs into the command buffer one byte at a time, as transmit and receive do. */
  method StreamBuffer(eps: Endpoints, bs: seq<nat>) returns (events: seq<Event>)
    ensures events == Stream(eps, bs)
  {
    events := [];
    var i := 0;
    while i < |bs|
      invariant 0 <= i <= |bs|
      invariant events == Stream(eps, bs[..i])
    {
      var mask := LaneMask(eps.wireIn.bitIndexLow);
      var value := LaneEncode(eps.wireIn.bitIndexLow, bs[i]);
      events := events + [SetWireIn(eps.wireIn.address, value, mask), UpdateWireIns, Pulse(eps.memWrite)];
      assert bs[..i + 1][..i] == bs[..i];
      i := i + 1;
    }
    assert bs[..|bs|] == bs;
  }

  /**
   Polls the done flag at most `budget` times. When `acts` holds, the first
   raised flag ends the wait; otherwise every poll is made and none counts.
   */
  method AwaitDone(hw: Hardware, budget: nat, acts: bool) returns (seen: bool, polls: nat)
    ensures seen == (acts && Seen(hw, budget))
    ensures polls == if acts then PollCount(hw, budget) else budget
  {
    polls := 0;
    while polls < budget
      invariant polls <= budget
      invariant forall j :: 0 <= j < polls ==> !(acts && Raised(hw, j))
    {
      var flag := Raised(hw, polls);
      polls := polls + 1;
      if acts && flag {
        return true, polls;
      }
    }
    seen := false;
  }

  /**
   Sets the payload length, appends k payload bytes, streams header, preamble
   and payload, starts the transaction and waits up to 50 polls for done.
   */
  method Transmit(c: Controller, eps: Endpoints, data: seq<nat>, k: nat, hw: Hardware)
    returns (sent: bool, trace: seq<Event>, c': Controller)
    requires Configured(c)
    requires k <= |data|
    ensures c' == Controller(c.buf[3 := k] + data[..k], c.dataStart)
    ensures Configured(c')
    ensures sent == Seen(hw, TransmitPolls)
    ensures trace == TransmitTrace(eps, c'.buf[..c.dataStart + k], hw)
  {
    var buf := c.buf[3 := k];
    var i := 0;
    while i < k
      invariant 0 <= i <= k
      invariant buf == c.buf[3 := k] + data[..i]
    {
      buf := buf + [data[i]];
      assert data[..i + 1] == data[..i] + [data[i]];
      i := i + 1;
    }
    c' := Controller(buf, c.dataStart);
    var stream := StreamBuffer(eps, buf[..c.dataStart + k]);
    trace := [Pulse(eps.memStart)] + stream + [Pulse(eps.start)];
    var polls;
    sent, polls := AwaitDone(hw, TransmitPolls, true);
    trace := trace + Polls(eps, polls);
  }

  /** Reads k bytes back over the wire-out register, decoding each from its byte lane. */
  method DrainWire(eps: Endpoints, k: nat, hw: Hardware) returns (data: seq<nat>, events: seq<Event>)
    ensures data == WireBytes(eps, hw, k)
    ensures events == DrainReads(eps, k)
  {
    var off := eps.wireOut.bitIndexLow;
    data := [];
    events := [];
    var i := 0;
    while i < k
      invariant 0 <= i <= k
      invariant data == WireBytes(eps, hw, i)
      invariant events == DrainReads(eps, i)
    {
      var v := OutValue(hw, i);
      events := events + [ReadWireOut(eps.wireOut.address)];
      LaneDecodeIsByte(off, v);
      data := data + [Shr(And(v, LaneMask(off)), off)];
      events := events + [Pulse(eps.memRead)];
      i := i + 1;
    }
  }

  /**
   Marks the buffer as a read of k bytes, streams the header and preamble only,
   starts the transaction and waits up to 5 polls for done; then drains the
   data over the wire-out register or hands back the pipe's reply.
   */
  method Receive(c: Controller, eps: Endpoints, k: nat, mode: Transfer, resetPipe: bool, readout: bool,
                 hw: Hardware)
    returns (r: Result<RxValue, Error>, trace: seq<Event>, c': Controller)
    requires Configured(c)
    ensures MissingPipeEndpoint(eps, mode, resetPipe) ==> r == Err(MissingEndpoint) && trace == [] && c' == c
    ensures !MissingPipeEndpoint(eps, mode, resetPipe) ==>
      && c' == Controller(ReadCommand(c, k), c.dataStart)
      && trace == ReceiveTrace(eps, c'.buf[..c.dataStart], k, mode, resetPipe, readout, hw)
      && r == ReceiveResult(eps, k, mode, readout, hw)
  {
    if MissingPipeEndpoint(eps, mode, resetPipe) {
      return Err(MissingEndpoint), [], c;
    }
    var pre: seq<Event> := [];
    if mode == Pipe && resetPipe {
      pre := [Pulse(eps.fifoReset.value)];
    }
    var buf := c.buf[0 := Or(c.buf[0], ReadFlag)][3 := k];
    c' := Controller(buf, c.dataStart);
    var stream := StreamBuffer(eps, buf[..c.dataStart]);
    var seen, polls := AwaitDone(hw, ReceivePolls, ActsOnDone(mode, readout));
    var drain: seq<Event> := [];
    r := Ok(Nothing);
    if seen && readout {
      match mode
      case Wire =>
        var data, drained := DrainWire(eps, k, hw);
        drain := [Pulse(eps.memStart)] + drained;
        r := Ok(Bytes(data));
      case Pipe =>
        match eps.pipeOut {
          case None =>
            r := Err(MissingEndpoint);
          case Some(p) =>
            drain := [ReadPipe(p.address, k)];
            r := Ok(Piped(hw.pipe));
        }
      case Unrecognised =>
    }
    assert drain == if ReceiveSeen(hw, mode, readout) && readout then DrainEvents(eps, k, mode) else [];
    trace := pre + ([Pulse(eps.memStart)] + stream + [Pulse(eps.start)]) + Polls(eps, polls) + drain;
  }

  /** Writes k bytes of data to register reg of device dev: configure with the write shape, then transmit. */
  method WriteLong(c: Controller, eps: Endpoints, dev: nat, reg: RegAddr, k: nat, data: seq<nat>, hw: Hardware)
    returns (r: Result<bool, Error>, trace: seq<Event>, c': Controller)
    requires k <= |data|
    ensures var s := WriteShape(dev, reg); var n := |s.preamble|;
      && (n > MaxPreamble ==> r == Err(PreambleTooLong(n)) && trace == [] && c' == c)
      && (n <= MaxPreamble ==>
            && r == Ok(Seen(hw, TransmitPolls))
            && c' == Controller([n, s.starts, s.stops, k] + s.preamble + data[..k], 4 + n)
            && trace == TransmitTrace(eps, [n, s.starts, s.stops, k] + s.preamble + data[..k], hw))
  {
    var s := WriteShape(dev, reg);
    var n := |s.preamble|;
    var configured := Configure(n, s.starts, s.stops, s.preamble);
    if configured.Err? {
      return Err(configured.error), [], c;
    }
    var sent;
    sent, trace, c' := Transmit(configured.value, eps, data, k, hw);
    assert configured.value.buf[3 := k] == [n, s.starts, s.stops, k] + s.preamble;
    assert c'.buf[..c'.dataStart + k] == c'.buf;
    r := Ok(sent);
  }

  /** Reads k bytes from register reg of device dev: configure with the read shape, then receive. */
  method ReadLong(c: Controller, eps: Endpoints, dev: nat, reg: RegAddr, k: nat, mode: Transfer,
                  resetPipe: bool, readout: bool, hw: Hardware)
    returns (r: Result<RxValue, Error>, trace: seq<Event>, c': Controller)
    ensures var s := ReadShape(dev, reg); var n := |s.preamble|;
      && (n > MaxPreamble ==> r == Err(PreambleTooLong(n)) && trace == [] && c' == c)
      && (n <= MaxPreamble && MissingPipeEndpoint(eps, mode, resetPipe) ==>
            && r == Err(MissingEndpoint) && trace == []
            && c' == Controller([n, s.starts, s.stops, 0] + s.preamble, 4 + n))
      && (n <= MaxPreamble && !MissingPipeEndpoint(eps, mode, resetPipe) ==>
            && c' == Controller([n + ReadFlag, s.starts, s.stops, k] + s.preamble, 4 + n)
            && trace == ReceiveTrace(eps, [n + ReadFlag, s.starts, s.stops, k] + s.preamble, k, mode,
                                     resetPipe, readout, hw)
            && r == ReceiveResult(eps, k, mode, readout, hw))
  {
    var s := ReadShape(dev, reg);
    var n := |s.preamble|;
    var configured := Configure(n, s.starts, s.stops, s.preamble);
    if configured.Err? {
      return Err(configured.error), [], c;
    }
    ReadCommandLayout(n, s.starts, s.stops, s.preamble, k);
    assert s.preamble[..n] == s.preamble;
    r, trace, c' := Receive(configured.value, eps, k, mode, resetPipe, readout, hw);
  }

  /** Pulses the controller's RESET trigger. */
  function ResetDevice(eps: Endpoints): (trace: seq<Event>)
    ensures |trace| == 1
    ensures trace[0] == Trigger(eps.reset.address, eps.reset.bitIndexLow)
    ensures NoOutputReads(trace)
  {
    [Pulse(eps.reset)]
  }

  /** Polling the done flag writes nothing to the wire-in. */
  lemma {:induction false} PollsCarryNoBytes(eps: Endpoints, off: nat, n: nat)
    ensures WrittenBytes(off, Polls(eps, n)) == []
    decreases n
  {
    if n > 0 {
      var ps := Polls(eps, n);
      assert ps[..n - 1] == Polls(eps, n - 1);
      PollsCarryNoBytes(eps, off, n - 1);
    }
  }

  /**
   A transmit delivers exactly its command buffer: the bytes decoded from the
   wire-in writes of its trace are the streamed bytes, in order, whatever the
   done flag does.
   */
  lemma TransmitDeliversBytes(eps: Endpoints, bytes: seq<nat>, hw: Hardware)
    requires forall i :: 0 <= i < |bytes| ==> bytes[i] < 256
    ensures WrittenBytes(eps.wireIn.bitIndexLow, TransmitTrace(eps, bytes, hw)) == bytes
  {
    var off := eps.wireIn.bitIndexLow;
    UploadRoundTrip(eps, bytes);
    PollsCarryNoBytes(eps, off, PollCount(hw, TransmitPolls));
    WrittenBytesAppend(off, Upload(eps, bytes), Polls(eps, PollCount(hw, TransmitPolls)));
  }

  /** Two traces without output reads make one. */
  lemma NoOutputReadsAppend(a: seq<Event>, b: seq<Event>)
    requires NoOutputReads(a) && NoOutputReads(b)
    ensures NoOutputReads(a + b)
  {
    forall i | 0 <= i < |a + b|
      ensures !(a + b)[i].ReadWireOut? && !(a + b)[i].ReadPipe?
    {
      if i >= |a| {
        assert (a + b)[i] == b[i - |a|];
      }
    }
  }

  /** Without readout a receive still waits for the done flag, but returns nothing and reads no output. */
  lemma ReceiveWithoutReadout(eps: Endpoints, cmd: seq<nat>, k: nat, mode: Transfer, resetPipe: bool, hw: Hardware)
    requires !MissingPipeEndpoint(eps, mode, resetPipe)
    ensures ReceiveResult(eps, k, mode, false, hw) == Ok(Nothing)
    ensures ReceivePollCount(hw, mode, false) == PollCount(hw, ReceivePolls)
    ensures NoOutputReads(ReceiveTrace(eps, cmd, k, mode, resetPipe, false, hw))
  {
    var pre: seq<Event> := if mode == Pipe && resetPipe then [Pulse(eps.fifoReset.value)] else [];
    UploadNoOutputReads(eps, cmd);
    NoOutputReadsAppend(pre, Upload(eps, cmd));
    NoOutputReadsAppend(pre + Upload(eps, cmd), Polls(eps, ReceivePollCount(hw, mode, false)));
    assert ReceiveTrace(eps, cmd, k, mode, resetPipe, false, hw)
        == pre + Upload(eps, cmd) + Polls(eps, ReceivePollCount(hw, mode, false)) + [];
  }

  /** A receive that never sees the done flag makes all five polls, drains nothing and returns nothing. */
  lemma ReceiveTimeout(eps: Endpoints, cmd: seq<nat>, k: nat, mode: Transfer, resetPipe: bool, readout: bool,
                       hw: Hardware)
    requires !MissingPipeEndpoint(eps, mode, resetPipe)
    requires !Seen(hw, ReceivePolls)
    ensures ReceiveResult(eps, k, mode, readout, hw) == Ok(Nothing)
    ensures ReceiveTrace(eps, cmd, k, mode, resetPipe, readout, hw)
         == (if mode == Pipe && resetPipe then [Pulse(eps.fifoReset.value)] else [])
            + Upload(eps, cmd) + Polls(eps, ReceivePolls)
  {
  }

  /** A wire receive that sees the done flag returns exactly k bytes, byte i taken from the lane of read i. */
  lemma ReceiveWireBytes(eps: Endpoints, k: nat, hw: Hardware)
    requires Seen(hw, ReceivePolls)
    ensures ReceiveResult(eps, k, Wire, true, hw).Ok?
    ensures var r := ReceiveResult(eps, k, Wire, true, hw).value;
      && r.Bytes? && |r.data| == k
      && forall i :: 0 <= i < k ==> r.data[i] < 256 && r.data[i] == LaneDecode(eps.wireOut.bitIndexLow, OutValue(hw, i))
  {
    var r := ReceiveResult(eps, k, Wire, true, hw).value;
    forall i | 0 <= i < k
      ensures r.data[i] == LaneDecode(eps.wireOut.bitIndexLow, OutValue(hw, i))
    {
      LaneDecodeIsByte(eps.wireOut.bitIndexLow, OutValue(hw, i));
    }
  }
}
