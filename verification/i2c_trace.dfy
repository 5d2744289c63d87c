/**
 The FPGA side of the I2C controller, seen as a trace of events. Every call
 into the Opal Kelly transport becomes one `Event`; the answers the hardware
 gives during one transaction (the done flag at each poll, the wire-out value
 at each read, the bulk pipe reply) come in a `Hardware` record.
 */
module I2CTrace {
  import opened Wrappers
  import opened Bits
  import opened BitField

  /** The 8-bit lane of a wire register that carries one byte. */
  const ByteMask: nat := 0xff

  /** A named trigger or wire on the FPGA: its address and the lowest bit it uses. */
  datatype Endpoint = Endpoint(address: nat, bitIndexLow: nat)

  /** The endpoints one controller drives; the two pipe endpoints are optional. */
  datatype Endpoints = Endpoints(
    memStart: Endpoint,
    memWrite: Endpoint,
    memRead: Endpoint,
    wireIn: Endpoint,
    wireOut: Endpoint,
    start: Endpoint,
    done: Endpoint,
    reset: Endpoint,
    fifoReset: Option<Endpoint>,
    pipeOut: Option<Endpoint>)

  /** One interaction with the FPGA. */
  datatype Event =
    | Trigger(address: nat, bit: nat)                 // ActivateTriggerIn
    | SetWireIn(address: nat, value: nat, mask: nat)  // SetWireInValue
    | UpdateWireIns                                   // commit the pending wire writes
    | PollTrigger(address: nat, mask: nat)            // UpdateTriggerOuts, then IsTriggered
    | ReadWireOut(address: nat)                       // UpdateWireOuts, then GetWireOutValue
    | ReadPipe(address: nat, length: nat)             // bulk read of the pipe-out FIFO

  /** What a bulk pipe read hands back: a buffer and an error code, passed on unread. */
  datatype PipeReply = PipeReply(buf: seq<nat>, code: int)

  /**
   The hardware's answers during one transaction: `done[j]` is the done flag at
   poll j, `wireOut[i]` the wire-out register at read i. A poll past the end of
   `done` sees no flag, and a read past the end of `wireOut` sees 0.
   */
  datatype Hardware = Hardware(done: seq<bool>, wireOut: seq<nat>, pipe: PipeReply)

  /** Pulsing an endpoint's trigger. */
  function Pulse(ep: Endpoint): Event
  {
    Trigger(ep.address, ep.bitIndexLow)
  }

  /** Whether poll j of the transaction sees the done flag. */
  predicate Raised(hw: Hardware, j: nat)
  {
    j < |hw.done| && hw.done[j]
  }

  /** The wire-out register's value at read i of the transaction. */
  function OutValue(hw: Hardware, i: nat): nat
  {
    if i < |hw.wireOut| then hw.wireOut[i] else 0
  }

  /** Whether one of the first `budget` polls sees the done flag. */
  predicate Seen(hw: Hardware, budget: nat)
  {
    exists j :: 0 <= j < budget && Raised(hw, j)
  }

  /** Polls made from poll i on: up to and including the first raised flag, at most up to the budget. */
  function PollsFrom(hw: Hardware, i: nat, budget: nat): (n: nat)
    requires i <= budget
    ensures i <= n <= budget
    ensures (exists j :: i <= j < budget && Raised(hw, j)) ==>
              1 <= n && Raised(hw, n - 1) && forall j :: i <= j < n - 1 ==> !Raised(hw, j)
    ensures !(exists j :: i <= j < budget && Raised(hw, j)) ==> n == budget
    decreases budget - i
  {
    if i == budget then budget
    else if Raised(hw, i) then i + 1
    else PollsFrom(hw, i + 1, budget)
  }

  /**
   The number of polls a wait of at most `budget` attempts makes: it stops at the
   first poll that sees the done flag, and otherwise uses the whole budget.
   */
  function PollCount(hw: Hardware, budget: nat): (n: nat)
    ensures n <= budget
    ensures Seen(hw, budget) ==> 1 <= n && Raised(hw, n - 1) && forall j :: 0 <= j < n - 1 ==> !Raised(hw, j)
    ensures !Seen(hw, budget) ==> n == budget
  {
    PollsFrom(hw, 0, budget)
  }

  /** The mask of the byte lane at bit offset `off`: `0xff << off`. */
  function LaneMask(off: nat): nat
  {
    Shl(ByteMask, off)
  }

  /** A byte as written into the lane at offset `off`: `b << off`. */
  function LaneEncode(off: nat, b: nat): nat
  {
    Shl(b, off)
  }

  /** The byte read out of the lane at offset `off`: `(v & (0xff << off)) >> off`. */
  function LaneDecode(off: nat, v: nat): nat
  {
    Shr(And(v, LaneMask(off)), off)
  }

  /** Bit i of the lane mask is set exactly for off <= i < off + 8. */
  lemma LaneMaskBit(off: nat, i: nat)
    ensures Bit(LaneMask(off), i) == if off <= i < off + 8 then 1 else 0
  {
    assert ByteMask == Pow2(8) - 1;
    BitShl(ByteMask, off, i);
    if off <= i {
      BitOnes(8, i - off);
    }
  }

  /** The lane mask is the mask of the field off..off+7. */
  lemma LaneMaskIsField(off: nat)
    ensures LaneMask(off) == FieldMask(off, off + 7)
  {
    assert Width(off, off + 7) == 8;
    assert ByteMask == Pow2(8) - 1;
  }

  /** The value of an 8-bit field is v's bits from `off` on, modulo 256. */
  lemma ByteFieldValue(off: nat, v: nat)
    ensures FieldValue(v, off, off + 7) == Shr(v, off) % 256
  {
    assert Width(off, off + 7) == 8;
    assert Pow2(8) == 256;
  }

  /** Decoding a lane yields the 8 bits of v starting at `off`, so always a byte. */
  lemma LaneDecodeIsByte(off: nat, v: nat)
    ensures LaneDecode(off, v) == Shr(v, off) % 256
    ensures LaneDecode(off, v) < 256
  {
    LaneMaskIsField(off);
    ExtractIsFieldValue(v, off, off + 7);
    ByteFieldValue(off, v);
  }

  /** A byte written into the lane lies within the lane's mask. */
  lemma LaneEncodeFits(off: nat, b: nat)
    requires b < 256
    ensures And(LaneEncode(off, b), LaneMask(off)) == LaneEncode(off, b)
  {
    assert Pow2(8) == 256;
    forall i: nat
      ensures Bit(And(LaneEncode(off, b), LaneMask(off)), i) == Bit(LaneEncode(off, b), i)
    {
      BitAnd(LaneEncode(off, b), LaneMask(off), i);
      BitShl(b, off, i);
      LaneMaskBit(off, i);
      if off + 8 <= i {
        BitAbove(b, 8, i - off);
      }
    }
    BitsEqual(And(LaneEncode(off, b), LaneMask(off)), LaneEncode(off, b));
  }

  /** Decoding the lane gives back the byte that was encoded into it. */
  lemma LaneRoundTrip(off: nat, b: nat)
    requires b < 256
    ensures LaneDecode(off, LaneEncode(off, b)) == b
  {
    LaneDecodeIsByte(off, LaneEncode(off, b));
    ShrShl(b, off);
  }

  /** The three events that push one byte into the command buffer: wire write, commit, MEMWRITE pulse. */
  function ByteEvents(eps: Endpoints, b: nat): seq<Event>
  {
    [ SetWireIn(eps.wireIn.address, LaneEncode(eps.wireIn.bitIndexLow, b), LaneMask(eps.wireIn.bitIndexLow)),
      UpdateWireIns,
      Pulse(eps.memWrite) ]
  }

  /** Pushing the bytes bs, in order, into the command buffer. */
  function Stream(eps: Endpoints, bs: seq<nat>): seq<Event>
    decreases |bs|
  {
    if |bs| == 0 then [] else Stream(eps, bs[..|bs| - 1]) + ByteEvents(eps, bs[|bs| - 1])
  }

  /** Rewinding the buffer address, pushing bs, and starting the I2C transaction. */
  function Upload(eps: Endpoints, bs: seq<nat>): seq<Event>
  {
    [Pulse(eps.memStart)] + Stream(eps, bs) + [Pulse(eps.start)]
  }

  /** n polls of the done flag. */
  function Polls(eps: Endpoints, n: nat): seq<Event>
  {
    seq(n, j => PollTrigger(eps.done.address, Pow2(eps.done.bitIndexLow)))
  }

  /** Reading n bytes back over the wire-out register: a read, then a MEMREAD pulse, per byte. */
  function DrainReads(eps: Endpoints, n: nat): seq<Event>
  {
    if n == 0 then [] else DrainReads(eps, n - 1) + [ReadWireOut(eps.wireOut.address), Pulse(eps.memRead)]
  }

  /** The stream has three events per byte, in the order of the bytes. */
  lemma {:induction false} StreamLayout(eps: Endpoints, bs: seq<nat>)
    ensures |Stream(eps, bs)| == 3 * |bs|
    ensures forall i :: 0 <= i < |bs| ==> Stream(eps, bs)[3 * i .. 3 * i + 3] == ByteEvents(eps, bs[i])
    decreases |bs|
  {
    if |bs| > 0 {
      var front := bs[..|bs| - 1];
      StreamLayout(eps, front);
      forall i | 0 <= i < |bs|
        ensures Stream(eps, bs)[3 * i .. 3 * i + 3] == ByteEvents(eps, bs[i])
      {
        if i < |bs| - 1 {
          assert Stream(eps, bs)[3 * i .. 3 * i + 3] == Stream(eps, front)[3 * i .. 3 * i + 3];
          assert front[i] == bs[i];
        }
      }
    }
  }

  /** The bytes carried by the wire writes of a trace, decoded from the lane at offset `off`. */
  function WrittenBytes(off: nat, trace: seq<Event>): seq<nat>
    decreases |trace|
  {
    if |trace| == 0 then []
    else
      WrittenBytes(off, trace[..|trace| - 1])
      + match trace[|trace| - 1]
        case SetWireIn(_, value, _) => [LaneDecode(off, value)]
        case _ => []
  }

  /** Decoding the wire writes of two traces in a row. */
  lemma {:induction false} WrittenBytesAppend(off: nat, a: seq<Event>, b: seq<Event>)
    ensures WrittenBytes(off, a + b) == WrittenBytes(off, a) + WrittenBytes(off, b)
    decreases |b|
  {
    if |b| == 0 {
      assert a + b == a;
    } else {
      assert (a + b)[..|a + b| - 1] == a + b[..|b| - 1];
      WrittenBytesAppend(off, a, b[..|b| - 1]);
    }
  }

  /** A trace of bytes pushed into the buffer decodes back to exactly those bytes. */
  lemma {:induction false} StreamRoundTrip(eps: Endpoints, bs: seq<nat>)
    requires forall i :: 0 <= i < |bs| ==> bs[i] < 256
    ensures WrittenBytes(eps.wireIn.bitIndexLow, Stream(eps, bs)) == bs
    decreases |bs|
  {
    var off := eps.wireIn.bitIndexLow;
    if |bs| > 0 {
      var front := bs[..|bs| - 1];
      var b := bs[|bs| - 1];
      StreamRoundTrip(eps, front);
      WrittenBytesAppend(off, Stream(eps, front), ByteEvents(eps, b));
      LaneRoundTrip(off, b);
      var ev := ByteEvents(eps, b);
      assert WrittenBytes(off, ev) == [b] by {
        assert ev[..|ev| - 1] == ev[..2];
        assert ev[..2][..1] == ev[..1];
        assert ev[..1][..0] == [];
        assert WrittenBytes(off, ev[..1]) == [LaneDecode(off, LaneEncode(off, b))];
      }
      assert front + [b] == bs;
    }
  }

  /** The uploaded command, decoded from the wire writes, is exactly the command. */
  lemma UploadRoundTrip(eps: Endpoints, bs: seq<nat>)
    requires forall i :: 0 <= i < |bs| ==> bs[i] < 256
    ensures WrittenBytes(eps.wireIn.bitIndexLow, Upload(eps, bs)) == bs
  {
    var off := eps.wireIn.bitIndexLow;
    StreamRoundTrip(eps, bs);
    WrittenBytesAppend(off, [Pulse(eps.memStart)], Stream(eps, bs));
    WrittenBytesAppend(off, [Pulse(eps.memStart)] + Stream(eps, bs), [Pulse(eps.start)]);
    assert WrittenBytes(off, [Pulse(eps.memStart)]) == [] by {
      assert [Pulse(eps.memStart)][..0] == [];
    }
    assert WrittenBytes(off, [Pulse(eps.start)]) == [] by {
      assert [Pulse(eps.start)][..0] == [];
    }
  }

  /** No event of the trace reads the wire-out register or the pipe. */
  predicate NoOutputReads(trace: seq<Event>)
  {
    forall i :: 0 <= i < |trace| ==> !trace[i].ReadWireOut? && !trace[i].ReadPipe?
  }

  /** Uploading a command never reads output. */
  lemma {:induction false} UploadNoOutputReads(eps: Endpoints, bs: seq<nat>)
    ensures NoOutputReads(Stream(eps, bs))
    ensures NoOutputReads(Upload(eps, bs))
    decreases |bs|
  {
    if |bs| > 0 {
      UploadNoOutputReads(eps, bs[..|bs| - 1]);
    }
  }
}
