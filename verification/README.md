# I2C controller and TMF8828 register access — a Dafny model

This project models the host side of an FPGA-hosted I2C master in pyripherals.

`I2CController` builds a command buffer in a fixed layout:
- byte 0: the preamble length, with bit 7 set for a read;
- byte 1: the start mask;
- byte 2: the stop mask;
- byte 3: the payload length;
- then the preamble bytes (device address, register address, and for a read the device address again);
- then, for a write, the payload.

The controller streams this buffer into the FPGA one byte at a time through a wire-in and trigger endpoints. It pulses START and polls the DONE trigger:
- a transmit polls up to `I2C_MAX_TIMEOUT_MS` = 50 times;
- a receive polls up to 50 / 10 = 5 times.

After a wire receive, it drains the result byte by byte from a wire-out. `i2c_write_long` and `i2c_read_long` shape the preamble and masks for a register write, or for a repeated-start register read.

`TMF8828` sits on top of the controller. It reads a register through `i2c_read_long`, assembles the returned bytes least significant first, and extracts a bit field. It writes a bit field by reading the register, merging the new field in, and writing the result back. It also sends two fixed boot-loader commands to CMD_STAT.

Modules:
- `Wrappers`: `Option` and `Result`.
- `Bits`: Python's `&`, `|`, `& ~`, `<<` and `>>` on non-negative integers.
  - Each operation is defined recursively and characterised bit by bit through `Bit`.
  - `BitsEqual` turns bit-by-bit agreement back into equality.
- `BitField`: the field mask of bits `low..high`, the field value, and the merge of a new field into a background value.
- `I2CTrace`: the FPGA as a trace of `Event`s (trigger pulses, wire-in writes, polls of DONE, wire-out and pipe reads).
  - The answers the hardware gives during one transaction come in as a `Hardware` record: the DONE flag seen at each poll, and the wire-out value seen at each read.
  - The module also covers how bytes travel in and out of an 8-bit lane at an endpoint's bit offset.
- `I2CController`: buffer configuration, transmit, receive, write_long, read_long and reset_device.
  - The transmit, receive, streaming, wait and read-out loops are methods with loop invariants. The copy loop of `i2c_configure` is a function that builds the buffer with a sequence comprehension.
  - Each is paired with a reference definition of the trace it must produce (`TransmitTrace`, `ReceiveTrace`) and of its result (`ReceiveResult`).
- `TMF8828`: the chip address, byte assembly, the two mask loops, read, write, read_by_addr, read_app, download_init and ramremap_reset.

In `ReadShapeAddressing`, the start mask `1 << len(regAddr)` is read as "a START is issued after preamble byte i". This follows the controller's own comment on the mask encoding (`I2CController.py:49-54`): the set bit then lands on the last register-address byte, so the repeated START comes right before the read address. Reading bit i as "START before preamble byte i" instead would put the repeated START before the last register byte, not before the read address. The model states where the bit lands and leaves its bus meaning to the HDL, which is not part of this model.

## Model

| member | source | states |
|---|---|---|
| BitField.ExtractIsFieldValue | python/src/pyripherals/peripherals/TMF8828.py:87-91 | masking a value with the mask of bits low..high and shifting right by low yields exactly the number held in those bits, for every value and every bit range |
| BitField.InsertField | python/src/pyripherals/peripherals/TMF8828.py:33-45 | the merged value holds the data, truncated to the field's width, in bits low..high, and agrees with the background on every bit outside the field |
| I2CTrace.PollCount | python/src/pyripherals/peripherals/I2CController.py:111-116 | the poll loop stops at the first poll that sees DONE raised, having seen it at no earlier poll; if DONE never rises within the budget, every poll of the budget is made |
| I2CTrace.LaneEncodeFits | python/src/pyripherals/peripherals/I2CController.py:98-99 | a byte shifted to the wire-in's bit offset lies entirely inside the 0xff mask shifted the same way, so the masked write carries all of it |
| I2CTrace.LaneDecodeIsByte | python/src/pyripherals/peripherals/I2CController.py:188-190 | masking a wire-out value with 0xff at the offset and shifting back gives the 8 bits above the offset, always a byte |
| I2CTrace.LaneRoundTrip | python/src/pyripherals/peripherals/I2CController.py:188-190 | decoding a byte that was encoded at the same offset returns that byte |
| I2CTrace.StreamLayout | python/src/pyripherals/peripherals/I2CController.py:96-104 | streaming n bytes issues 3n events, and events 3i..3i+2 are the wire-in write, update and MEMWRITE pulse of byte i |
| I2CTrace.StreamRoundTrip | python/src/pyripherals/peripherals/I2CController.py:96-104 | the bytes recoverable from the wire-in writes of a stream are exactly the streamed bytes, in order |
| I2CTrace.UploadRoundTrip | python/src/pyripherals/peripherals/I2CController.py:93-108 | the buffer upload, framed by the MEMSTART and START pulses, delivers exactly the buffer's bytes in order |
| I2CTrace.UploadNoOutputReads | python/src/pyripherals/peripherals/I2CController.py:93-108 | uploading a buffer never reads a wire-out or a pipe |
| I2CController.ConfigureAsWritten | python/src/pyripherals/peripherals/I2CController.py:68-84 | the buffer is length, starts, stops, a zero payload length and the first n preamble bytes; its data start is 4 + n, even when n exceeds 7 |
| I2CController.Configure | python/src/pyripherals/peripherals/I2CController.py:71-84 | configuration fails with PreambleTooLong exactly when n > 7; otherwise the buffer layout is as above |
| I2CController.ConfigureAcceptsLongPreamble | python/src/pyripherals/peripherals/I2CController.py:71-73 | an 8-byte preamble is accepted as written and yields a 12-byte buffer, while the corrected configuration rejects it |
| I2CController.WriteAddress | python/src/pyripherals/peripherals/I2CController.py:212 | the write address is a byte with the R/W bit clear and the same upper seven bits as the device address |
| I2CController.ReadAddress | python/src/pyripherals/peripherals/I2CController.py:246 | the read address has the R/W bit set and the same upper bits as the device address |
| I2CController.WriteShapeAddressing | python/src/pyripherals/peripherals/I2CController.py:210-216 | a write's preamble is the write address followed by the register bytes, the start mask is empty, and the stop mask has a single bit, at the preamble's length |
| I2CController.ReadShapeAddressing | python/src/pyripherals/peripherals/I2CController.py:244-254 | a register read's preamble is write address, register bytes, read address, with one start bit at the last register byte and no stop bit; without a register it is the read address alone with empty masks |
| I2CController.ReceivePollCount | python/src/pyripherals/peripherals/I2CController.py:171-176 | a receive polls at most I2C_MAX_TIMEOUT_MS / 10 = 5 times, and all 5 when it never sees DONE |
| I2CController.WireBytes | python/src/pyripherals/peripherals/I2CController.py:183-190 | a wire receive of k bytes yields k values, each below 256 |
| I2CController.ReadFlagKeepsLength | python/src/pyripherals/peripherals/I2CController.py:149 | or-ing the read flag into a preamble length below 128 sets bit 7 and keeps the length in the low seven bits |
| I2CController.ReadCommandLayout | python/src/pyripherals/peripherals/I2CController.py:149-150 | after the read flag and payload length are set, the buffer is length + 0x80, starts, stops, k and the preamble |
| I2CController.StreamBuffer | python/src/pyripherals/peripherals/I2CController.py:96-104 | the streaming loop issues exactly the reference stream of the buffer's bytes |
| I2CController.AwaitDone | python/src/pyripherals/peripherals/I2CController.py:171-176 | the wait loop reports DONE exactly when the flag rises within the budget and it acts on it, and makes exactly the reference number of polls |
| I2CController.Transmit | python/src/pyripherals/peripherals/I2CController.py:86-118 | the payload length is set and the data appended; the trace is the upload of header, preamble and data followed by the polls; the result is true exactly when DONE rises within 50 polls |
| I2CController.TransmitDeliversBytes | python/src/pyripherals/peripherals/I2CController.py:93-116 | the bytes decoded from the wire-in writes of a transmit's trace are exactly its command buffer, in order, whatever the done flag does |
| I2CController.DrainWire | python/src/pyripherals/peripherals/I2CController.py:184-193 | the read-out loop returns the k decoded wire-out bytes and issues one wire-out read and one MEMREAD pulse per byte; the MEMSTART pulse before it belongs to Receive |
| I2CController.Receive | python/src/pyripherals/peripherals/I2CController.py:120-198 | a pipe receive with pipe reset needs FIFO_RESET and PIPE_OUT and fails without touching the hardware otherwise; otherwise it sets the read flag and length, uploads only the header and preamble, polls, and on DONE with readout drains the wire or the pipe; on timeout or without readout it returns nothing |
| I2CController.WriteLong | python/src/pyripherals/peripherals/I2CController.py:206-217 | a register write streams exactly [n, 0, 1 << n, k] + preamble + data, with preamble = write address + register bytes, and reports whether DONE rose; a preamble over 7 bytes fails before any I/O |
| I2CController.ReadLong | python/src/pyripherals/peripherals/I2CController.py:221-259 | a register read streams exactly [n + 0x80, starts, stops, k] + preamble for the read shape and returns the receive's result |
| I2CController.ResetDevice | python/src/pyripherals/peripherals/I2CController.py:261-266 | resetting issues exactly one event, a pulse of the RESET endpoint at its bit_index_low, and reads nothing |
| I2CController.ReceiveWithoutReadout | python/src/pyripherals/peripherals/I2CController.py:177-178 | without readout a receive returns nothing, stops polling at DONE, and its trace reads no wire-out or pipe |
| I2CController.ReceiveTimeout | python/src/pyripherals/peripherals/I2CController.py:171-198 | when DONE never rises, a receive polls all 5 times, reads nothing back and returns nothing |
| I2CController.ReceiveWireBytes | python/src/pyripherals/peripherals/I2CController.py:179-193 | when DONE rises, a wire receive returns k bytes, byte i being the decoded i-th wire-out value |
| TMF8828.AddressBytes | python/src/pyripherals/peripherals/TMF8828.py:21 | the chip address 0x41 << 1 is 0x82; it is its own write address and its read address is 0x83 |
| TMF8828.DefaultByteCount | python/src/pyripherals/peripherals/TMF8828.py:62 | the default read length is the fewest whole bytes that contain the field's high bit |
| TMF8828.Reverse | python/src/pyripherals/peripherals/TMF8828.py:81 | the reversed list has the same length, and entry i is entry len-1-i of the input |
| TMF8828.LittleEndianIsReversedBigEndian | python/src/pyripherals/peripherals/TMF8828.py:80-84 | folding the reversed list most significant first gives the least-significant-first value of the list |
| TMF8828.OrShiftByte | python/src/pyripherals/peripherals/TMF8828.py:78-79 | `(v << 8) \| byte` is v * 256 + byte, so the fold never loses bits |
| TMF8828.Assemble | python/src/pyripherals/peripherals/TMF8828.py:75-84 | folding a list of bytes gives its value in the given byte order |
| TMF8828.LittleEndianByte | python/src/pyripherals/peripherals/TMF8828.py:80-84 | in the value assembled least significant first, bits 8i..8i+7 hold exactly the i-th byte read, for every list of bytes and every i |
| TMF8828.MaskByOr | python/src/pyripherals/peripherals/TMF8828.py:36-38 | or-ing 1 << bit for bit from high down to low yields the mask of exactly bits low..high (0 when high < low) |
| TMF8828.MaskBySum | python/src/pyripherals/peripherals/TMF8828.py:87-89 | adding 1 << bit for bit from high down to low yields the same mask |
| TMF8828.ReadBytesAt | python/src/pyripherals/peripherals/TMF8828.py:67-73 | a read streams [0x83, 0x02, 0x00, n, 0x82, reg, 0x83] and returns the n wire bytes exactly when DONE rises |
| TMF8828.ReadByAddr | python/src/pyripherals/peripherals/TMF8828.py:141-144 | reading by raw address uploads that command, polls, and on DONE drains num_bytes bytes, byte i being the decoded i-th wire-out value; otherwise it returns nothing |
| TMF8828.ReadRegister | python/src/pyripherals/peripherals/TMF8828.py:56-84 | a register read fetches the requested or default number of bytes and returns their least-significant-first value, or nothing on timeout |
| TMF8828.Read | python/src/pyripherals/peripherals/TMF8828.py:56-93 | reading a register returns the value of its bit field in the assembled bytes, which fits in the field's width, or nothing exactly when DONE never rises |
| TMF8828.WriteBytesAt | python/src/pyripherals/peripherals/TMF8828.py:53-54 | writing bytes to a register streams [0x02, 0x00, 0x04, len, 0x82, reg] + bytes |
| TMF8828.Write | python/src/pyripherals/peripherals/TMF8828.py:26-54 | a field write first reads the register; on timeout it stops and reports failure; otherwise it writes back the register with the new data in the field and every other bit as read |
| TMF8828.WriteAsWritten | python/src/pyripherals/peripherals/TMF8828.py:41-45 | the write as the driver performs it merges the data into the field value returned by read, not into the register's contents |
| TMF8828.AsWrittenMergeOfAB | python/src/pyripherals/peripherals/TMF8828.py:41-45 | as written, writing 5 into bits 4..7 of a register holding 0xAB writes 0x5A |
| TMF8828.CorrectedMergeOfAB | python/src/pyripherals/peripherals/TMF8828.py:45 | merging into the register's contents writes 0x5B, keeping the low nibble |
| TMF8828.WriteAsWrittenLosesBits | python/src/pyripherals/peripherals/TMF8828.py:41-45 | on that input bit 0, outside the field and set in the register, is cleared by the as-written merge and kept by the corrected one |
| TMF8828.ReadApp | python/src/pyripherals/peripherals/TMF8828.py:105-110 | reading the application id succeeds exactly when the read completes with 0x03 (measure) or 0x80 (bootloader), and then returns that id |
| TMF8828.DownloadInit | python/src/pyripherals/peripherals/TMF8828.py:124-131 | download-init streams [0x02, 0x00, 0x04, 0x04, 0x82, CMD_STAT, 0x14, 0x01, 0x29, 0xC1] |
| TMF8828.RamremapReset | python/src/pyripherals/peripherals/TMF8828.py:133-139 | ramremap-reset streams [0x02, 0x00, 0x04, 0x03, 0x82, CMD_STAT, 0x11, 0x00, 0xEE] |

## Left out

- Integers are non-negative throughout. Python's negative integers and `~` on them are outside the model: every value the controller and the driver handle is an address, a mask or a byte.
- The FPGA, its HDL and the I2C bus: what a START or STOP bit does on the bus, including STOP taking precedence over START at the same position, is decided by the HDL, which is not part of this model. Only the mask values the host writes are stated.
- Waiting between polls (`time.sleep`) and every `print` are left out. A timeout is a poll budget, not a duration.
- The pipe transport's contents (`fpga.read_pipe_out`) come in as an opaque reply that a pipe receive returns unchanged.
- `Receive`: a mode string other than 'wire' or 'pipe' is one `Unrecognised` mode, and case folding of the mode string is not modelled. With readout, that mode never returns early and ends in the timeout path, as in the source.
- The FIFO_RESET/PIPE_OUT check raises `KeyError` in the source. Here it is an `Err(MissingEndpoint)` result, and only those two endpoints are optional; the others are assumed present.
- `UpdateTriggerOuts` and `UpdateWireOuts` are not separate events: each poll of DONE and each wire-out read stands for the update and the query together.
- `I2CController.ResetDevice`: the value the transport returns from the trigger is dropped; only the pulse is modelled.
- `ReceiveTrace`: the wire drain pulses MEMSTART again to rewind the buffer address before reading, as the source does. Whether the HDL uses one address for both reads and writes is not modelled.
- `__init__` and its shared mutable default buffer dictionary, and `create_chips`: object construction. Every operation here takes and returns the controller state explicitly.
- `Register.get_chip_registers` and the register map: a register is passed in as a record with address and bit range, not looked up by name.
- `int_to_list` is not part of this model. Write takes it as a function parameter, and its output bytes are written as given.
- `cpu_ready`, `rom_fw_version` and `ram_write_status` are left out: each is one or two reads of named registers that Read already covers, and the names need the register map.
- `get_id` is left out: it reads the ID and REVID registers and combines them with shifts by the ID register's bit_index_low, and both reads need the register map.
- `save_histogram` is left out: it drives a measurement sequence whose registers and timing live outside the modelled files.
- `TMF8828.Write`: the source returns None after a write and False after a failed masking read. Here these are true and false, and the transmit's own timeout is not reported back, as in the source.
- `TMF8828.ReadApp`: the source raises `ValueError` for an unknown id. Here that is `Err(UnknownApp(...))`, and printing the application's name is left out.

## Findings

| source | as written | input that shows it | evidently intended | confidence | as-written member | corrected member |
|---|---|---|---|---|---|---|
| python/src/pyripherals/peripherals/I2CController.py:71-73 | a preamble longer than 7 bytes only prints a message (the exception is commented out), and the buffer is built anyway | preamble_length = 8 with an 8-byte preamble yields a 12-byte buffer with length byte 8, and the transaction goes ahead | configuration is rejected for more than 7 preamble bytes | not executed | I2CController.ConfigureAsWritten (counterexample: I2CController.ConfigureAcceptsLongPreamble) | I2CController.Configure |
| python/src/pyripherals/peripherals/TMF8828.py:41-45 | the write merges the new field with `self.read(...)`, which returns the field already masked and shifted down to bit 0, not the register's contents | writing 5 into bits 4..7 of a register holding 0xAB writes 0x5A | bits outside the field keep their current values, giving 0x5B | not executed | TMF8828.WriteAsWritten (counterexample: TMF8828.AsWrittenMergeOfAB, TMF8828.WriteAsWrittenLosesBits) | TMF8828.Write (proved with BitField.InsertField) |
