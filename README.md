# Logo2Modbus controller driver in Dafny

Logo2Modbus polls a small logic controller over a serial line. It publishes the
controller's inputs, outputs and flags in a Modbus register image, which a TCP
slave serves to supervisory clients. This project models the driver
(`LogoDriver.cs`):

- the frame protocol: the command frames, the stop/run answer and the status
  snapshot decode;
- the poll loop's four-state connection machine: `Offline`, `Online`, `InStop`
  and `Connected`;
- the lifecycle calls `start` and `stop`;
- the status-change notification.

Modules:

- `Bytes` (bytes.dfy): the `byte` and `u16` machine types, powers of two, `Log2`
  and `BitConverter.ToUInt16` (little-endian, as on the hosts the driver runs on).
- `Binary32` (binary32.dfy): `(float)w` for a 16-bit word `w`, as its IEEE 754-2008
  binary32 bit pattern (section 3.4), computed on integers. Every integer in 0..65535
  is exact in binary32. `Value` is an independent reference decoder. It turns any
  finite pattern (sign, biased exponent, fraction) back into the real number the
  pattern denotes. `EncodeRoundTrip` proves that the pattern of `w` denotes `w`.
- `Frame` (frame.dfy): the protocol constants (`INITCODE`, `INITANSWER`,
  `ASKRUNSTOP`, `ANSWERRUN`, `ASKSTATUS`, `WAITTIME`, the 80-byte buffer) and the
  accept rule of decode. It also holds the per-index meaning of the snapshot:
  - bit `j` of byte `28 + i` is discrete `8i + j + 1`;
  - its analog mirror is 100 or 0;
  - the little-endian word at `38 + 2(k-1)` is input register `k`;
  - that word's float pattern is split into two holding registers, low half first.
- `Poll` (poll.dfy): the connection machine on values. `Next` is one loop
  iteration: the new status, and the extra sleep in poll cycles. It is driven by
  what the read gave: a `Timeout`, or the bytes `Received`. `Replay` runs a sequence
  of iterations and counts the status changes and the cycles slept. The lemmas
  about runs are proved here.
- `Driver` (driver.dfy): the class `LogoDriver`. It has the fields `status`,
  `running`, `shouldstop`, `portOpen` and the notification counter. The register
  banks are arrays of length n + 1, because NModbus collections are indexed 1..n:
  64 input bits, 80 input registers, 32 holding registers and the unused coil bank.
  - `Decode` writes the banks in place with the source's nested loops.
  - `Step` is one iteration of `run`'s loop over the reused 80-byte receive buffer.
  - `Run` is the thread body, from `setStatus(Online)` to the teardown.

`Step` copies a read's bytes to the front of the buffer and leaves the rest of the
buffer as earlier reads left it. So `Decode` really sees stale bytes. A 69-byte
reply is accepted (`count > 68`), but the sixteenth word also takes byte 69, and
that byte is left over from an earlier read, or 0 if no read has reached it yet
(the buffer starts zero-filled). The model keeps this behaviour.
`Step`'s contract ties the image to the whole buffer (`HoldsFrame(buffer[..])`),
not to the fresh bytes alone. The accept decision, by contrast, depends only on
fresh bytes (`FrameAccepted`).

Notes on the code:

- The states are `Offline`, `Online`, `InStop` and `Connected`
  (`LogoDriver.cs`:37).
- All 64 discretes are mirrored as 100/0 analog values, into
  `InputRegisters[17..80]` (`LogoDriver.cs`:186).
- `start` is `void`, and a failing `Open` throws (see Left out).
- The loop's last branch runs for any status other than `Online` and `InStop`. In
  `Offline` it would poll `ASKSTATUS`, but `NeverOffline` shows that the loop never
  reaches `Offline`.

## Model

| member | source | states |
|---|---|---|
| Bytes.ToUInt16 | trunk/Logo2Modbus/LogoDriver.cs:194 | the result's low byte is `bytes[offset]` and its high byte is `bytes[offset+1]` (little-endian word) |
| Bytes.Log2 | trunk/Logo2Modbus/LogoDriver.cs:196 | `2^e <= n < 2^(e+1)`: the exponent of the float that equals n |
| Binary32.Encode | trunk/Logo2Modbus/LogoDriver.cs:196 | the pattern of `(float)w` has a clear sign bit: every converted word is non-negative |
| Binary32.EncodeZero | trunk/Logo2Modbus/LogoDriver.cs:196 | the pattern is all-zero exactly when w is 0 |
| Binary32.EncodeFields | trunk/Logo2Modbus/LogoDriver.cs:196 | for nonzero w the biased exponent field is `127 + floor(log2 w)` and the fraction field is w's bits below its leading one, moved to the top of the 23 bits |
| Binary32.EncodeInjective | trunk/Logo2Modbus/LogoDriver.cs:196 | different words have different patterns |
| Binary32.EncodeRoundTrip | trunk/Logo2Modbus/LogoDriver.cs:196 | the conversion is exact: decoding the pattern by the format's rules gives back w |
| Binary32.GetBytes | trunk/Logo2Modbus/LogoDriver.cs:196-197 | `GetBytes(float)` is four bytes; the two little-endian halves read at offsets 0 and 2 reassemble the pattern |
| Binary32.HalvesRoundTrip | trunk/Logo2Modbus/LogoDriver.cs:196-197 | the low and high halves of the pattern of w, joined again, denote w |
| Frame.BitSetIsDigit | trunk/Logo2Modbus/LogoDriver.cs:184 | the test `0 != (b & 1 << j)` holds exactly when binary digit j of b is 1 |
| Frame.BitSet | trunk/Logo2Modbus/LogoDriver.cs:184 | definition of the test `0 != (b & (byte) 0x0001 << j)` on bv8; `BitSetIsDigit` gives its meaning as a binary digit |
| Frame.Discrete | trunk/Logo2Modbus/LogoDriver.cs:183-184 | definition of discrete k as `BitSet` at byte `28 + (k-1)/8`, bit `(k-1)%8`; `DiscreteIsDigit` proves it is the digit that index `8i + j + 1` names |
| Frame.Accepts | trunk/Logo2Modbus/LogoDriver.cs:173-175 | definition of decode's accept rule, `count > 68` and `data[0] == 06`; `Decode`'s `ensures` uses it as the exact accept condition |
| Frame.DiscreteIsDigit | trunk/Logo2Modbus/LogoDriver.cs:179-184 | discrete `8i + j + 1` is true exactly when bit j of byte `28 + i` is set, for i and j in 0..7 |
| Frame.Analog | trunk/Logo2Modbus/LogoDriver.cs:186 | the mirror is 100 exactly when the bit is set and 0 exactly when it is clear |
| Frame.Word | trunk/Logo2Modbus/LogoDriver.cs:194 | input register k is `data[36+2k] + 256 * data[37+2k]` |
| Frame.FloatLow | trunk/Logo2Modbus/LogoDriver.cs:196 | definition: `ToUInt16(GetBytes(Encode(w)), 0)`; `FloatPairRoundTrip` and `PairValue` give its meaning |
| Frame.FloatHigh | trunk/Logo2Modbus/LogoDriver.cs:197 | definition: `ToUInt16(GetBytes(Encode(w)), 2)`; `FloatPairRoundTrip` and `PairValue` give its meaning |
| Frame.FloatPairRoundTrip | trunk/Logo2Modbus/LogoDriver.cs:196-197 | holding registers `2k-1` and `2k` for word w, joined low word first, are the float pattern of w, and that pattern denotes w |
| Frame.PairValue | trunk/Logo2Modbus/LogoDriver.cs:196-197 | two registers holding the low and high halves of w, joined low word first, denote w |
| Frame.FloatPairInjective | trunk/Logo2Modbus/LogoDriver.cs:196-197 | two different words never give the same holding pair |
| Frame.DecodeReadsOnlyFrameBytes | trunk/Logo2Modbus/LogoDriver.cs:173-197 | buffers that agree on byte 0, bytes 28..35 and bytes 38..69 give the same accept decision, the same discretes and the same words |
| Frame.IsRunAnswer | trunk/Logo2Modbus/LogoDriver.cs:139-141 | definition of the run answer test: at least two bytes, and they are `06 01`; `Step` and `Handshake`/`StuckInStop` use it |
| Poll.Command | trunk/Logo2Modbus/LogoDriver.cs:126-157 | the command table of `run`'s three branches (`INITCODE`, `ASKRUNSTOP`, `ASKSTATUS`), tied to the loop by `Step`'s `sent == Command(old(status))`; every command is non-empty |
| Poll.FrameAccepted | trunk/Logo2Modbus/LogoDriver.cs:152 | definition of the accept rule applied to the fresh reply; `FreshReplyAccepted` proves it equals decode's rule on the whole buffer |
| Poll.FreshReplyAccepted | trunk/Logo2Modbus/LogoDriver.cs:151-152 | after a read puts its reply at the front of the 80-byte buffer, decode's accept decision depends on the reply alone, whatever the stale tail holds |
| Poll.Next | trunk/Logo2Modbus/LogoDriver.cs:124-163 | one iteration of `run`'s loop: from a status other than Offline no branch reaches Offline, and the extra sleep is at most two cycles; `Step`'s branch-by-branch `ensures` are proved to follow it through `Run`'s loop invariant |
| Poll.Replay | trunk/Logo2Modbus/LogoDriver.cs:122-164 | definition of the `while (!shouldstop)` loop as iterated `Next`, counting the status changes and cycles; `ReplayAppend`, `NeverOffline` and `ReplayBounds` are proved about it |
| Poll.ReplayAppend | trunk/Logo2Modbus/LogoDriver.cs:122-164 | running iterations a and then b is the same as running b from the status a ended in; changes and cycles add up |
| Poll.NeverOffline | trunk/Logo2Modbus/LogoDriver.cs:120-164 | starting from any status other than Offline, no sequence of iterations reaches Offline |
| Poll.ReplayBounds | trunk/Logo2Modbus/LogoDriver.cs:122-164 | n iterations raise at most n notifications and sleep at most 2n cycles |
| Poll.TimeoutRestarts | trunk/Logo2Modbus/LogoDriver.cs:159-162 | after a timeout in any status the loop is Online and has slept two more cycles; it raises one notification unless it was already Online |
| Poll.Handshake | trunk/Logo2Modbus/LogoDriver.cs:126-145 | from Online, any reply and then `06 01` reaches Connected, with two notifications and no cycle sleep |
| Poll.StuckInStop | trunk/Logo2Modbus/LogoDriver.cs:134-145 | replies other than `06 01` keep the loop in InStop for ever, with one cycle per retry and no notification |
| Poll.StaysConnected | trunk/Logo2Modbus/LogoDriver.cs:147-157 | while every snapshot is accepted, the loop stays Connected with one cycle per poll and no notification |
| Driver.Receive | trunk/Logo2Modbus/LogoDriver.cs:118-151 | a read puts its bytes at the front of the reused buffer and leaves the tail as before |
| Driver.ImageFloatPairs | trunk/Logo2Modbus/LogoDriver.cs:192-198 | when the holding registers carry the float halves of the raw words (`FloatPairsHeld`, part of `HoldsFrame`), every holding pair, low word first, denotes the raw input register beside it |
| Driver.Session | trunk/Logo2Modbus/LogoDriver.cs:97-169 | new driver, `start` twice (the second call changes nothing), then the thread body: it ends Offline with port closed and not running; notifications are the replayed changes plus two |
| Driver.LogoDriver.constructor | trunk/Logo2Modbus/LogoDriver.cs:69-90 | status is Offline with no notification; nothing is running and the port is closed; the port name is the SerialPort default `COM1`; the banks have sizes 64, 80, 32 and 0, plus placeholder 0, and every element of every bank is false or 0 |
| Driver.LogoDriver.SetStatus | trunk/Logo2Modbus/LogoDriver.cs:58-65 | the status becomes s; the counter goes up by one exactly when s differs from the old status |
| Driver.LogoDriver.SetPortName | trunk/Logo2Modbus/LogoDriver.cs:92-95 | the port name becomes the given one and nothing else changes |
| Driver.LogoDriver.Start | trunk/Logo2Modbus/LogoDriver.cs:97-109 | while running it changes nothing; otherwise running is set, status goes Online (notifying on a change), `shouldstop` is cleared and the port is opened |
| Driver.LogoDriver.Stop | trunk/Logo2Modbus/LogoDriver.cs:111-114 | only `shouldstop` is set |
| Driver.LogoDriver.Step | trunk/Logo2Modbus/LogoDriver.cs:124-163 | the source's per-status rules (see the list below the table); one notification exactly on a change; the buffer and the image are updated only as stated |
| Driver.LogoDriver.Run | trunk/Logo2Modbus/LogoDriver.cs:116-169 | after the loop: port closed, not running, Offline; cycles and notifications are those of `Replay` from Online over the iterations run, plus the entry and exit changes |
| Driver.LogoDriver.Decode | trunk/Logo2Modbus/LogoDriver.cs:171-204 | accepts exactly when `count > 68` and byte 0 is `06`; on rejection no bank changes; on acceptance the image holds the snapshot (`HoldsFrame`); element 0 of every bank is never touched |
| Driver.LogoDriver.UnpackDigital | trunk/Logo2Modbus/LogoDriver.cs:179-188 | discretes 1..64 are the frame's bits; input registers 17..80 are their 100/0 mirrors; registers 0..16 are untouched |
| Driver.LogoDriver.StoreBit | trunk/Logo2Modbus/LogoDriver.cs:184-186 | discrete `index` becomes the bit and input register `16 + index` its 100/0 mirror; no other element of either bank changes |
| Driver.LogoDriver.StoreWord | trunk/Logo2Modbus/LogoDriver.cs:194-197 | input register `i + 1` becomes the word and holding registers `2i + 1` and `2i + 2` its low and high float halves; no other element of either bank changes |
| Driver.LogoDriver.UnpackAnalog | trunk/Logo2Modbus/LogoDriver.cs:192-198 | input registers 1..16 are the frame's words; holding registers `2k-1` and `2k` are the low and high float halves of input register k, so of word k (`FloatPairsHeld`); registers 0 and 17..80 and holding 0 are untouched |

`Step`'s per-status rules:

- A timeout goes Online and sleeps 2 cycles.
- In Online, any bytes go InStop with no cycle sleep.
- In InStop, the reply `06 01` goes Connected with no sleep; any other reply stays
  InStop and sleeps 1 cycle.
- Otherwise, a rejected snapshot goes Online; the step sleeps 1 cycle either way.
- The command written is `Command` of the old status.

`HoldsFrame` states four facts together, so they can never conflict:

- InputDiscretes[k] is `Discrete(d, k)` for k in 1..64.
- InputRegisters[16+k] is `Analog(InputDiscretes[k])`.
- InputRegisters[k] is `Word(d, k)` for k in 1..16.
- HoldingRegisters[2k-1] and [2k] are `FloatLow` and `FloatHigh` of InputRegisters[k]
  (`FloatPairsHeld`).

Because these hold at the same time, the raw-word range 1..16 and the mirror range
17..80 cannot overlap.

## Left out

- The user interface in `Form1.cs` is not part of this model. That covers the window
  events, marshalling onto the UI thread, network-interface enumeration, and the TCP
  listener and Modbus slave setup.
- The serial port settings (9600 baud, 8 data bits, even parity, one stop bit, RTS/DTR,
  200 ms read timeout) are configuration without behaviour in the model.
- Real port I/O is abstracted:
  - `Write` is the command `Step` returns;
  - `Read` is the `Read` outcome given to `Step`;
  - `Open` and `Close` set `portOpen`.
- `SerialPort.Read` returns at least one byte when it does not time out. The model also
  admits an empty read; this adds behaviours and removes none.
- A failing `Open` (port held elsewhere) is not modelled. The source throws after setting
  `running` and `Online`. `Form1.cs` uses `start()` as a `bool`, but `LogoDriver.cs`
  declares it `void`.
- Exceptions other than `TimeoutException` are not modelled. An `IOException` or an
  `InvalidOperationException` would end the thread without its teardown, and, being
  unhandled on a worker thread, would by the runtime's default policy end the whole
  process.
- The thread and the cross-thread visibility of `shouldstop` are concurrency. `Run` runs
  the loop sequentially over the reads its iterations perform. After them, the stop
  request arrives between two iterations, never inside one.
- Sleeps are returned, not taken. `Step` returns its extra sleep in poll cycles, and the
  fixed `WAITTIME` of 300 ms before every read is implied.
- The status-change event is a counter. Raising it with no subscriber
  (`NullReferenceException`) is not modelled.
- NModbus `DataStore` and `ModbusDataCollection` internals are replaced by plain arrays
  with placeholder element 0. The coil bank is allocated with no elements and never written.
- Floating point is modelled only as the exact binary32 pattern of a 16-bit integer. The
  byte order of `BitConverter` is taken as little-endian.
- Driver.LogoDriver.Run: the register image is not in its contract; `Step` states it
  for each iteration.
