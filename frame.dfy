/** The controller's serial dialect: the command frames the driver sends, the
    reply it waits for in the stop/run query, and the layout of the status
    snapshot that decode unpacks into the register image. */
module Frame {
  import opened Bytes
  import opened Binary32

  /** Request to begin a session. */
  const INITCODE: seq<byte> := [0x02, 0x1F, 0x02]
  /** The controller's answer to INITCODE; the driver never compares against it. */
  const INITANSWER: seq<byte> := [0x06, 0x03, 0x1F, 0x02, 0x42]
  /** Query whether the controller is in RUN. */
  const ASKRUNSTOP: seq<byte> := [0x55, 0x17, 0x17, 0xAA]
  /** Reply prefix meaning "in RUN". */
  const ANSWERRUN: seq<byte> := [0x06, 0x01]
  /** Request for a full status snapshot. */
  const ASKSTATUS: seq<byte> := [0x55, 0x13, 0x13, 0x00, 0xAA]

  /** Milliseconds slept between every write and its read. */
  const WAITTIME: nat := 300
  /** Default poll cycle in milliseconds (the field cykleTime). */
  const DEFAULT_CYCLE_TIME: nat := 300
  /** Size of the receive buffer and the most bytes one read returns. */
  const BUFFER_SIZE: nat := 80

  /** Acknowledge byte that starts every snapshot. */
  const ACK: byte := 0x06
  /** First byte of the eight digital bytes (inputs, outputs, flags). */
  const DIGITAL_OFFSET: nat := 28
  /** First byte of the sixteen little-endian analog words. */
  const ANALOG_OFFSET: nat := 38
  /** Value of InputRegisters[16 + k] for a set and a clear bit k. */
  const ANALOG_HIGH: u16 := 100
  const ANALOG_LOW: u16 := 0

  /** decode's accept rule: more than 68 bytes read and an acknowledge first. */
  predicate Accepts(data: seq<byte>, count: int)
    requires count > 68 ==> |data| >= 70
  {
    count > 68 && data[0] == ACK
  }

  /** `0 != (b & (byte) 0x0001 << j)`: bit j of b is set. */
  predicate BitSet(b: byte, j: nat)
    requires j < 8
  {
    (b as bv8) & ((1 as bv8) << j) != 0
  }

  /** The bitwise test is the binary digit of b of weight 2^j. */
  lemma BitSetIsDigit(b: byte, j: nat)
    requires j < 8
    ensures BitSet(b, j) <==> (b as int / Pow2(j)) % 2 == 1
  {
    assert Pow2(0) == 1 && Pow2(1) == 2 && Pow2(2) == 4 && Pow2(3) == 8;
    assert Pow2(4) == 16 && Pow2(5) == 32 && Pow2(6) == 64 && Pow2(7) == 128;
    if j == 0 { assert BitSet(b, j) <==> (b as bv8) & 1 != 0; }
    else if j == 1 { assert BitSet(b, j) <==> (b as bv8) & 2 != 0; }
    else if j == 2 { assert BitSet(b, j) <==> (b as bv8) & 4 != 0; }
    else if j == 3 { assert BitSet(b, j) <==> (b as bv8) & 8 != 0; }
    else if j == 4 { assert BitSet(b, j) <==> (b as bv8) & 16 != 0; }
    else if j == 5 { assert BitSet(b, j) <==> (b as bv8) & 32 != 0; }
    else if j == 6 { assert BitSet(b, j) <==> (b as bv8) & 64 != 0; }
    else { assert BitSet(b, j) <==> (b as bv8) & 128 != 0; }
  }

  /** InputDiscretes[k], k in 1..64: bit (k - 1) % 8 of digital byte (k - 1) / 8. */
  predicate Discrete(data: seq<byte>, k: int)
    requires |data| >= DIGITAL_OFFSET + 8 && 1 <= k <= 64
  {
    BitSet(data[DIGITAL_OFFSET + (k - 1) / 8], (k - 1) % 8)
  }

  /** InputDiscretes[8i + j + 1] is the bitwise test of bit j of digital byte i. */
  lemma DiscreteAt(d: seq<byte>, i: nat, j: nat)
    requires |d| >= DIGITAL_OFFSET + 8 && i < 8 && j < 8
    ensures Discrete(d, 8 * i + j + 1) == BitSet(d[DIGITAL_OFFSET + i], j)
  {
    assert (8 * i + j) / 8 == i && (8 * i + j) % 8 == j;
  }

  /** InputDiscretes[8i + j + 1] is bit j of digital byte i, as a binary digit. */
  lemma DiscreteIsDigit(d: seq<byte>, i: nat, j: nat)
    requires |d| >= DIGITAL_OFFSET + 8 && i < 8 && j < 8
    ensures Discrete(d, 8 * i + j + 1) <==> (d[DIGITAL_OFFSET + i] as int / Pow2(j)) % 2 == 1
  {
    DiscreteAt(d, i, j);
    BitSetIsDigit(d[DIGITAL_OFFSET + i], j);
  }

  /** The analog representation of a digital signal, for charting clients. */
  function Analog(bit: bool): (v: u16)
    ensures v == ANALOG_HIGH <==> bit
    ensures v == ANALOG_LOW <==> !bit
  {
    if bit then ANALOG_HIGH else ANALOG_LOW
  }

  /** InputRegisters[k], k in 1..16: the little-endian word at 38 + 2 (k - 1). */
  function Word(data: seq<byte>, k: int): (w: u16)
    requires |data| >= 70 && 1 <= k <= 16
    ensures w as int == data[36 + 2 * k] as int + 0x100 * data[37 + 2 * k] as int
  {
    ToUInt16(data, ANALOG_OFFSET + 2 * (k - 1))
  }

  /** HoldingRegisters[2k - 1]: the low 16 bits of the float pattern of w. */
  function FloatLow(w: u16): u16 {
    ToUInt16(GetBytes(Encode(w)), 0)
  }

  /** HoldingRegisters[2k]: the high 16 bits of the float pattern of w. */
  function FloatHigh(w: u16): u16 {
    ToUInt16(GetBytes(Encode(w)), 2)
  }

  /** A client that joins the two holding registers, low word first, gets the
      binary32 pattern of w, and that pattern denotes w exactly. */
  lemma FloatPairRoundTrip(w: u16)
    ensures FloatLow(w) as int + 0x1_0000 * FloatHigh(w) as int == Encode(w)
    ensures Value(FloatLow(w) as int + 0x1_0000 * FloatHigh(w) as int) == Some(w as real)
  {
    HalvesRoundTrip(w);
  }

  /** Registers holding the two halves of w, low word first, denote w. */
  lemma PairValue(low: u16, high: u16, w: u16)
    requires low == FloatLow(w) && high == FloatHigh(w)
    ensures Value(low as int + 0x1_0000 * high as int) == Some(w as real)
  {
    FloatPairRoundTrip(w);
  }

  /** Two different words never share a holding pair. */
  lemma FloatPairInjective(v: u16, w: u16)
    requires FloatLow(v) == FloatLow(w) && FloatHigh(v) == FloatHigh(w)
    ensures v == w
  {
    FloatPairRoundTrip(v);
    FloatPairRoundTrip(w);
    EncodeInjective(v, w);
  }

  /** The stop/run reply is accepted when at least two bytes came back and they
      are ANSWERRUN. */
  predicate IsRunAnswer(reply: seq<byte>)
  {
    |reply| >= 2 && reply[0] == ANSWERRUN[0] && reply[1] == ANSWERRUN[1]
  }

  /** decode reads only byte 0, the digital bytes 28..35 and the analog bytes
      38..69: buffers that agree there decode alike. */
  lemma DecodeReadsOnlyFrameBytes(d: seq<byte>, e: seq<byte>, count: int)
    requires |d| >= 70 && |e| >= 70
    requires d[0] == e[0]
    requires forall i :: DIGITAL_OFFSET <= i < DIGITAL_OFFSET + 8 ==> d[i] == e[i]
    requires forall i :: ANALOG_OFFSET <= i < ANALOG_OFFSET + 32 ==> d[i] == e[i]
    ensures Accepts(d, count) == Accepts(e, count)
    ensures forall k :: 1 <= k <= 64 ==> Discrete(d, k) == Discrete(e, k)
    ensures forall k :: 1 <= k <= 16 ==> Word(d, k) == Word(e, k)
  {
  }
}
