/** The controller driver: its status, the lifecycle flags, the serial port
    reduced to an open/closed flag, and the register image it publishes. The
    image is NModbus' DataStore: each bank is a collection of n values indexed
    1..n, here an array of length n + 1 whose element 0 is never used. */
module Driver {
  import opened Bytes
  import opened Binary32
  import opened Frame
  import opened Poll

  const DISCRETE_COUNT: nat := 64
  const INPUT_REGISTER_COUNT: nat := 80
  const HOLDING_REGISTER_COUNT: nat := 32
  const COIL_COUNT: nat := 0
  /** The port name of a new SerialPort, until setPortName changes it. */
  const DEFAULT_PORT_NAME: string := "COM1"

  /** SerialPort.Read(buffer, 0, 80) returning the bytes of reply: they land at
      the front of the buffer and the rest of it keeps what earlier reads left. */
  method Receive(buffer: array<byte>, reply: seq<byte>)
    requires |reply| <= buffer.Length
    modifies buffer
    ensures buffer[..] == reply + old(buffer[..])[|reply|..]
  {
    for i := 0 to |reply|
      invariant forall k :: 0 <= k < i ==> buffer[k] == reply[k]
      invariant forall k :: i <= k < buffer.Length ==> buffer[k] == old(buffer[k])
    {
      buffer[i] := reply[i];
    }
    assert buffer[..] == reply + old(buffer[..])[|reply|..];
  }

  /** A client reading the image after an accepted snapshot: every holding
      pair, low word first, is the float that equals the raw word beside it. */
  lemma ImageFloatPairs(drv: LogoDriver)
    requires drv.Valid() && drv.FloatPairsHeld()
    ensures forall k :: 1 <= k <= 16 ==>
              Value(drv.holdingRegisters[2 * k - 1] as int + 0x1_0000 * drv.holdingRegisters[2 * k] as int)
              == Some(drv.inputRegisters[k] as real)
  {
    forall k | 1 <= k <= 16
      ensures Value(drv.holdingRegisters[2 * k - 1] as int + 0x1_0000 * drv.holdingRegisters[2 * k] as int)
              == Some(drv.inputRegisters[k] as real)
    {
      PairValue(drv.holdingRegisters[2 * k - 1], drv.holdingRegisters[2 * k], drv.inputRegisters[k]);
    }
  }

  /** A session: a new driver, start called twice (the second call is a
      no-op), the poll thread run over the given reads, then stop. */
  method Session(outcomes: seq<Read>) returns (drv: LogoDriver, cycles: nat)
    requires forall i :: 0 <= i < |outcomes| ==> Fits(outcomes[i])
    ensures drv.Valid() && drv.status == Offline && !drv.running && !drv.portOpen
    ensures drv.notifications == Replay(Online, outcomes).changes + 2
    ensures cycles == Replay(Online, outcomes).cycles
  {
    drv := new LogoDriver();
    drv.Start();
    drv.Start();
    cycles := drv.Run(outcomes);
  }

  class LogoDriver {
    var status: LogoStatus
    var running: bool
    var shouldstop: bool
    /** Whether the serial port is open. */
    var portOpen: bool
    var portName: string
    /** Poll cycle in milliseconds (cykleTime); delays are counted in cycles. */
    var cycleTime: int
    /** How many times the status-change event has been raised. */
    var notifications: nat

    const inputDiscretes: array<bool>
    const inputRegisters: array<u16>
    const holdingRegisters: array<u16>
    const coilDiscretes: array<bool>

    ghost predicate Valid()
      reads this
    {
      && inputDiscretes.Length == DISCRETE_COUNT + 1
      && inputRegisters.Length == INPUT_REGISTER_COUNT + 1
      && holdingRegisters.Length == HOLDING_REGISTER_COUNT + 1
      && coilDiscretes.Length == COIL_COUNT + 1
      && inputRegisters != holdingRegisters
      && inputDiscretes != coilDiscretes
      && running == portOpen
    }

    /** The image holds the snapshot in d: the 64 digital bits, their analog
        mirror above the 16 raw words, and each word's float pattern split over
        two holding registers, low half first. */
    ghost predicate HoldsFrame(d: seq<byte>)
      requires Valid() && |d| >= 70
      reads this, inputDiscretes, inputRegisters, holdingRegisters
    {
      && (forall k :: 1 <= k <= 64 ==> inputDiscretes[k] == Discrete(d, k))
      && (forall k :: 1 <= k <= 64 ==> inputRegisters[16 + k] == Analog(inputDiscretes[k]))
      && (forall k :: 1 <= k <= 16 ==> inputRegisters[k] == Word(d, k))
      && FloatPairsHeld()
    }

    /** Each of the 16 raw words has its float pattern split over two holding
        registers, low half first. */
    ghost predicate FloatPairsHeld()
      requires Valid()
      reads this, inputRegisters, holdingRegisters
    {
      forall k :: 1 <= k <= 16 ==>
        holdingRegisters[2 * k - 1] == FloatLow(inputRegisters[k])
        && holdingRegisters[2 * k] == FloatHigh(inputRegisters[k])
    }

    constructor ()
      ensures Valid()
      ensures fresh(inputDiscretes) && fresh(inputRegisters) && fresh(holdingRegisters) && fresh(coilDiscretes)
      ensures status == Offline && !running && !shouldstop && !portOpen
      ensures notifications == 0 && cycleTime == DEFAULT_CYCLE_TIME as int
      ensures forall k :: 0 <= k < inputDiscretes.Length ==> !inputDiscretes[k]
      ensures forall k :: 0 <= k < inputRegisters.Length ==> inputRegisters[k] == 0
      ensures forall k :: 0 <= k < holdingRegisters.Length ==> holdingRegisters[k] == 0
      ensures forall k :: 0 <= k < coilDiscretes.Length ==> !coilDiscretes[k]
      ensures portName == DEFAULT_PORT_NAME
    {
      status := Offline;
      notifications := 0;
      running := false;
      shouldstop := false;
      portOpen := false;
      portName := DEFAULT_PORT_NAME;
      cycleTime := DEFAULT_CYCLE_TIME;
      inputDiscretes := new bool[DISCRETE_COUNT + 1](_ => false);
      inputRegisters := new u16[INPUT_REGISTER_COUNT + 1](_ => 0);
      holdingRegisters := new u16[HOLDING_REGISTER_COUNT + 1](_ => 0);
      coilDiscretes := new bool[COIL_COUNT + 1](_ => false);
      new;
      SetStatus(Offline);
    }

    /** setStatus: change the status and raise the event, only on a change. */
    method SetStatus(s: LogoStatus)
      modifies this`status, this`notifications
      ensures status == s
      ensures notifications == old(notifications) + (if old(status) != s then 1 else 0)
    {
      if status != s {
        status := s;
        notifications := notifications + 1;
      }
    }

    method SetPortName(name: string)
      modifies this`portName
      ensures portName == name
    {
      portName := name;
    }

    /** start: a no-op while running; otherwise mark running, go Online, clear
        the stop request and open the port (the poll thread is Run). */
    method Start()
      requires Valid()
      modifies this
      ensures Valid() && running
      ensures old(running) ==>
                status == old(status) && shouldstop == old(shouldstop) && notifications == old(notifications)
      ensures !old(running) ==>
                status == Online && !shouldstop
                && notifications == old(notifications) + (if old(status) != Online then 1 else 0)
      ensures portName == old(portName) && cycleTime == old(cycleTime)
    {
      if !running {
        running := true;
        SetStatus(Online);
        shouldstop := false;
        portOpen := true;
      }
    }

    /** stop: only requests the loop to end. */
    method Stop()
      modifies this`shouldstop
      ensures shouldstop
    {
      shouldstop := true;
    }

    /** One iteration of run's loop: write the command of the current status,
        read (r is what the read gives: a timeout or the bytes read into buffer),
        and move the status. The result is the extra sleep in poll cycles and the
        command written. */
    method Step(buffer: array<byte>, r: Read) returns (cycles: nat, sent: seq<byte>)
      requires Valid() && buffer.Length == BUFFER_SIZE && Fits(r)
      modifies this, buffer, inputDiscretes, inputRegisters, holdingRegisters
      ensures Valid()
      ensures sent == Command(old(status))
      ensures r.Timeout? ==> status == Online && cycles == 2
      ensures r.Received? && old(status) == Online ==> status == InStop && cycles == 0
      ensures r.Received? && old(status) == InStop ==>
                if IsRunAnswer(r.bytes) then status == Connected && cycles == 0
                else status == InStop && cycles == 1
      ensures r.Received? && old(status) != Online && old(status) != InStop ==>
                status == (if FrameAccepted(r.bytes) then old(status) else Online) && cycles == 1
      ensures notifications == old(notifications) + (if status != old(status) then 1 else 0)
      ensures running == old(running) && shouldstop == old(shouldstop) && portOpen == old(portOpen)
      ensures portName == old(portName) && cycleTime == old(cycleTime)
      ensures buffer[..] == if r.Received? then r.bytes + old(buffer[..])[|r.bytes|..] else old(buffer[..])
      ensures if r.Received? && old(status) != Online && old(status) != InStop && FrameAccepted(r.bytes)
              then HoldsFrame(buffer[..])
              else unchanged(inputDiscretes) && unchanged(inputRegisters) && unchanged(holdingRegisters)
      ensures inputDiscretes[0] == old(inputDiscretes[0]) && inputRegisters[0] == old(inputRegisters[0])
              && holdingRegisters[0] == old(holdingRegisters[0])
    {
      sent := Command(status);
      if status == Online {
        if r.Received? {
          Receive(buffer, r.bytes);
          SetStatus(InStop);
          cycles := 0;
        }
      } else if status == InStop {
        if r.Received? {
          Receive(buffer, r.bytes);
          var readCount := |r.bytes|;
          if readCount >= 2 && buffer[0] == ANSWERRUN[0] && buffer[1] == ANSWERRUN[1] {
            SetStatus(Connected);
            cycles := 0;
          } else {
            cycles := 1;
          }
        }
      } else {
        if r.Received? {
          Receive(buffer, r.bytes);
          var readCount := |r.bytes|;
          var ok := Decode(buffer, readCount);
          if !ok {
            SetStatus(Online);
          }
          cycles := 1;
        }
      }
      if r.Timeout? {
        // the TimeoutException handler
        SetStatus(Online);
        cycles := 2;
      }
    }

    /** The body of the poll thread: go Online, iterate until a stop request is
        seen, then close the port, clear running and go Offline. outcomes are the
        reads of the iterations before stop() is called; the call arrives once
        they are used up. The result is the total extra sleep in poll cycles. */
    method Run(outcomes: seq<Read>) returns (cycles: nat)
      requires Valid() && running
      requires forall i :: 0 <= i < |outcomes| ==> Fits(outcomes[i])
      modifies this, inputDiscretes, inputRegisters, holdingRegisters
      ensures Valid()
      ensures status == Offline && !running && !portOpen && shouldstop
      ensures var steps := if old(shouldstop) then [] else outcomes;
              var t := Replay(Online, steps);
              && cycles == t.cycles
              && notifications == old(notifications) + (if old(status) != Online then 1 else 0) + t.changes + 1
      ensures portName == old(portName) && cycleTime == old(cycleTime)
    {
      var readBuffer := new byte[BUFFER_SIZE](_ => 0);
      SetStatus(Online);
      ghost var base := notifications;
      cycles := 0;
      var i := 0;
      while !shouldstop
        invariant Valid() && running && portOpen
        invariant 0 <= i <= |outcomes|
        invariant old(shouldstop) ==> i == 0
        invariant shouldstop ==> old(shouldstop) || i == |outcomes|
        invariant status == Replay(Online, outcomes[..i]).status
        invariant notifications == base + Replay(Online, outcomes[..i]).changes
        invariant cycles == Replay(Online, outcomes[..i]).cycles
        invariant portName == old(portName) && cycleTime == old(cycleTime)
        invariant fresh(readBuffer) && readBuffer.Length == BUFFER_SIZE
        decreases |outcomes| - i, !shouldstop
      {
        if i == |outcomes| {
          // the user's stop() request, seen by the next loop test
          Stop();
        } else {
          assert outcomes[..i + 1][..i] == outcomes[..i];
          var c, _ := Step(readBuffer, outcomes[i]);
          cycles := cycles + c;
          i := i + 1;
        }
      }
      NeverOffline(Online, outcomes[..i]);
      assert i == 0 || outcomes[..i] == outcomes;
      portOpen := false;
      running := false;
      SetStatus(Offline);
    }

    /** decode: reject the reply, writing nothing, unless more than 68 bytes were
        read and the first is an acknowledge; otherwise unpack the snapshot into
        the three banks. */
    method Decode(data: array<byte>, count: int) returns (ok: bool)
      requires Valid()
      requires count > 68 ==> data.Length >= 70
      modifies inputDiscretes, inputRegisters, holdingRegisters
      ensures ok == Accepts(data[..], count)
      ensures !ok ==> unchanged(inputDiscretes) && unchanged(inputRegisters) && unchanged(holdingRegisters)
      ensures ok ==> HoldsFrame(data[..])
      ensures inputDiscretes[0] == old(inputDiscretes[0]) && inputRegisters[0] == old(inputRegisters[0])
              && holdingRegisters[0] == old(holdingRegisters[0])
    {
      if count > 68 {
        if data[0] == ACK {
          UnpackDigital(data);
          UnpackAnalog(data);
          return true;
        }
      }
      return false;
    }

    /** The digital part of decode: bit j of byte 28 + i becomes InputDiscretes[8i + j + 1]
        and its analog mirror InputRegisters[16 + 8i + j + 1]. */
    method UnpackDigital(data: array<byte>)
      requires Valid() && data.Length >= 70
      modifies inputDiscretes, inputRegisters
      ensures forall k :: 1 <= k <= 64 ==> inputDiscretes[k] == Discrete(data[..], k)
      ensures forall k :: 1 <= k <= 64 ==> inputRegisters[16 + k] == Analog(inputDiscretes[k])
      ensures forall k :: 0 <= k <= 16 ==> inputRegisters[k] == old(inputRegisters[k])
      ensures inputDiscretes[0] == old(inputDiscretes[0])
    {
      ghost var d := data[..];
      for i := 0 to 8
        invariant forall k :: 1 <= k <= 8 * i ==>
                    inputDiscretes[k] == Discrete(d, k) && inputRegisters[16 + k] == Analog(Discrete(d, k))
        invariant forall k :: 0 <= k <= 16 ==> inputRegisters[k] == old(inputRegisters[k])
        invariant inputDiscretes[0] == old(inputDiscretes[0])
      {
        for j := 0 to 8
          invariant forall k :: 1 <= k <= 8 * i + j ==>
                      inputDiscretes[k] == Discrete(d, k) && inputRegisters[16 + k] == Analog(Discrete(d, k))
          invariant forall k :: 0 <= k <= 16 ==> inputRegisters[k] == old(inputRegisters[k])
          invariant inputDiscretes[0] == old(inputDiscretes[0])
        {
          var index := i * 8 + j + 1;
          DiscreteAt(d, i, j);
          StoreBit(index, BitSet(data[DIGITAL_OFFSET + i], j));
        }
      }
    }

    /** Discrete input index and its analog mirror, written into the image. */
    method StoreBit(index: nat, bit: bool)
      requires Valid() && 1 <= index <= 64
      modifies inputDiscretes, inputRegisters
      ensures inputDiscretes[index] == bit && inputRegisters[16 + index] == Analog(bit)
      ensures forall k :: 0 <= k < inputDiscretes.Length && k != index ==> inputDiscretes[k] == old(inputDiscretes[k])
      ensures forall k :: 0 <= k < inputRegisters.Length && k != 16 + index ==>
                inputRegisters[k] == old(inputRegisters[k])
    {
      inputDiscretes[index] := bit;
      inputRegisters[16 + index] := Analog(inputDiscretes[index]);
    }

    /** The analog part of decode: the word at 38 + 2i becomes InputRegisters[i + 1]
        and its float pattern HoldingRegisters[2i + 1] (low) and [2i + 2] (high). */
    method UnpackAnalog(data: array<byte>)
      requires Valid() && data.Length >= 70
      modifies inputRegisters, holdingRegisters
      ensures forall k :: 1 <= k <= 16 ==> inputRegisters[k] == Word(data[..], k)
      ensures FloatPairsHeld()
      ensures forall k :: 16 < k < inputRegisters.Length ==> inputRegisters[k] == old(inputRegisters[k])
      ensures inputRegisters[0] == old(inputRegisters[0]) && holdingRegisters[0] == old(holdingRegisters[0])
    {
      ghost var d := data[..];
      for i := 0 to 16
        invariant forall k :: 1 <= k <= i ==> inputRegisters[k] == Word(d, k)
        invariant forall k :: 1 <= k <= i ==>
                    holdingRegisters[2 * k - 1] == FloatLow(inputRegisters[k])
                    && holdingRegisters[2 * k] == FloatHigh(inputRegisters[k])
        invariant forall k :: 16 < k < inputRegisters.Length ==> inputRegisters[k] == old(inputRegisters[k])
        invariant inputRegisters[0] == old(inputRegisters[0]) && holdingRegisters[0] == old(holdingRegisters[0])
      {
        var word := ToUInt16(data[..], ANALOG_OFFSET + 2 * i);
        assert word == Word(d, i + 1);
        StoreWord(i, word);
      }
    }

    /** Analog word i + 1 and its float halves, written into the image. */
    method StoreWord(i: nat, word: u16)
      requires Valid() && i < 16
      modifies inputRegisters, holdingRegisters
      ensures inputRegisters[i + 1] == word
      ensures holdingRegisters[2 * i + 1] == FloatLow(word) && holdingRegisters[2 * i + 2] == FloatHigh(word)
      ensures forall k :: 0 <= k < inputRegisters.Length && k != i + 1 ==> inputRegisters[k] == old(inputRegisters[k])
      ensures forall k :: 0 <= k < holdingRegisters.Length && k != 2 * i + 1 && k != 2 * i + 2 ==>
                holdingRegisters[k] == old(holdingRegisters[k])
    {
      inputRegisters[i + 1] := word;
      holdingRegisters[2 * i + 1] := FloatLow(inputRegisters[i + 1]);
      holdingRegisters[2 * i + 2] := FloatHigh(inputRegisters[i + 1]);
    }
  }
}
