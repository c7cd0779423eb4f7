/** The connection state machine of the poll loop, on values: one loop
    iteration as a transition of the status driven by what the read returned,
    and a sequence of iterations replayed from a status. The class in module
    Driver runs the same iterations on its fields and arrays. */
module Poll {
  import opened Bytes
  import opened Frame

  /** Offline: no connection. Online: a connection is being set up.
      InStop: the controller answered but is not known to be in RUN.
      Connected: the controller is in RUN and snapshots are read. */
  datatype LogoStatus = Offline | Online | InStop | Connected

  /** What one serial read gives the loop: a timeout, or the bytes read. */
  datatype Read = Timeout | Received(bytes: seq<byte>)

  /** A read never returns more bytes than the 80 requested. */
  predicate Fits(r: Read)
  {
    r.Timeout? || |r.bytes| <= BUFFER_SIZE
  }

  /** The command an iteration writes in a status: anything other than Online
      and InStop polls for a snapshot. */
  function Command(s: LogoStatus): (c: seq<byte>)
    ensures |c| > 0
  {
    match s
    case Online => INITCODE
    case InStop => ASKRUNSTOP
    case _ => ASKSTATUS
  }

  /** decode accepts a freshly read reply: more than 68 bytes, acknowledge first
      (whatever the stale tail of the buffer holds). */
  predicate FrameAccepted(reply: seq<byte>)
  {
    |reply| > 68 && reply[0] == ACK
  }

  /** Whatever the stale tail of the buffer holds, decode's accept rule on the
      buffer after a read is the rule on the fresh reply alone. */
  lemma FreshReplyAccepted(buffer: seq<byte>, reply: seq<byte>)
    requires |buffer| == BUFFER_SIZE && |reply| <= BUFFER_SIZE
    requires buffer[..|reply|] == reply
    ensures Accepts(buffer, |reply|) == FrameAccepted(reply)
  {
    if |reply| > 0 {
      assert buffer[0] == buffer[..|reply|][0];
    }
  }

  /** The status after one iteration and the extra sleep it takes, in poll
      cycles (on top of the WAITTIME every iteration sleeps between its write
      and its read). */
  datatype Transition = Transition(status: LogoStatus, cycles: nat)

  /** One iteration of the loop: no branch sets Offline (an accepted snapshot
      keeps whatever status polled it), and it sleeps at most two extra cycles. */
  function Next(s: LogoStatus, r: Read): (t: Transition)
    ensures s != Offline ==> t.status != Offline
    ensures t.cycles <= 2
  {
    match r
    case Timeout => Transition(Online, 2)
    case Received(reply) =>
      if s == Online then Transition(InStop, 0)
      else if s == InStop then
        if IsRunAnswer(reply) then Transition(Connected, 0) else Transition(InStop, 1)
      else
        Transition(if FrameAccepted(reply) then s else Online, 1)
  }

  /** Where a run of iterations ends, how many of them changed the status (the
      notifications raised) and how many poll cycles they slept. */
  datatype Summary = Summary(status: LogoStatus, changes: nat, cycles: nat)

  function Replay(s: LogoStatus, outcomes: seq<Read>): Summary
    decreases |outcomes|
  {
    if outcomes == [] then Summary(s, 0, 0)
    else
      var before := Replay(s, outcomes[..|outcomes| - 1]);
      var t := Next(before.status, outcomes[|outcomes| - 1]);
      Summary(t.status, before.changes + (if t.status != before.status then 1 else 0),
              before.cycles + t.cycles)
  }

  /** Running a then b is running b from where a ended. */
  lemma {:induction false} ReplayAppend(s: LogoStatus, a: seq<Read>, b: seq<Read>)
    ensures var x := Replay(s, a); var y := Replay(x.status, b);
      Replay(s, a + b) == Summary(y.status, x.changes + y.changes, x.cycles + y.cycles)
    decreases |b|
  {
    if b != [] {
      var b' := b[..|b| - 1];
      assert (a + b)[..|a + b| - 1] == a + b';
      assert (a + b)[|a + b| - 1] == b[|b| - 1];
      ReplayAppend(s, a, b');
    } else {
      assert a + b == a;
    }
  }

  /** Inside the loop the status never becomes Offline. */
  lemma {:induction false} NeverOffline(s: LogoStatus, outcomes: seq<Read>)
    requires s != Offline
    ensures Replay(s, outcomes).status != Offline
    decreases |outcomes|
  {
    if outcomes != [] {
      NeverOffline(s, outcomes[..|outcomes| - 1]);
    }
  }

  /** Each iteration raises at most one notification and sleeps at most two
      cycles. */
  lemma {:induction false} ReplayBounds(s: LogoStatus, outcomes: seq<Read>)
    ensures Replay(s, outcomes).changes <= |outcomes|
    ensures Replay(s, outcomes).cycles <= 2 * |outcomes|
    decreases |outcomes|
  {
    if outcomes != [] {
      ReplayBounds(s, outcomes[..|outcomes| - 1]);
    }
  }

  /** A timeout from anywhere leads back to Online and backs off two cycles. */
  lemma TimeoutRestarts(s: LogoStatus, outcomes: seq<Read>)
    ensures var x := Replay(s, outcomes); var y := Replay(s, outcomes + [Timeout]);
      y.status == Online && y.cycles == x.cycles + 2
      && y.changes == x.changes + (if x.status == Online then 0 else 1)
  {
    assert (outcomes + [Timeout])[..|outcomes|] == outcomes;
  }

  /** The handshake: any reply to INITCODE, then ANSWERRUN to ASKRUNSTOP, reaches
      Connected with two notifications and no cycle sleep. */
  lemma Handshake(first: seq<byte>, second: seq<byte>)
    requires IsRunAnswer(second)
    ensures Replay(Online, [Received(first), Received(second)]) == Summary(Connected, 2, 0)
  {
    var one := [Received(first)];
    assert one[..0] == [];
    assert Replay(Online, one) == Summary(InStop, 1, 0);
    assert [Received(first), Received(second)][..1] == one;
  }

  /** Replies that are not ANSWERRUN keep the loop in InStop for ever: one cycle
      per retry, no notification, and never back to Online. */
  lemma {:induction false} StuckInStop(outcomes: seq<Read>)
    requires forall i :: 0 <= i < |outcomes| ==> outcomes[i].Received? && !IsRunAnswer(outcomes[i].bytes)
    ensures Replay(InStop, outcomes) == Summary(InStop, 0, |outcomes|)
    decreases |outcomes|
  {
    if outcomes != [] {
      StuckInStop(outcomes[..|outcomes| - 1]);
    }
  }

  /** While every snapshot is accepted the loop stays Connected, one cycle per
      poll, without notifications. */
  lemma {:induction false} StaysConnected(outcomes: seq<Read>)
    requires forall i :: 0 <= i < |outcomes| ==> outcomes[i].Received? && FrameAccepted(outcomes[i].bytes)
    ensures Replay(Connected, outcomes) == Summary(Connected, 0, |outcomes|)
    decreases |outcomes|
  {
    if outcomes != [] {
      StaysConnected(outcomes[..|outcomes| - 1]);
    }
  }
}
