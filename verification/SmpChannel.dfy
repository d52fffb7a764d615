/**
 The byte channel between the bootstrap processor and an application processor: a lock byte, a
 ready byte and a data byte in shared memory, and the integers carried over it.

 Each processor advances one instruction at a time, in any interleaving. `sent` and `received`
 count calls that have returned.
 */
module SmpChannel {
  import opened Collections

  type Byte = bv8

  /** The next instruction of `send_byte`. */
  datatype SenderPc = SLock | SCheck | SRelease | SWrite | SReady | SUnlock

  /** The next instruction of `get_next_byte`. */
  datatype ReceiverPc = RLock | RCheck | RRelease | RRead | RClear(byte: Byte) | RUnlock(byte: Byte)

  datatype State = State(
    busy: bool,            // the lock byte
    ready: bool,           // the ready byte
    data: Byte,            // the data byte
    sender: SenderPc,
    sent: nat,             // bytes whose `send_byte` has returned
    receiver: ReceiverPc,
    received: seq<Byte>)   // what `get_next_byte` has returned so far

  datatype Action = Sender | Receiver

  function Init(): State { State(false, false, 0, SLock, 0, RLock, []) }

  function SenderStep(s: State, input: seq<Byte>): State {
    match s.sender
    case SLock =>
      // `xchg`: the sender owns the lock if it was clear; nothing is left to do after the last byte
      if s.sent >= |input| || s.busy then s else s.(busy := true, sender := SCheck)
    case SCheck => s.(sender := if s.ready then SRelease else SWrite)
    case SRelease => s.(busy := false, sender := SLock)
    case SWrite => if s.sent < |input| then s.(data := input[s.sent], sender := SReady) else s
    case SReady => s.(ready := true, sender := SUnlock)
    case SUnlock => s.(busy := false, sent := s.sent + 1, sender := SLock)
  }

  function ReceiverStep(s: State): State {
    match s.receiver
    case RLock => if s.busy then s else s.(busy := true, receiver := RCheck)
    case RCheck => s.(receiver := if s.ready then RRead else RRelease)
    case RRelease => s.(busy := false, receiver := RLock)
    case RRead => s.(receiver := RClear(s.data))
    case RClear(b) => s.(ready := false, receiver := RUnlock(b))
    case RUnlock(b) => s.(busy := false, received := s.received + [b], receiver := RLock)
  }

  function Step(s: State, input: seq<Byte>, a: Action): State {
    if a.Sender? then SenderStep(s, input) else ReceiverStep(s)
  }

  function Run(s: State, input: seq<Byte>, actions: seq<Action>): State
    decreases |actions|
  {
    if actions == [] then s else Run(Step(s, input, actions[0]), input, actions[1..])
  }

  // ---------------------------------------------------------------- the invariant

  /** Bytes that have been announced, and bytes that have been taken. */
  function Published(s: State): nat { s.sent + One(s.sender.SUnlock?) }

  function Consumed(s: State): nat { |s.received| + One(s.receiver.RUnlock?) }

  predicate Inv(s: State, input: seq<Byte>) {
    // the lock byte says whether exactly one side is past its `xchg`
    && !(!s.sender.SLock? && !s.receiver.RLock?)
    && (s.busy <==> !s.sender.SLock? || !s.receiver.RLock?)
    // the ready byte says whether a byte is announced and not taken
    && Published(s) == Consumed(s) + One(s.ready)
    && Published(s) <= |input|
    && (s.ready ==> s.data == input[Consumed(s)])
    // what each side knows while it holds the lock
    && (!s.sender.SLock? && !s.sender.SUnlock? ==> s.sent < |input|)
    && (s.sender.SRelease? ==> s.ready)
    && (s.sender.SWrite? || s.sender.SReady? ==> !s.ready)
    && (s.sender.SReady? ==> s.data == input[s.sent])
    && (s.sender.SUnlock? ==> s.ready)
    && (s.receiver.RRead? || s.receiver.RClear? ==> s.ready)
    && (s.receiver.RRelease? || s.receiver.RUnlock? ==> !s.ready)
    && (s.receiver.RClear? ==> s.receiver.byte == input[Consumed(s)])
    && (s.receiver.RUnlock? ==> s.receiver.byte == input[|s.received|])
    && s.received == input[..|s.received|]
  }

  lemma StepInv(s: State, input: seq<Byte>, a: Action)
    requires Inv(s, input)
    ensures Inv(Step(s, input, a), input)
  {
    if a.Receiver? && s.receiver.RUnlock? {
      assert input[..|s.received| + 1] == s.received + [s.receiver.byte];
    }
  }

  lemma {:induction false} RunInv(s: State, input: seq<Byte>, actions: seq<Action>)
    requires Inv(s, input)
    ensures Inv(Run(s, input, actions), input)
    decreases |actions|
  {
    if actions == [] {
    } else {
      StepInv(s, input, actions[0]);
      RunInv(Step(s, input, actions[0]), input, actions[1..]);
    }
  }

  /** In every interleaving the bytes received are a prefix of the bytes sent, behind by at most one. */
  lemma ReceivedIsPrefix(input: seq<Byte>, actions: seq<Action>)
    ensures var s := Run(Init(), input, actions);
            && s.sent <= |input|
            && |s.received| <= s.sent <= |s.received| + 1
            && s.received == input[..|s.received|]
  {
    RunInv(Init(), input, actions);
  }

  // ---------------------------------------------------------------- it never gets stuck

  lemma {:induction false} RunAppend(s: State, input: seq<Byte>, a: seq<Action>, b: seq<Action>)
    ensures Run(s, input, a + b) == Run(Run(s, input, a), input, b)
    decreases |a|
  {
    if a == [] {
      assert a + b == b;
    } else {
      assert (a + b)[0] == a[0] && (a + b)[1..] == a[1..] + b;
      RunAppend(Step(s, input, a[0]), input, a[1..], b);
    }
  }

  /** How far a side is from the instruction that releases the lock. */
  function SenderDistance(s: State): nat {
    match s.sender
    case SLock => 0
    case SCheck => 4
    case SWrite => 3
    case SReady => 2
    case SRelease => 1
    case SUnlock => 1
  }

  function ReceiverDistance(s: State): nat {
    match s.receiver
    case RLock => 0
    case RCheck => 4
    case RRead => 3
    case RClear(_) => 2
    case RRelease => 1
    case RUnlock(_) => 1
  }

  /** A side that holds the lock releases it on its own. */
  lemma {:induction false} SenderReleases(s: State, input: seq<Byte>) returns (actions: seq<Action>)
    requires Inv(s, input)
    ensures var s' := Run(s, input, actions);
            && Inv(s', input) && s'.sender.SLock?
            && s'.receiver == s.receiver && s'.received == s.received
            && (s.ready ==> s'.ready)
    decreases SenderDistance(s)
  {
    if s.sender.SLock? { return []; }
    StepInv(s, input, Sender);
    var rest := SenderReleases(SenderStep(s, input), input);
    actions := [Sender] + rest;
  }

  lemma {:induction false} ReceiverReleases(s: State, input: seq<Byte>) returns (actions: seq<Action>)
    requires Inv(s, input)
    ensures var s' := Run(s, input, actions);
            && Inv(s', input) && s'.receiver.RLock?
            && s'.sender == s.sender && s'.sent == s.sent
            && |s'.received| >= |s.received|
            && ((s.receiver.RCheck? && s.ready) || s.receiver.RRead? || s.receiver.RClear? || s.receiver.RUnlock? ==>
                  |s'.received| > |s.received|)
    decreases ReceiverDistance(s)
  {
    if s.receiver.RLock? { return []; }
    StepInv(s, input, Receiver);
    var rest := ReceiverReleases(ReceiverStep(s), input);
    actions := [Receiver] + rest;
  }

  /** From every state the channel can reach, the next byte can still be delivered. */
  lemma NextByteCanArrive(s: State, input: seq<Byte>) returns (actions: seq<Action>)
    requires Inv(s, input) && |s.received| < |input|
    ensures |Run(s, input, actions).received| > |s.received|
  {
    var a := ReceiverReleases(s, input);
    var s1 := Run(s, input, a);
    if |s1.received| > |s.received| { return a; }
    var b := SenderReleases(s1, input);
    var s2 := Run(s1, input, b);
    RunAppend(s, input, a, b);
    actions := a + b;
    var s3 := s2;
    if !s2.ready {
      var c := Announce(s2, input);
      RunAppend(s, input, actions, c);
      actions := actions + c;
      s3 := Run(s2, input, c);
    }
    StepInv(s3, input, Receiver);
    var d := ReceiverReleases(ReceiverStep(s3), input);
    RunAppend(s, input, actions, [Receiver] + d);
    actions := actions + ([Receiver] + d);
  }

  lemma Announce(s: State, input: seq<Byte>) returns (actions: seq<Action>)
    requires Inv(s, input) && s.sender.SLock? && s.receiver.RLock? && !s.ready && |s.received| < |input|
    ensures var s' := Run(s, input, actions);
            Inv(s', input) && s'.sender.SLock? && s'.receiver.RLock? && s'.ready && s'.received == s.received
  {
    StepInv(s, input, Sender);
    var s1 := SenderStep(s, input);
    StepInv(s1, input, Sender);
    var s2 := SenderStep(s1, input);
    StepInv(s2, input, Sender);
    var s3 := SenderStep(s2, input);
    StepInv(s3, input, Sender);
    var s4 := SenderStep(s3, input);
    var rest := SenderReleases(s4, input);
    actions := [Sender] + ([Sender] + ([Sender] + ([Sender] + rest)));
    assert Run(s3, input, [Sender] + rest) == Run(s4, input, rest);
    assert Run(s2, input, [Sender] + ([Sender] + rest)) == Run(s3, input, [Sender] + rest);
    assert Run(s1, input, [Sender] + ([Sender] + ([Sender] + rest))) == Run(s2, input, [Sender] + ([Sender] + rest));
  }

  // ---------------------------------------------------------------- integers

  datatype Message = U64(x: bv64) | U16(y: bv16)

  /** `to_ne_bytes` on a little-endian machine. */
  function Bytes(m: Message): seq<Byte> {
    match m
    case U64(x) =>
      [(x & 0xFF) as bv8, ((x >> 8) & 0xFF) as bv8, ((x >> 16) & 0xFF) as bv8, ((x >> 24) & 0xFF) as bv8,
       ((x >> 32) & 0xFF) as bv8, ((x >> 40) & 0xFF) as bv8, ((x >> 48) & 0xFF) as bv8, ((x >> 56) & 0xFF) as bv8]
    case U16(y) => [(y & 0xFF) as bv8, ((y >> 8) & 0xFF) as bv8]
  }

  /** The lowest byte goes first. */
  lemma LowByteFirst()
    ensures Bytes(U64(0x0807_0605_0403_0201)) == [1, 2, 3, 4, 5, 6, 7, 8] && Bytes(U16(0x0201)) == [1, 2]
  {
  }

  function Read2(s: seq<Byte>): bv16
    requires |s| >= 2
  {
    (s[0] as bv16) | ((s[1] as bv16) << 8)
  }

  function Read4(s: seq<Byte>): bv32
    requires |s| >= 4
  {
    (Read2(s) as bv32) | ((Read2(s[2..]) as bv32) << 16)
  }

  function Read8(s: seq<Byte>): bv64
    requires |s| >= 8
  {
    (Read4(s) as bv64) | ((Read4(s[4..]) as bv64) << 32)
  }

  lemma Read8OfBytes(x: bv64, s: seq<Byte>)
    requires |s| >= 8 && s[..8] == Bytes(U64(x))
    ensures Read8(s) == x
  {
    var b := s[..8];
    assert b[0] == s[0] && b[1] == s[1] && b[2] == s[2] && b[3] == s[3];
    assert b[4] == s[4] && b[5] == s[5] && b[6] == s[6] && b[7] == s[7];
  }

  lemma Read2OfBytes(y: bv16, s: seq<Byte>)
    requires |s| >= 2 && s[..2] == Bytes(U16(y))
    ensures Read2(s) == y
  {
    assert s[..2][0] == s[0] && s[..2][1] == s[1];
  }

  function Encode(ms: seq<Message>): seq<Byte> {
    if ms == [] then [] else Bytes(ms[0]) + Encode(ms[1..])
  }

  /** The receiver's calls, in the order of the sender's: one `read_8` or `read_2` per message, as
      long as the bytes for it have arrived. */
  function Decode(calls: seq<Message>, s: seq<Byte>): seq<Message> {
    if calls == [] then []
    else if calls[0].U64? then if |s| < 8 then [] else [U64(Read8(s))] + Decode(calls[1..], s[8..])
    else if |s| < 2 then [] else [U16(Read2(s))] + Decode(calls[1..], s[2..])
  }

  /** Of any prefix of an encoded stream, the receiver reads a prefix of the messages. */
  lemma {:induction false} DecodePrefix(ms: seq<Message>, n: nat)
    requires n <= |Encode(ms)|
    ensures Decode(ms, Encode(ms)[..n]) <= ms
    ensures n == |Encode(ms)| ==> Decode(ms, Encode(ms)[..n]) == ms
  {
    if ms == [] {
    } else {
      var s, head, rest := Encode(ms)[..n], Bytes(ms[0]), Encode(ms[1..]);
      var k := |head|;
      if n >= k {
        assert s[..k] == head && s[k..] == rest[..n - k];
        DecodeFirst(ms, s, k);
        DecodePrefix(ms[1..], n - k);
      }
    }
  }

  /** When the bytes of the first message have arrived, the first call reads it. */
  lemma DecodeFirst(ms: seq<Message>, s: seq<Byte>, k: nat)
    requires ms != [] && k == |Bytes(ms[0])| <= |s| && s[..k] == Bytes(ms[0])
    ensures Decode(ms, s) == [ms[0]] + Decode(ms[1..], s[k..])
  {
    if ms[0].U64? { Read8OfBytes(ms[0].x, s); } else { Read2OfBytes(ms[0].y, s); }
  }

  /** End to end: in every interleaving the receiver's reads return a prefix of the integers sent,
      and all of them once every byte has arrived. */
  lemma ValuesArrive(ms: seq<Message>, actions: seq<Action>)
    ensures var s := Run(Init(), Encode(ms), actions);
            && Decode(ms, s.received) <= ms
            && (|s.received| == |Encode(ms)| ==> Decode(ms, s.received) == ms)
  {
    var s := Run(Init(), Encode(ms), actions);
    ReceivedIsPrefix(Encode(ms), actions);
    DecodePrefix(ms, |s.received|);
  }
}
