/**
 * The continuous multicast sender: a triangle-wave state machine over
 * (setpoint, direction) that, once per round, sends the current setpoint to
 * every configured device address and then moves one step, turning at the
 * limits. All its values are integers, so the arithmetic here is exact.
 */
module Sweep {
  import opened Wrappers
  import opened Bytes
  import opened Float32
  import opened FastPacket

  const Step: int := 1
  const MaxSetpoint: int := 5
  const MinSetpoint: int := -5

  /** Rounds after which the sweep is back at its initial state. */
  const Period: nat := 20

  /** The device addresses the script is configured with. */
  const FastAddresses: seq<int> := [1001, 1002]

  datatype State = State(setpoint: int, direction: int)

  /** Setpoint 0, increasing. */
  const Initial: State := State(0, 1)

  predicate ValidDirection(d: int) { d == 1 || d == -1 }

  /** min(max(x, min_setpoint), max_setpoint). */
  function Clamp(x: int): (r: int)
    ensures MinSetpoint <= r <= MaxSetpoint
    ensures MinSetpoint <= x <= MaxSetpoint ==> r == x
    ensures x < MinSetpoint ==> r == MinSetpoint
    ensures x > MaxSetpoint ==> r == MaxSetpoint
  {
    var lower := if x > MinSetpoint then x else MinSetpoint;
    if lower < MaxSetpoint then lower else MaxSetpoint
  }

  /**
   * One round's update: turn when the setpoint has reached the limit it was
   * heading for, then step in the (new) direction and clamp.
   */
  function Next(s: State): (r: State)
    ensures ValidDirection(s.direction) ==> ValidDirection(r.direction)
    ensures r.direction != s.direction <==>
      (s.direction == 1 && s.setpoint >= MaxSetpoint) || (s.direction == -1 && s.setpoint <= MinSetpoint)
    ensures ValidDirection(s.direction) && r.direction != s.direction ==> r.direction == -s.direction
    ensures r.setpoint == Clamp(s.setpoint + r.direction * Step)
    ensures MinSetpoint <= r.setpoint <= MaxSetpoint
  {
    var direction :=
      if s.direction == 1 && s.setpoint >= MaxSetpoint then -1
      else if s.direction == -1 && s.setpoint <= MinSetpoint then 1
      else s.direction;
    State(Clamp(s.setpoint + direction * Step), direction)
  }

  /** The state at the start of round k. */
  function Iterate(k: nat): State
  {
    if k == 0 then Initial else Next(Iterate(k - 1))
  }

  /* ---------- Independent description: a period-20 triangle wave ---------- */

  /** 0, 1, ..., 5, 4, ..., -5, -4, ..., -1, then again from 0. */
  function Triangle(k: nat): (v: int)
    ensures MinSetpoint <= v <= MaxSetpoint
  {
    var t := k % Period;
    if t <= 5 then t else if t <= 15 then 10 - t else t - 20
  }

  /** Increasing on the rising flanks, decreasing on the falling one. */
  function DirectionAt(k: nat): (d: int)
    ensures ValidDirection(d)
  {
    var t := k % Period;
    if 6 <= t <= 15 then -1 else 1
  }

  lemma PhaseStep(k: nat)
    ensures (k + 1) % Period == if k % Period == Period - 1 then 0 else k % Period + 1
  {
  }

  /** One round of Next moves the wave by one sample. */
  lemma NextFollowsTriangle(k: nat)
    ensures Next(State(Triangle(k), DirectionAt(k))) == State(Triangle(k + 1), DirectionAt(k + 1))
  {
    PhaseStep(k);
  }

  /** The state machine, started from Initial, is exactly the triangle wave. */
  lemma {:induction false} SweepIsTriangle(k: nat)
    ensures Iterate(k) == State(Triangle(k), DirectionAt(k))
  {
    if k > 0 {
      var j := k - 1;
      SweepIsTriangle(j);
      assert Iterate(k) == Next(Iterate(j));
      NextFollowsTriangle(j);
    }
  }

  /** Every reachable state has a setpoint in [-5, 5] and a direction of 1 or -1. */
  lemma ReachableStates(k: nat)
    ensures MinSetpoint <= Iterate(k).setpoint <= MaxSetpoint
    ensures ValidDirection(Iterate(k).direction)
  {
    SweepIsTriangle(k);
  }

  /** The sweep repeats every 20 rounds. */
  lemma SweepPeriodic(k: nat)
    ensures Iterate(k + Period) == Iterate(k)
  {
    var j := k + Period;
    assert j % Period == k % Period;
    SweepIsTriangle(k);
    SweepIsTriangle(j);
  }

  /**
   * The turning points of the first period: the sweep climbs to 5 by round 5,
   * falls to -5 by round 15 and is back at the start in round 20.
   */
  lemma TurningPoints()
    ensures Iterate(5) == State(MaxSetpoint, 1)
    ensures Iterate(6) == State(4, -1)
    ensures Iterate(15) == State(MinSetpoint, -1)
    ensures Iterate(16) == State(-4, 1)
    ensures Iterate(20) == Initial
  {
    SweepIsTriangle(5);
    SweepIsTriangle(6);
    SweepIsTriangle(15);
    SweepIsTriangle(16);
    SweepIsTriangle(20);
  }

  /* ---------- The packets ---------- */

  predicate AllUShort(addresses: seq<int>)
  {
    forall i | 0 <= i < |addresses| :: IsUShort(addresses[i])
  }

  /**
   * [(addr, float(round(setpoint, 4))) for addr in fast_addresses]: every
   * address with the same setpoint, whose binary32 pattern denotes it exactly.
   */
  function SweepDevices(addresses: seq<int>, setpoint: int): (ds: seq<Device>)
    requires -ExactIntBound < setpoint < ExactIntBound
    ensures |ds| == |addresses|
    ensures forall i | 0 <= i < |ds| :: ds[i].address == addresses[i]
    ensures forall i | 0 <= i < |ds| :: Value(ds[i].setpoint) == Some(setpoint as real)
    ensures AddressesFit(ds) <==> AllUShort(addresses)
  {
    FromIntDenotes(setpoint);
    seq(|addresses|, i requires 0 <= i < |addresses| => Device(addresses[i], FromInt(setpoint)))
  }

  /** The packet sent in round k, built with the k-th clock reading. */
  function RoundPacket(addresses: seq<int>, k: nat, timeNs: int): Result<seq<byte>, PackError>
  {
    EncodePacket(DefaultCommand, Nonce(timeNs), SweepDevices(addresses, Triangle(k)))
  }

  /**
   * What every device reads out of the round-k packet: 12 + 6n bytes, with
   * address i at offset 12 + 6i and, right after it, a binary32 pattern whose
   * value is the round's triangle-wave setpoint.
   */
  lemma RoundPacketContents(addresses: seq<int>, k: nat, timeNs: int, i: nat)
    requires RoundPacket(addresses, k, timeNs).Success?
    requires i < |addresses|
    ensures var b := RoundPacket(addresses, k, timeNs).value;
      && |b| == HeaderSize + RecordSize * |addresses|
      && b[..4] == [0x76, 0x31, 0x00, 0x00]
      && FromBigEndian(b[4..HeaderSize]) == Nonce(timeNs)
      && FromBigEndian(b[HeaderSize + RecordSize * i..HeaderSize + RecordSize * i + 2]) == addresses[i]
      && Value(FromBigEndian(b[HeaderSize + RecordSize * i + 2..HeaderSize + RecordSize * i + 6]))
         == Some(Triangle(k) as real)
  {
    var ds := SweepDevices(addresses, Triangle(k));
    var b := RoundPacket(addresses, k, timeNs).value;
    PacketLayout(DefaultCommand, Nonce(timeNs), ds);
    DeviceAt(DefaultCommand, Nonce(timeNs), ds, i);
    assert b[..4] == [b[0], b[1], b[2], b[3]];
  }

  /**
   * The configured addresses 1001 and 1002 fit 16 bits, so every round's packet
   * is built and RunContinuous over them never fails.
   */
  lemma ConfiguredRoundsSucceed(k: nat, timeNs: int)
    ensures AllUShort(FastAddresses)
    ensures RoundPacket(FastAddresses, k, timeNs).Success?
  {
    var ds := SweepDevices(FastAddresses, Triangle(k));
    EncodeSucceedsIff(DefaultCommand, Nonce(timeNs), ds);
  }

  /** Recording the packet of the next round keeps every earlier round's packet in place. */
  lemma RoundSent(addresses: seq<int>, clock: nat -> int, sent: seq<seq<byte>>, packet: seq<byte>)
    requires forall j | 0 <= j < |sent| :: RoundPacket(addresses, j, clock(j)) == Success(sent[j])
    requires RoundPacket(addresses, |sent|, clock(|sent|)) == Success(packet)
    ensures forall j | 0 <= j < |sent| + 1 :: RoundPacket(addresses, j, clock(j)) == Success((sent + [packet])[j])
  {
  }

  /**
   * fast-interface-multicast-continuous.py, lines 47-69, for a given number of
   * rounds: each round builds the packet for the current setpoint with a fresh
   * clock reading (clock(k) is time_ns in round k), sends it, then turns at the limits, steps and clamps. A build
   * that raises ends the loop, as the error leaves main.
   */
  method RunContinuous(addresses: seq<int>, rounds: nat, clock: nat -> int)
    returns (sent: seq<seq<byte>>, failure: Option<PackError>)
    ensures |sent| <= rounds
    ensures failure.None? <==> |sent| == rounds
    ensures failure.Some? <==> rounds > 0 && !AllUShort(addresses)
    ensures forall k | 0 <= k < |sent| :: RoundPacket(addresses, k, clock(k)) == Success(sent[k])
    ensures failure.Some? ==> sent == [] && RoundPacket(addresses, 0, clock(0)) == Failure(failure.value)
  {
    var setpoint := 0;
    var direction := 1;
    sent := [];
    var k := 0;
    while k < rounds
      invariant 0 <= k <= rounds && |sent| == k
      invariant State(setpoint, direction) == Iterate(k)
      invariant forall j | 0 <= j < k :: RoundPacket(addresses, j, clock(j)) == Success(sent[j])
      invariant k > 0 ==> AllUShort(addresses)
    {
      SweepIsTriangle(k);
      ghost var before := State(setpoint, direction);
      var devices := SweepDevices(addresses, setpoint);
      EncodeSucceedsIff(DefaultCommand, Nonce(clock(k)), devices);
      var packet := BuildFastPacket(devices, clock(k));
      if packet.Failure? {
        return sent, Some(packet.error);
      }
      RoundSent(addresses, clock, sent, packet.value);
      sent := sent + [packet.value];

      if direction == 1 && setpoint >= MaxSetpoint {
        direction := -1;
      } else if direction == -1 && setpoint <= MinSetpoint {
        direction := 1;
      }
      setpoint := setpoint + direction * Step;
      setpoint := if setpoint > MinSetpoint then setpoint else MinSetpoint;
      setpoint := if setpoint < MaxSetpoint then setpoint else MaxSetpoint;
      assert State(setpoint, direction) == Next(before);
      assert Iterate(k + 1) == Next(Iterate(k));
      k := k + 1;
    }
    failure := None;
  }
}
