/**
 How encode_pes cuts a payload: how many packets it needs against the least possible number, and what the
 continuity counters of those packets are.
 */
module TsPacking {
  import opened Bytes
  import opened TsWire

  /** Payload bytes of a continuation packet without adaptation field. */
  const CAPACITY: nat := 184

  /** Room in the first packet when it needs no stuffing. */
  function FirstCapacity(m: Message, pcr: Option<int>): nat { PACKET_SIZE - FirstBase(m, pcr) }

  /** The reference: a way to cut `n` bytes into chunks that packets can carry. */
  predicate IsCut(chunks: seq<nat>, n: nat, first: nat) {
    chunks != [] && chunks[0] <= first && (forall i :: 0 < i < |chunks| ==> chunks[i] <= CAPACITY) && Sum(chunks) == n
  }

  function Sum(chunks: seq<nat>): nat { if chunks == [] then 0 else chunks[0] + Sum(chunks[1..]) }

  function LeastPackets(n: nat, first: nat): nat {
    if n <= first then 1 else 1 + (n - first + CAPACITY - 1) / CAPACITY
  }

  lemma {:induction false} SumBounded(chunks: seq<nat>)
    requires forall i :: 0 <= i < |chunks| ==> chunks[i] <= CAPACITY
    ensures Sum(chunks) <= CAPACITY * |chunks|
  {
    if chunks != [] { SumBounded(chunks[1..]); }
  }

  /** No cut uses fewer packets. */
  lemma LeastPacketsIsLeast(chunks: seq<nat>, n: nat, first: nat)
    requires IsCut(chunks, n, first)
    ensures |chunks| >= LeastPackets(n, first)
  {
    var rest := chunks[1..];
    assert forall i :: 0 <= i < |rest| ==> rest[i] == chunks[i + 1];
    SumBounded(rest);
  }

  /** Continuation chunks as large as they can be. */
  function FullChunks(n: nat): (chunks: seq<nat>) {
    if n == 0 then [] else [Min(n, CAPACITY)] + FullChunks(n - Min(n, CAPACITY))
  }

  lemma {:induction false} FullChunksFit(n: nat)
    ensures var c := FullChunks(n);
            Sum(c) == n && |c| == (n + CAPACITY - 1) / CAPACITY && forall i :: 0 <= i < |c| ==> c[i] <= CAPACITY
  {
    if n > 0 {
      var k := Min(n, CAPACITY);
      FullChunksFit(n - k);
      assert FullChunks(n)[1..] == FullChunks(n - k);
      assert n >= CAPACITY ==> (n + CAPACITY - 1) / CAPACITY == (n - CAPACITY + CAPACITY - 1) / CAPACITY + 1;
    }
  }

  function LeastCut(n: nat, first: nat): seq<nat> { [Min(n, first)] + FullChunks(n - Min(n, first)) }

  /** The least number is reached, for every length. */
  lemma LeastPacketsIsReached(n: nat, first: nat)
    ensures IsCut(LeastCut(n, first), n, first) && |LeastCut(n, first)| == LeastPackets(n, first)
  {
    var k := Min(n, first);
    FullChunksFit(n - k);
    assert LeastCut(n, first)[1..] == FullChunks(n - k);
  }

  /** A continuation packet with one byte too few for 184 gets a two-byte adaptation field and spills a byte. */
  predicate OneShort(rest: nat) { rest % CAPACITY == CAPACITY - 1 }

  lemma {:induction false} NextPacketCount(pid: int, cc: byte, rest: seq<byte>)
    ensures |NextPackets(pid, cc, rest)| == (|rest| + CAPACITY - 1) / CAPACITY + (if OneShort(|rest|) then 1 else 0)
    decreases |rest|
  {
    if rest != [] {
      PlanFillsPacket(4, false, |rest|);
      var left := NextPlan(|rest|).left;
      NextLeft(|rest|);
      NextPacketCount(pid, NextCc(cc), rest[left..]);
      hide NextPlan, NextPacket, NextCc, OneShort;
      CountSteps(|rest|);
    }
  }

  /** A continuation packet takes 184 bytes, all there are, or all but one. */
  lemma NextLeft(n: nat)
    requires n > 0
    ensures NextPlan(n).left == if n >= CAPACITY then CAPACITY else if n == CAPACITY - 1 then n - 1 else n
  {
  }

  lemma CountSteps(n: nat)
    requires n > 0
    ensures n >= CAPACITY ==> (n + CAPACITY - 1) / CAPACITY == (n - CAPACITY + CAPACITY - 1) / CAPACITY + 1
    ensures n >= CAPACITY ==> OneShort(n - CAPACITY) == OneShort(n)
    ensures n < CAPACITY ==> (n + CAPACITY - 1) / CAPACITY == 1 && OneShort(n) == (n == CAPACITY - 1)
    ensures (1 + CAPACITY - 1) / CAPACITY == 1 && (0 + CAPACITY - 1) / CAPACITY == 0 && !OneShort(1) && !OneShort(0)
  {
  }

  /** Whether some packet of the message would be one byte short without an adaptation field. */
  predicate Spills(m: Message, pcr: Option<int>) {
    var n, first := |m.payload|, FirstCapacity(m, pcr);
    if n <= first then n == first - 1 && pcr.None? else OneShort(n - first)
  }

  /** The packet count is the least possible, plus one exactly when a packet would be one byte short. */
  lemma MessagePacketCount(pid: int, cc: byte, m: Message, pcr: Option<int>)
    requires m.payload != []
    ensures |MessagePackets(pid, cc, m, pcr)|
         == LeastPackets(|m.payload|, FirstCapacity(m, pcr)) + (if Spills(m, pcr) then 1 else 0)
  {
    PlanFillsPacket(FirstBase(m, pcr), pcr.Some?, |m.payload|);
    var k := FirstPlan(m, pcr).left;
    NextPacketCount(pid, NextCc(cc), m.payload[k..]);
  }

  /** The counter nibble and the PID bits of a packet. */
  function CounterOf(packet: seq<byte>): int requires |packet| == PACKET_SIZE { packet[3] % 16 }

  function PidOf(packet: seq<byte>): int requires |packet| == PACKET_SIZE { Be16(packet[1], packet[2]) % 0x2000 }

  predicate StartsUnit(packet: seq<byte>) requires |packet| == PACKET_SIZE { packet[1] / 64 % 2 == 1 }

  lemma PacketHead(packet: seq<byte>, unitStart: bool, pid: int, control: int, cc: int)
    requires |packet| == PACKET_SIZE && 0 <= pid < 0x2000 && 0 <= control < 4
    requires packet[..4] == Header(unitStart, pid, control, cc)
    ensures CounterOf(packet) == cc % 16 && PidOf(packet) == pid && StartsUnit(packet) == unitStart
  {
    var h := Header(unitStart, pid, control, cc);
    assert packet[1] == h[1] && packet[2] == h[2] && packet[3] == h[3];
  }

  lemma NextPacketHead(pid: int, cc: byte, rest: seq<byte>)
    requires rest != [] && 0 <= pid < 0x2000
    ensures var p := NextPacket(pid, cc, rest);
            |p| == PACKET_SIZE && CounterOf(p) == cc % 16 && PidOf(p) == pid && !StartsUnit(p)
  {
    PlanFillsPacket(4, false, |rest|);
    var p, plan := NextPacket(pid, cc, rest), NextPlan(|rest|);
    assert p[..4] == Header(false, pid, Control(plan.hasAf), cc);
    PacketHead(p, false, pid, Control(plan.hasAf), cc);
  }

  lemma FirstPacketHead(pid: int, cc: byte, m: Message, pcr: Option<int>)
    requires m.payload != [] && 0 <= pid < 0x2000
    ensures var p := FirstPacket(pid, cc, m, pcr);
            |p| == PACKET_SIZE && CounterOf(p) == cc % 16 && PidOf(p) == pid && StartsUnit(p)
  {
    PlanFillsPacket(FirstBase(m, pcr), pcr.Some?, |m.payload|);
    var p, plan := FirstPacket(pid, cc, m, pcr), FirstPlan(m, pcr);
    assert p[..4] == Header(true, pid, Control(plan.hasAf), cc);
    PacketHead(p, true, pid, Control(plan.hasAf), cc);
  }

  lemma CounterSteps(cc: byte, i: nat)
    requires i > 0
    ensures (NextCc(cc) + (i - 1)) % 16 == (cc + i) % 16
  {
  }

  lemma PacketAt(pid: int, cc: byte, rest: seq<byte>, i: nat)
    requires i < |NextPackets(pid, cc, rest)|
    ensures rest != [] && 0 < NextPlan(|rest|).left <= |rest|
    ensures var tail := NextPackets(pid, NextCc(cc), rest[NextPlan(|rest|).left..]);
            && i <= |tail|
            && NextPackets(pid, cc, rest)[i] == if i == 0 then NextPacket(pid, cc, rest) else tail[i - 1]
  {
    PlanFillsPacket(4, false, |rest|);
    hide NextPacket, PlanPacket;
  }

  lemma {:induction false} NextCounters(pid: int, cc: byte, rest: seq<byte>, i: nat)
    requires 0 <= pid < 0x2000 && i < |NextPackets(pid, cc, rest)|
    ensures var p := NextPackets(pid, cc, rest)[i];
            CounterOf(p) == (cc + i) % 16 && PidOf(p) == pid && !StartsUnit(p)
    decreases i
  {
    PacketAt(pid, cc, rest, i);
    hide *;
    if i == 0 {
      NextPacketHead(pid, cc, rest);
    } else {
      NextCounters(pid, NextCc(cc), rest[NextPlan(|rest|).left..], i - 1);
      CounterSteps(cc, i);
    }
  }

  /** Across the packets of a message, one unit start and counters stepping by one modulo 16. */
  lemma MessageCounters(pid: int, cc: byte, m: Message, pcr: Option<int>, i: nat)
    requires m.payload != [] && 0 <= pid < 0x2000 && i < |MessagePackets(pid, cc, m, pcr)|
    ensures var p := MessagePackets(pid, cc, m, pcr)[i];
            CounterOf(p) == (cc + i) % 16 && PidOf(p) == pid && (StartsUnit(p) <==> i == 0)
  {
    PlanFillsPacket(FirstBase(m, pcr), pcr.Some?, |m.payload|);
    hide FirstPacket, NextPackets, CounterOf, PidOf, StartsUnit, NextCc;
    if i == 0 {
      FirstPacketHead(pid, cc, m, pcr);
    } else {
      NextCounters(pid, NextCc(cc), m.payload[FirstPlan(m, pcr).left..], i - 1);
      CounterSteps(cc, i);
    }
  }
}
