/**
 * One iteration of a `bmFpcap*` benchmark (src/packet_reading.cpp:27-45):
 * open a reader, pull packets until the reader is exhausted, checksum each
 * packet that was produced, count them, and abort unless the count is the
 * number of packets in the trace file. The capture reader belongs to an
 * external library; here it replays a given sequence of outcomes of its
 * `nextPacket` calls.
 */
module PacketLoop {
  import opened ByteSum

  /** Packets in the trace files the benchmarks read (src/packet_reading.cpp:14). */
  const EXPECTED_PACKETS: uint64 := 4631

  /** Captured bytes of a packet; the reader reports their count as a 32-bit value. */
  type Capture = s: seq<uint8> | |s| < 0x1_0000_0000

  /** The outcome of one `nextPacket` call: whether it produced a packet, and that packet's bytes. */
  datatype Attempt = Attempt(produced: bool, bytes: Capture)

  /** How many of the calls produced a packet. */
  function PacketCount(attempts: seq<Attempt>): nat
  {
    if attempts == [] then 0
    else PacketCount(attempts[..|attempts| - 1]) + if attempts[|attempts| - 1].produced then 1 else 0
  }

  /** The sum of all bytes of the packets the calls produced, without wrap-around. */
  function BytesTotal(attempts: seq<Attempt>): nat
  {
    if attempts == [] then 0
    else
      var last := attempts[|attempts| - 1];
      BytesTotal(attempts[..|attempts| - 1]) + if last.produced then Sum(last.bytes) else 0
  }

  /** `fpcap::Packet`: the buffer the reader fills and how many of its bytes were captured. */
  class Packet {
    var data: array<uint8>
    var captureLength: uint32

    ghost predicate Valid()
      reads this
    {
      captureLength <= data.Length
    }

    constructor()
      ensures Valid() && captureLength == 0
    {
      data := new uint8[0];
      captureLength := 0;
    }
  }

  /** A reader that replays `attempts`, one per `nextPacket` call. */
  class PacketReader {
    const attempts: seq<Attempt>
    var position: nat

    ghost predicate Valid()
      reads this
    {
      position <= |attempts|
    }

    constructor(attempts: seq<Attempt>)
      ensures Valid() && this.attempts == attempts && position == 0
    {
      this.attempts := attempts;
      position := 0;
    }

    /** `isExhausted()`: every outcome has been delivered. */
    predicate IsExhausted()
      requires Valid()
      reads this
    {
      position == |attempts|
    }

    /**
     * `nextPacket(packet)`: consumes the next outcome; when it produced a
     * packet, `packet` now holds that packet's bytes, otherwise `packet` is
     * left as it was. On an exhausted reader nothing changes.
     */
    method NextPacket(packet: Packet) returns (produced: bool)
      requires Valid()
      modifies this, packet
      ensures Valid()
      ensures position == if old(position) < |attempts| then old(position) + 1 else old(position)
      ensures produced <==> old(position) < |attempts| && attempts[old(position)].produced
      ensures produced ==>
        fresh(packet.data) && packet.data[..] == attempts[old(position)].bytes &&
        packet.captureLength == |attempts[old(position)].bytes|
      ensures !produced ==> packet.data == old(packet.data) && packet.captureLength == old(packet.captureLength)
    {
      if position == |attempts| {
        return false;
      }
      var attempt := attempts[position];
      position := position + 1;
      produced := attempt.produced;
      if produced {
        var bytes := attempt.bytes;
        var buffer := new uint8[|bytes|](i => if 0 <= i < |bytes| then bytes[i] else 0);
        packet.data := buffer;
        packet.captureLength := |bytes|;
      }
    }
  }

  /** How an iteration ends: it goes on with its totals, or aborts reporting the count it got. */
  datatype Verdict = Passed(packetCount: uint64, bytesTotal: uint64) | Aborted(packetCount: uint64)

  /** `(a % 2^64 + b % 2^64) % 2^64 == (a + b) % 2^64`. */
  lemma ModAddBoth(a: nat, b: nat)
    ensures (a % TWO_TO_THE_64 + b % TWO_TO_THE_64) % TWO_TO_THE_64 == (a + b) % TWO_TO_THE_64
  {
    ModAdd(a, b % TWO_TO_THE_64);
    ModAdd(b, a);
  }

  /** The counters after one more outcome. */
  lemma Snoc(attempts: seq<Attempt>, i: nat)
    requires i < |attempts|
    ensures PacketCount(attempts[..i + 1]) ==
      PacketCount(attempts[..i]) + if attempts[i].produced then 1 else 0
    ensures BytesTotal(attempts[..i + 1]) ==
      BytesTotal(attempts[..i]) + if attempts[i].produced then Sum(attempts[i].bytes) else 0
  {
    assert attempts[..i + 1][..i] == attempts[..i];
  }

  /**
   * The loop body shared by the `bmFpcap*` benchmarks: `packetCount` and
   * `bytesTotal` are `uint64_t`, so both are taken modulo 2^64.
   */
  method RunIteration(attempts: seq<Attempt>) returns (verdict: Verdict)
    ensures verdict.packetCount == PacketCount(attempts) % TWO_TO_THE_64
    ensures verdict.Passed? <==> PacketCount(attempts) % TWO_TO_THE_64 == EXPECTED_PACKETS
    ensures verdict.Passed? ==> verdict.bytesTotal == BytesTotal(attempts) % TWO_TO_THE_64
  {
    var reader := new PacketReader(attempts);
    var bytesTotal: uint64 := 0;
    var packetCount: uint64 := 0;
    var packet := new Packet();
    while !reader.IsExhausted()
      invariant reader.Valid() && packet.Valid() && reader.attempts == attempts
      invariant packetCount == PacketCount(attempts[..reader.position]) % TWO_TO_THE_64
      invariant bytesTotal == BytesTotal(attempts[..reader.position]) % TWO_TO_THE_64
      decreases |attempts| - reader.position
    {
      ghost var i := reader.position;
      Snoc(attempts, i);
      var produced := reader.NextPacket(packet);
      if produced {
        var sum := BytesSum(packet.data, packet.captureLength);
        assert packet.data[..packet.captureLength] == attempts[i].bytes;
        ModAddBoth(BytesTotal(attempts[..i]), Sum(attempts[i].bytes));
        bytesTotal := (bytesTotal + sum) % TWO_TO_THE_64;
        ModAdd(PacketCount(attempts[..i]), 1);
        packetCount := (packetCount + 1) % TWO_TO_THE_64;
      }
    }
    assert attempts[..reader.position] == attempts;
    if packetCount != EXPECTED_PACKETS {
      return Aborted(packetCount);
    }
    return Passed(packetCount, bytesTotal);
  }

  /** At most one packet per call. */
  lemma {:induction false} PacketCountBound(attempts: seq<Attempt>)
    ensures PacketCount(attempts) <= |attempts|
  {
    if attempts != [] {
      PacketCountBound(attempts[..|attempts| - 1]);
    }
  }

  /**
   * With fewer than 2^64 calls the counter cannot wrap around, so an
   * iteration passes exactly when 4631 calls produced a packet.
   */
  lemma PassesIffExpectedCount(attempts: seq<Attempt>)
    requires |attempts| < TWO_TO_THE_64
    ensures PacketCount(attempts) % TWO_TO_THE_64 == EXPECTED_PACKETS <==> PacketCount(attempts) == 4631
  {
    PacketCountBound(attempts);
  }

  /** Counts and byte totals add up over consecutive runs of calls. */
  lemma {:induction false} TotalsAppend(a: seq<Attempt>, b: seq<Attempt>)
    ensures PacketCount(a + b) == PacketCount(a) + PacketCount(b)
    ensures BytesTotal(a + b) == BytesTotal(a) + BytesTotal(b)
  {
    if b == [] {
      assert a + b == a;
    } else {
      var b' := b[..|b| - 1];
      assert (a + b)[..|a + b| - 1] == a + b';
      assert (a + b)[|a + b| - 1] == b[|b| - 1];
      TotalsAppend(a, b');
    }
  }

  /** A call that produced no packet counts nothing and adds no bytes, wherever it happens. */
  lemma FailedCallContributesNothing(a: seq<Attempt>, failed: Attempt, b: seq<Attempt>)
    requires !failed.produced
    ensures PacketCount(a + [failed] + b) == PacketCount(a + b)
    ensures BytesTotal(a + [failed] + b) == BytesTotal(a + b)
  {
    TotalsAppend(a + [failed], b);
    TotalsAppend(a, [failed]);
    TotalsAppend(a, b);
    assert [failed][..0] == [];
  }

  /** Each produced packet adds at most 255 per captured byte. */
  lemma {:induction false} BytesTotalBound(attempts: seq<Attempt>, maxLength: nat)
    requires forall i :: 0 <= i < |attempts| ==> |attempts[i].bytes| <= maxLength
    ensures BytesTotal(attempts) <= 255 * maxLength * PacketCount(attempts)
  {
    if attempts != [] {
      var p := attempts[..|attempts| - 1];
      var last := attempts[|attempts| - 1];
      var m := 255 * maxLength;
      assert forall i :: 0 <= i < |p| ==> p[i] == attempts[i];
      BytesTotalBound(p, maxLength);
      SumBound(last.bytes);
      assert 255 * |last.bytes| <= m;
      assert m * (PacketCount(p) + 1) == m * PacketCount(p) + m;
    }
  }
}
