/** The reply to an ICMP echo request: addresses swapped, type cleared, both checksums renewed. */
module IcmpEcho {
  import opened Wrappers
  import opened Bytes
  import opened Checksum

  type Packet = seq<byte>

  function HeaderLength(p: Packet): nat
    requires |p| > 0
  {
    p[0] % 16 * 4
  }

  predicate IsEchoRequest(p: Packet) {
    && |p| >= 28
    && |p| >= HeaderLength(p) + 8
    && p[9] == 1
    && p[HeaderLength(p)] == 8 && p[HeaderLength(p) + 1] == 0
  }

  function SwapAddresses(p: Packet): (r: Packet)
    requires |p| >= 20
    ensures |r| == |p| && r[12..16] == p[16..20] && r[16..20] == p[12..16]
    ensures forall i :: 0 <= i < |p| && !(12 <= i < 20) ==> r[i] == p[i]
  {
    p[..12] + p[16..20] + p[12..16] + p[20..]
  }

  /** Renew the checksum at `at` over the bytes `from .. to`. */
  function Renewed(p: Packet, from: nat, to: nat, at: nat): Packet
    requires from <= to <= |p| && at + 2 <= |p|
  {
    Put16(p, at, ChecksumOf(Put16(p, at, 0)[from..to]))
  }

  function EchoReply(p: Packet): Option<Packet> {
    if !IsEchoRequest(p) then None
    else
      var ihl := HeaderLength(p);
      var cleared := SwapAddresses(p)[ihl := 0];
      Some(Renewed(Renewed(cleared, ihl, |p|, ihl + 2), 0, ihl, 10))
  }

  /** A checksum renewed inside the bytes it covers, at an even distance, makes them verify. */
  lemma RenewedVerifies(p: Packet, from: nat, to: nat, at: nat)
    requires from <= at && at + 2 <= to <= |p| && (at - from) % 2 == 0
    ensures Verifies(Renewed(p, from, to, at)[from..to])
  {
    var c := ChecksumOf(Put16(p, at, 0)[from..to]);
    PutInSlice(p, from, to, at, 0);
    PutInSlice(p, from, to, at, c);
    StoredChecksumVerifies(p[from..to], at - from, Put16(p, at, 0)[from..to], Put16(p, at, c)[from..to]);
  }

  lemma PutInSlice(p: Packet, from: nat, to: nat, at: nat, w: u16)
    requires from <= at && at + 2 <= to <= |p|
    ensures Put16(p, at, w)[from..to] == Put16(p[from..to], at - from, w)
  {
  }

  lemma PutOutsideSlice(p: Packet, from: nat, to: nat, at: nat, w: u16)
    requires from <= to <= |p| && at + 2 <= |p| && (at + 2 <= from || to <= at)
    ensures Put16(p, at, w)[from..to] == p[from..to]
  {
  }

  /** Both checksums of a reply verify whenever the header reaches past its own checksum field. */
  lemma LongHeaderVerifies(p: Packet)
    requires IsEchoRequest(p) && HeaderLength(p) >= 12
    ensures var r := EchoReply(p).value;
      Verifies(r[..HeaderLength(p)]) && Verifies(r[HeaderLength(p)..])
  {
    var ihl := HeaderLength(p);
    var cleared := SwapAddresses(p)[ihl := 0];
    var renewed := Renewed(cleared, ihl, |p|, ihl + 2);
    var r := Renewed(renewed, 0, ihl, 10);
    RenewedVerifies(cleared, ihl, |p|, ihl + 2);
    RenewedVerifies(renewed, 0, ihl, 10);
    PutOutsideSlice(renewed, ihl, |p|, 10, ChecksumOf(Put16(renewed, 10, 0)[0..ihl]));
    assert r[ihl..] == r[ihl..|p|] && r[..ihl] == r[0..ihl];
  }

  /** An echo request has a header of 4 bytes, or of 12 and more: 0 and 8 clash with the tests on its bytes. */
  lemma HeaderLengths(p: Packet)
    requires IsEchoRequest(p)
    ensures HeaderLength(p) == 4 || HeaderLength(p) >= 12
  {
    assert HeaderLength(p) == 4 * (p[0] % 16);
  }

  /** What is left of a checksum once one of the words it covers is overwritten. */
  lemma OverwrittenVerifies(data: seq<byte>, at: nat, w: u16)
    requires at + 2 <= |data| && at % 2 == 0 && Verifies(data) && WordSum(Put16(data, at, 0)) > 0
    ensures Verifies(Put16(data, at, w)) <==> w % 65535 == Word(data[at], data[at+1]) % 65535
  {
    var v := Word(data[at], data[at+1]);
    WordTakenOut(data, at, v);
    StoredWordAdds(data, at, w);
    VerifiesExactly(data);
    VerifiesExactly(Put16(data, at, w));
    SameResidue(WordSum(Put16(data, at, 0)), v, w);
  }

  lemma WordTakenOut(data: seq<byte>, at: nat, v: u16)
    requires at + 2 <= |data| && at % 2 == 0 && v == Word(data[at], data[at+1])
    ensures WordSum(data) == WordSum(Put16(data, at, 0)) + v
  {
    assert v / 256 == data[at] && v % 256 == data[at+1];
    assert Put16(data, at, v) == data;
    StoredWordAdds(data, at, v);
  }

  lemma SameResidue(rest: nat, v: nat, w: nat)
    requires (rest + v) % 65535 == 0
    ensures (rest + w) % 65535 == 0 <==> w % 65535 == v % 65535
  {
  }

  /**
   With a header of 4 bytes the header checksum goes to bytes 10 and 11, outside the header: the header
   of the reply verifies exactly when that of the request did, and the ICMP part exactly when the new
   word equals the old one there as a one's-complement number.
   */
  lemma ShortHeaderVerifiesExactly(p: Packet)
    requires IsEchoRequest(p) && HeaderLength(p) < 12
    ensures HeaderLength(p) == 4
    ensures var r := EchoReply(p).value;
      && (Verifies(r[..4]) <==> Verifies(p[..4]))
      && (Verifies(r[4..]) <==> ChecksumOf(p[..4]) % 65535 == Word(p[10], p[11]) % 65535)
  {
    HeaderLengths(p);
    var cleared := SwapAddresses(p)[4 := 0];
    var renewed := Renewed(cleared, 4, |p|, 6);
    var c := ChecksumOf(Put16(renewed, 10, 0)[0..4]);
    RenewedVerifies(cleared, 4, |p|, 6);
    assert Put16(renewed, 10, 0)[0..4] == p[..4];
    PutInSlice(renewed, 4, |p|, 10, c);
    assert EchoReply(p).value[4..] == Put16(renewed, 10, c)[4..|p|];
    assert EchoReply(p).value[..4] == p[..4];
    var icmp := renewed[4..|p|];
    assert icmp[6] == p[10] && icmp[7] == p[11] && Put16(icmp, 6, 0)[5] == p[9];
    SumIsPositive(Put16(icmp, 6, 0), 5);
    OverwrittenVerifies(icmp, 6, c);
  }

  /**
   Both checksums of the reply to any request verify, except for a header of 4 bytes, which the code
   does not refuse: there each part verifies exactly under the condition given.
   */
  lemma ReplyVerifies(p: Packet)
    requires IsEchoRequest(p)
    ensures var r, ihl := EchoReply(p).value, HeaderLength(p);
      && (Verifies(r[..ihl]) <==> ihl >= 12 || Verifies(p[..4]))
      && (Verifies(r[ihl..]) <==> ihl >= 12 || ChecksumOf(p[..4]) % 65535 == Word(p[10], p[11]) % 65535)
  {
    if HeaderLength(p) >= 12 { LongHeaderVerifies(p); } else { ShortHeaderVerifiesExactly(p); }
  }

  /** Which packets are answered: ICMP echo requests of at least 28 bytes that hold header and ICMP header. */
  lemma AnsweredExactly(p: Packet)
    ensures EchoReply(p).Some? <==> |p| >= 28 && var ihl := 4 * (p[0] % 16);
      && |p| >= ihl + 8 && p[9] == 1 && p[ihl] == 8 && p[ihl + 1] == 0
  {
    if |p| >= 28 { assert HeaderLength(p) == 4 * (p[0] % 16); }
  }

  /** A request of 28 bytes that declares a header of 4. */
  function ShortRequest(): Packet {
    [0x41, 0, 0, 0, 8, 0, 0, 0, 0, 1, 0, 0] + seq(16, _ => 0)
  }

  lemma ShortHeaderSum(header: seq<byte>)
    requires header == [0x41, 0, 0, 0]
    ensures WordSum(header) == 0x4100
  {
    assert header[2..] == [0, 0] && header[2..][2..] == [];
    assert WordSum(header[2..]) == 0;
  }

  lemma ShortRequestIsRequest(p: Packet)
    requires p == ShortRequest()
    ensures |p| == 28 && p[..4] == [0x41, 0, 0, 0] && p[10] == 0 && p[11] == 0
    ensures IsEchoRequest(p) && HeaderLength(p) == 4
  {
  }

  lemma FoldedAlready(sum: nat)
    requires sum < 0xFFFF
    ensures Fold(sum) == sum
  {
  }

  /** It is answered, and neither part of the reply verifies. */
  lemma ShortRequestFails(p: Packet)
    requires p == ShortRequest()
    ensures IsEchoRequest(p) && HeaderLength(p) == 4
    ensures !Verifies(EchoReply(p).value[..4]) && !Verifies(EchoReply(p).value[4..])
  {
    ShortRequestIsRequest(p);
    ShortHeaderSum(p[..4]);
    FoldedAlready(0x4100);
    ShortHeaderVerifiesExactly(p);
  }

  lemma {:induction false} SumIsPositive(data: seq<byte>, i: nat)
    requires i < |data| && data[i] > 0
    ensures WordSum(data) > 0
    decreases |data|
  {
    if i >= 2 { SumIsPositive(data[2..], i - 2); }
  }

  /**
   For every header length the reply is the request with the eight bytes of the two addresses swapped,
   the type cleared, and nothing else changed but the two checksum fields.
   */
  lemma ReplyMirrorsRequest(p: Packet)
    requires IsEchoRequest(p)
    ensures var r, ihl, swapped := EchoReply(p).value, HeaderLength(p), SwapAddresses(p);
      && |r| == |p| && r[ihl] == 0
      && forall i :: 0 <= i < |p| && i !in {10, 11, ihl, ihl + 2, ihl + 3} ==> r[i] == swapped[i]
    ensures var r := EchoReply(p).value;
      HeaderLength(p) >= 20 ==> r[12..16] == p[16..20] && r[16..20] == p[12..16]
  {
    HeaderLengths(p);
    var r := EchoReply(p).value;
    if HeaderLength(p) >= 20 {
      assert r[12..20] == SwapAddresses(p)[12..20];
      assert r[12..16] == r[12..20][..4] && r[16..20] == r[12..20][4..];
      assert SwapAddresses(p)[12..16] == SwapAddresses(p)[12..20][..4];
      assert SwapAddresses(p)[16..20] == SwapAddresses(p)[12..20][4..];
    }
  }

  method ChecksumBytes(data: seq<byte>) returns (checksum: u16)
    requires |data| <= 131074
    ensures checksum == ChecksumOf(data)
  {
    var sum := OnesComplementSum(data);
    checksum := FoldChecksum(sum);
  }

  /** Build the reply in a copy of the packet. */
  method IcmpEchoReply(packet: Packet) returns (result: Option<Packet>)
    requires |packet| <= 131074
    ensures result == EchoReply(packet)
  {
    if |packet| < 28 {
      return None;
    }
    var ihl: nat := packet[0] % 16 * 4;
    if |packet| < ihl + 8 {
      return None;
    }
    if packet[9] != 1 {
      return None;
    }
    if packet[ihl] != 8 || packet[ihl + 1] != 0 {
      return None;
    }
    var reply := new byte[|packet|](i requires 0 <= i < |packet| => packet[i]);
    assert reply[..] == packet;
    SwapInPlace(reply);
    reply[ihl] := 0;
    ghost var cleared := reply[..];
    assert cleared == SwapAddresses(packet)[ihl := 0];
    RenewInPlace(reply, ihl, reply.Length, ihl + 2);
    RenewInPlace(reply, 0, ihl, 10);
    return Some(reply[..]);
  }

  /** Exchange source and destination address, byte by byte. */
  method SwapInPlace(reply: array<byte>)
    requires reply.Length >= 20
    modifies reply
    ensures reply[..] == SwapAddresses(old(reply[..]))
  {
    for i := 0 to 4
      invariant forall j :: 12 <= j < 12 + i ==> reply[j] == old(reply[j + 4])
      invariant forall j :: 16 <= j < 16 + i ==> reply[j] == old(reply[j - 4])
      invariant forall j :: 0 <= j < reply.Length && !(12 <= j < 12 + i) && !(16 <= j < 16 + i) ==>
        reply[j] == old(reply[j])
    {
      reply[12 + i], reply[16 + i] := reply[16 + i], reply[12 + i];
    }
    ghost var swapped := SwapAddresses(old(reply[..]));
    forall j | 12 <= j < 20 ensures reply[j] == swapped[j] {
      if j < 16 { assert swapped[j] == swapped[12..16][j - 12]; } else { assert swapped[j] == swapped[16..20][j - 16]; }
    }
  }

  method RenewInPlace(reply: array<byte>, from: nat, to: nat, at: nat)
    requires from <= to <= reply.Length <= 131074 && at + 2 <= reply.Length
    modifies reply
    ensures reply[..] == Renewed(old(reply[..]), from, to, at)
  {
    reply[at] := 0;
    reply[at + 1] := 0;
    ghost var zeroed := reply[..];
    assert zeroed == Put16(old(reply[..]), at, 0);
    assert reply[from..to] == zeroed[from..to];
    var checksum := ChecksumBytes(reply[from..to]);
    reply[at] := checksum / 256;
    reply[at + 1] := checksum % 256;
    assert reply[..] == Put16(old(reply[..]), at, checksum);
  }
}
