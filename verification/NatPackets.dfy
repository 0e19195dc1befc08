/**
 IPv6 packets as the gateway sees them: which flow a packet belongs to, and what rewriting
 an address and a port does to its bytes, including when the rewrite fails half-way.
 */
module NatPackets {
  import opened Wrappers
  import opened Bytes
  import opened Checksum
  import opened Conntrack

  const IPV6_HEADER_LEN: nat := 40

  datatype Error =
    | PacketTooShort(length: nat)
    | NotIpv6
    | UnsupportedProtocol(proto: nat)
    | NoConntrackEntry(proto: nat, port: nat)
    | ConntrackFull

  type Packet = seq<byte>

  datatype Flow = Flow(proto: byte, address: Ipv6, port: u16)

  /** Which end of the flow is rewritten: outbound the source, inbound the destination. */
  datatype End = Src | Dst

  // ---------------------------------------------------------------------
  // Parsing

  function NextHeader(p: Packet): Result<byte, Error> {
    if |p| < IPV6_HEADER_LEN then Err(PacketTooShort(|p|))
    else if p[0] / 16 != 6 then Err(NotIpv6)
    else Ok(p[6])
  }

  predicate HasPorts(proto: nat) {
    proto == PROTO_TCP || proto == PROTO_UDP
  }

  function AddressOffset(end: End): nat {
    if end == Src then 8 else 24
  }

  /** Where the port sits; echo packets carry one identifier for both ends. */
  function PortOffset(proto: nat, end: End): nat {
    if !HasPorts(proto) then 44 else if end == Src then 40 else 42
  }

  /** Why the port of a packet of protocol `proto` cannot be accessed, if it cannot. */
  function PortError(p: Packet, proto: nat): Option<Error> {
    if HasPorts(proto) then
      if |p| < IPV6_HEADER_LEN + 4 then Some(PacketTooShort(|p|)) else None
    else if proto == PROTO_ICMPV6 then
      if |p| < IPV6_HEADER_LEN + 8 then Some(PacketTooShort(|p|)) else None
    else Some(UnsupportedProtocol(proto))
  }

  function PortOf(p: Packet, proto: nat, end: End): Result<u16, Error> {
    match PortError(p, proto)
    case Some(e) => Err(e)
    case None =>
      var at := PortOffset(proto, end);
      Ok(Word(p[at], p[at+1]))
  }

  function AddressOf(p: Packet, end: End): Ipv6
    requires |p| >= IPV6_HEADER_LEN
  {
    p[AddressOffset(end)..AddressOffset(end) + 16]
  }

  function ParseFlow(p: Packet): Result<Flow, Error> {
    match NextHeader(p)
    case Err(e) => Err(e)
    case Ok(proto) =>
      match PortOf(p, proto, Src)
      case Err(e) => Err(e)
      case Ok(port) => Ok(Flow(proto, AddressOf(p, Src), port))
  }

  // ---------------------------------------------------------------------
  // Rewriting

  function PutAddress(p: Packet, end: End, address: Ipv6): (r: Packet)
    requires |p| >= IPV6_HEADER_LEN
    ensures |r| == |p| && AddressOf(r, end) == address
    ensures forall i :: 0 <= i < |p| && !(AddressOffset(end) <= i < AddressOffset(end) + 16) ==> r[i] == p[i]
  {
    p[..AddressOffset(end)] + address + p[AddressOffset(end) + 16..]
  }

  function ChecksumOffset(proto: nat): nat {
    IPV6_HEADER_LEN + if proto == PROTO_TCP then 16 else if proto == PROTO_UDP then 6 else 2
  }

  /** Pseudo-header and segment with the given length field. */
  function PseudoWith(p: Packet, length: seq<byte>, proto: byte): (r: seq<byte>)
    requires |p| >= IPV6_HEADER_LEN && |length| == 4
    ensures |r| == |p| && r[IPV6_HEADER_LEN..] == p[IPV6_HEADER_LEN..]
  {
    AddressOf(p, Src) + AddressOf(p, Dst) + length + [0, 0, 0, proto] + p[IPV6_HEADER_LEN..]
  }

  /** The upper-layer length of a packet of `n` bytes, cut to 32 bits. */
  function LengthField(n: nat): (r: seq<byte>)
    requires n >= IPV6_HEADER_LEN
    ensures |r| == 4
  {
    Be32((n - IPV6_HEADER_LEN) % 0x1_0000_0000)
  }

  /** The data the transport checksum covers (section 8.1 of RFC 8200). */
  function Pseudo(p: Packet, proto: byte): (r: seq<byte>)
    requires |p| >= IPV6_HEADER_LEN
  {
    PseudoWith(p, LengthField(|p|), proto)
  }

  function TransportChecksum(p: Packet, proto: byte): u16
    requires |p| >= ChecksumOffset(proto) + 2
  {
    ChecksumOf(Pseudo(Put16(p, ChecksumOffset(proto), 0), proto))
  }

  /** The outcome of a rewrite: an error if it failed, and the bytes it left behind either way. */
  datatype Rewrite = Rewrite(error: Option<Error>, packet: Packet)

  function Rewritten(p: Packet, end: End, address: Ipv6, port: u16): Rewrite {
    match NextHeader(p)
    case Err(e) => Rewrite(Some(e), p)
    case Ok(proto) =>
      var addressed := PutAddress(p, end, address);
      if PortError(p, proto).Some? then Rewrite(PortError(p, proto), addressed)
      else
        var ported := Put16(addressed, PortOffset(proto, end), port);
        if |p| < ChecksumOffset(proto) + 2 then Rewrite(Some(PacketTooShort(|p|)), ported)
        else Rewrite(None, Put16(ported, ChecksumOffset(proto), TransportChecksum(ported, proto)))
  }

  /** A rewrite succeeds exactly on IPv6 packets of a supported protocol that reach past their checksum. */
  predicate Rewritable(p: Packet) {
    && NextHeader(p).Ok?
    && PortError(p, NextHeader(p).value).None?
    && |p| >= ChecksumOffset(NextHeader(p).value) + 2
  }

  /** Byte positions a rewrite may change. */
  predicate Rewrites(proto: nat, end: End, i: nat) {
    || AddressOffset(end) <= i < AddressOffset(end) + 16
    || PortOffset(proto, end) <= i < PortOffset(proto, end) + 2
    || ChecksumOffset(proto) <= i < ChecksumOffset(proto) + 2
  }

  lemma PseudoOfPut(p: Packet, length: seq<byte>, proto: byte, at: nat, w: u16)
    requires IPV6_HEADER_LEN <= at && at + 2 <= |p| && |length| == 4
    ensures PseudoWith(Put16(p, at, w), length, proto) == Put16(PseudoWith(p, length, proto), at, w)
  {
    var q := Put16(p, at, w);
    assert AddressOf(q, Src) == AddressOf(p, Src) && AddressOf(q, Dst) == AddressOf(p, Dst);
    var a, b := PseudoWith(q, length, proto), Put16(PseudoWith(p, length, proto), at, w);
    forall i | 0 <= i < |p| ensures a[i] == b[i] {
      if i >= IPV6_HEADER_LEN {
        assert a[i] == a[IPV6_HEADER_LEN..][i - IPV6_HEADER_LEN] == q[i];
        assert PseudoWith(p, length, proto)[i] == p[IPV6_HEADER_LEN..][i - IPV6_HEADER_LEN];
      }
    }
  }

  lemma StoredInPseudoVerifies(p: Packet, length: seq<byte>, proto: byte, at: nat, c: u16)
    requires IPV6_HEADER_LEN <= at && at + 2 <= |p| && |length| == 4 && at % 2 == 0
    requires c == ChecksumOf(PseudoWith(Put16(p, at, 0), length, proto))
    ensures Verifies(PseudoWith(Put16(p, at, c), length, proto))
  {
    PseudoOfPut(p, length, proto, at, 0);
    PseudoOfPut(p, length, proto, at, c);
    StoredChecksumVerifies(PseudoWith(p, length, proto), at,
                           PseudoWith(Put16(p, at, 0), length, proto), PseudoWith(Put16(p, at, c), length, proto));
  }

  lemma ChecksumOffsetIsEven(proto: nat)
    ensures ChecksumOffset(proto) >= IPV6_HEADER_LEN && ChecksumOffset(proto) % 2 == 0
  {
  }

  /** Storing the transport checksum makes pseudo-header and segment verify. */
  lemma TransportChecksumVerifies(p: Packet, proto: byte)
    requires |p| >= ChecksumOffset(proto) + 2
    ensures Verifies(Pseudo(Put16(p, ChecksumOffset(proto), TransportChecksum(p, proto)), proto))
  {
    ChecksumOffsetIsEven(proto);
    var at, c := ChecksumOffset(proto), TransportChecksum(p, proto);
    assert |Put16(p, at, 0)| == |p| && |Put16(p, at, c)| == |p|;
    StoredInPseudoVerifies(p, LengthField(|p|), proto, at, c);
  }

  /** Address, port and checksum sit in different bytes, so each write survives the later ones. */
  lemma WritesAreSeparate(p: Packet, proto: byte, end: End, address: Ipv6, port: u16, c: u16)
    requires NextHeader(p) == Ok(proto) && PortError(p, proto).None? && |p| >= ChecksumOffset(proto) + 2
    ensures var q := Put16(Put16(PutAddress(p, end, address), PortOffset(proto, end), port), ChecksumOffset(proto), c);
      && |q| == |p| && NextHeader(q) == NextHeader(p)
      && AddressOf(q, end) == address && PortOf(q, proto, end) == Ok(port)
      && forall i :: 0 <= i < |p| && !Rewrites(proto, end, i) ==> q[i] == p[i]
  {
    var a := PutAddress(p, end, address);
    var q := Put16(Put16(a, PortOffset(proto, end), port), ChecksumOffset(proto), c);
    forall i | AddressOffset(end) <= i < AddressOffset(end) + 16 ensures q[i] == address[i - AddressOffset(end)] {
      assert a[i] == AddressOf(a, end)[i - AddressOffset(end)];
    }
  }

  /**
   A rewrite succeeds exactly on rewritable packets. It then installs the address and the port,
   leaves a checksum that verifies, and changes no other byte.
   */
  lemma RewriteIsCorrect(p: Packet, end: End, address: Ipv6, port: u16)
    ensures Rewritten(p, end, address, port).error.None? <==> Rewritable(p)
    ensures |Rewritten(p, end, address, port).packet| == |p|
    ensures Rewritable(p) ==>
      var q, proto := Rewritten(p, end, address, port).packet, NextHeader(p).value;
      && NextHeader(q) == NextHeader(p)
      && AddressOf(q, end) == address && PortOf(q, proto, end) == Ok(port)
      && Verifies(Pseudo(q, proto))
      && forall i :: 0 <= i < |p| && !Rewrites(proto, end, i) ==> q[i] == p[i]
  {
    if Rewritable(p) {
      var proto := NextHeader(p).value;
      var ported := Put16(PutAddress(p, end, address), PortOffset(proto, end), port);
      TransportChecksumVerifies(ported, proto);
      WritesAreSeparate(p, proto, end, address, port, TransportChecksum(ported, proto));
    }
  }

  // ---------------------------------------------------------------------
  // In place

  /** Why the checksum of a packet of `length` bytes cannot be stored, if it cannot. */
  function ChecksumError(length: nat, proto: byte): Option<Error> {
    if length < IPV6_HEADER_LEN then Some(PacketTooShort(length))
    else if !HasPorts(proto) && proto != PROTO_ICMPV6 then Some(UnsupportedProtocol(proto))
    else if length < ChecksumOffset(proto) + 2 then Some(PacketTooShort(length))
    else None
  }

  /** Zero the checksum field, sum pseudo-header and segment, and store the result. */
  method RecalculateChecksum(packet: array<byte>, proto: byte) returns (error: Option<Error>)
    requires packet.Length <= 131074
    modifies packet
    ensures error == ChecksumError(packet.Length, proto)
    ensures packet[..] == if error.Some? then old(packet[..])
                          else Put16(old(packet[..]), ChecksumOffset(proto), TransportChecksum(old(packet[..]), proto))
  {
    if packet.Length < IPV6_HEADER_LEN {
      return Some(PacketTooShort(packet.Length));
    }
    if proto != PROTO_TCP && proto != PROTO_UDP && proto != PROTO_ICMPV6 {
      return Some(UnsupportedProtocol(proto));
    }
    var at := IPV6_HEADER_LEN + if proto == PROTO_TCP then 16 else if proto == PROTO_UDP then 6 else 2;
    if packet.Length < at + 2 {
      return Some(PacketTooShort(packet.Length));
    }
    packet[at] := 0;
    packet[at + 1] := 0;
    ghost var zeroed := packet[..];
    assert zeroed == Put16(old(packet[..]), at, 0);
    var checksum := SegmentChecksum(packet, proto);
    packet[at] := checksum / 256;
    packet[at + 1] := checksum % 256;
    assert packet[..] == Put16(old(packet[..]), at, checksum);
    return None;
  }

  /** The checksum of pseudo-header and segment as they are. */
  method SegmentChecksum(packet: array<byte>, proto: byte) returns (checksum: u16)
    requires IPV6_HEADER_LEN <= packet.Length <= 131074
    ensures checksum == ChecksumOf(Pseudo(packet[..], proto))
  {
    var pseudo := PseudoBuffer(packet, proto);
    var sum := OnesComplementSum(pseudo);
    checksum := FoldChecksum(sum);
  }

  method PseudoBuffer(packet: array<byte>, proto: byte) returns (pseudo: seq<byte>)
    requires IPV6_HEADER_LEN <= packet.Length <= 131074
    ensures pseudo == Pseudo(packet[..], proto)
  {
    var length := LengthField(packet.Length);
    pseudo := packet[8..24] + packet[24..40] + length + [0, 0, 0, proto] + packet[IPV6_HEADER_LEN..];
    assert pseudo == PseudoWith(packet[..], length, proto);
  }

  method RewriteInPlace(packet: array<byte>, end: End, address: Ipv6, port: u16) returns (error: Option<Error>)
    requires packet.Length <= 131074
    modifies packet
    ensures Rewrite(error, packet[..]) == Rewritten(old(packet[..]), end, address, port)
  {
    if packet.Length < IPV6_HEADER_LEN {
      return Some(PacketTooShort(packet.Length));
    }
    if packet[0] / 16 != 6 {
      return Some(NotIpv6);
    }
    var proto := packet[6];
    var from := if end == Src then 8 else 24;
    forall i | from <= i < from + 16 {
      packet[i] := address[i - from];
    }
    assert packet[..] == PutAddress(old(packet[..]), end, address);
    var at: nat;
    if proto == PROTO_TCP || proto == PROTO_UDP {
      if packet.Length < IPV6_HEADER_LEN + 4 {
        return Some(PacketTooShort(packet.Length));
      }
      at := if end == Src then 40 else 42;
    } else if proto == PROTO_ICMPV6 {
      if packet.Length < IPV6_HEADER_LEN + 8 {
        return Some(PacketTooShort(packet.Length));
      }
      at := 44;
    } else {
      return Some(UnsupportedProtocol(proto));
    }
    packet[at] := port / 256;
    packet[at + 1] := port % 256;
    assert packet[..] == Put16(PutAddress(old(packet[..]), end, address), at, port);
    error := RecalculateChecksum(packet, proto);
  }

  // ---------------------------------------------------------------------
  // In byte positions

  /** What a packet must look like to have a flow, and where the flow is read from. */
  lemma FlowBytes(p: Packet)
    ensures ParseFlow(p)
         == if |p| < 40 then Err(PacketTooShort(|p|))
            else if p[0] / 16 != 6 then Err(NotIpv6)
            else if p[6] == 6 || p[6] == 17 then
              if |p| < 44 then Err(PacketTooShort(|p|))
              else Ok(Flow(p[6], p[8..24], 0x100 * (p[40] as nat) + p[41] as nat))
            else if p[6] == 58 then
              if |p| < 48 then Err(PacketTooShort(|p|))
              else Ok(Flow(p[6], p[8..24], 0x100 * (p[44] as nat) + p[45] as nat))
            else Err(UnsupportedProtocol(p[6]))
  {
  }

  /** Where the port of an inbound packet is read from. */
  lemma ReplyPortBytes(p: Packet)
    requires |p| >= 40
    ensures PortOf(p, p[6], Dst)
         == if p[6] == 6 || p[6] == 17 then
              if |p| < 44 then Err(PacketTooShort(|p|)) else Ok(0x100 * (p[42] as nat) + p[43] as nat)
            else if p[6] == 58 then
              if |p| < 48 then Err(PacketTooShort(|p|)) else Ok(0x100 * (p[44] as nat) + p[45] as nat)
            else Err(UnsupportedProtocol(p[6]))
  {
  }

  /** When a checksum cannot be stored, and why. */
  lemma ChecksumErrorBytes(length: nat, proto: byte)
    ensures ChecksumError(length, proto)
         == if length < 40 then Some(PacketTooShort(length))
            else if proto == 6 then (if length < 58 then Some(PacketTooShort(length)) else None)
            else if proto == 17 then (if length < 48 then Some(PacketTooShort(length)) else None)
            else if proto == 58 then (if length < 44 then Some(PacketTooShort(length)) else None)
            else Some(UnsupportedProtocol(proto))
  {
  }

  /** Which packets can be rewritten. */
  lemma RewritableBytes(p: Packet)
    ensures Rewritable(p)
       <==> |p| >= 48 && p[0] / 16 == 6 && (p[6] == 17 || p[6] == 58 || (p[6] == 6 && |p| >= 58))
  {
  }

  /** Bytes that neither an address, a port, an identifier nor the checksum of the protocol occupies. */
  predicate OtherByte(proto: byte, i: nat) {
    && (i < 8 || i >= 44)
    && !(proto == 6 && 56 <= i < 58) && !(proto == 17 && 46 <= i < 48) && !(proto == 58 && 44 <= i < 46)
  }

  /** `q` is `p` with this source address and port, and at most the checksum changed besides. */
  predicate HasSource(p: Packet, q: Packet, address: Ipv6, port: u16)
    requires |p| >= 48
  {
    && |q| == |p| && q[8..24] == address && q[24..40] == p[24..40]
    && (if p[6] == 58 then 0x100 * (q[44] as nat) + q[45] as nat == port && q[40..42] == p[40..42]
        else 0x100 * (q[40] as nat) + q[41] as nat == port && q[42..44] == p[42..44])
    && forall i :: 0 <= i < |p| && OtherByte(p[6], i) ==> q[i] == p[i]
  }

  /** `q` is `p` with this destination address and port, and at most the checksum changed besides. */
  predicate HasDestination(p: Packet, q: Packet, address: Ipv6, port: u16)
    requires |p| >= 48
  {
    && |q| == |p| && q[24..40] == address && q[8..24] == p[8..24]
    && (if p[6] == 58 then 0x100 * (q[44] as nat) + q[45] as nat == port && q[40..42] == p[40..42]
        else 0x100 * (q[42] as nat) + q[43] as nat == port && q[40..42] == p[40..42])
    && forall i :: 0 <= i < |p| && OtherByte(p[6], i) ==> q[i] == p[i]
  }

  /** The sum over source, destination, payload length, protocol and payload is that of a valid checksum. */
  predicate HasValidChecksum(q: Packet)
    requires |q| >= 40
  {
    var n := (|q| - 40) % 0x1_0000_0000;
    Verifies(q[8..24] + q[24..40] + [n / 0x100_0000, n / 0x1_0000 % 0x100, n / 0x100 % 0x100, n % 0x100]
             + [0, 0, 0, q[6]] + q[40..])
  }

  lemma PseudoBytes(q: Packet)
    requires |q| >= 40
    ensures Verifies(Pseudo(q, q[6])) <==> HasValidChecksum(q)
  {
    Be32Bytes((|q| - 40) % 0x1_0000_0000);
  }

  /** The slices of `q` that a rewrite leaves alone. */
  lemma UntouchedSlice(p: Packet, q: Packet, proto: byte, end: End, lo: nat, hi: nat)
    requires |p| == |q| && lo <= hi <= |p|
    requires forall i :: 0 <= i < |p| && !Rewrites(proto, end, i) ==> q[i] == p[i]
    requires forall i :: lo <= i < hi ==> !Rewrites(proto, end, i)
    ensures q[lo..hi] == p[lo..hi]
  {
  }

  /** `q` is what a rewrite of one end of `p` may look like. */
  predicate IsRewriteOf(p: Packet, q: Packet, end: End, address: Ipv6, port: u16)
    requires Rewritable(p)
  {
    && |q| == |p| && NextHeader(q) == NextHeader(p)
    && AddressOf(q, end) == address && PortOf(q, p[6], end) == Ok(port)
    && forall i :: 0 <= i < |p| && !Rewrites(p[6], end, i) ==> q[i] == p[i]
  }

  lemma SourceBytes(p: Packet, q: Packet, address: Ipv6, port: u16)
    requires Rewritable(p) && IsRewriteOf(p, q, Src, address, port)
    ensures |p| >= 48 && HasSource(p, q, address, port)
  {
    UntouchedSlice(p, q, p[6], Src, 24, 40);
    if p[6] == 58 { UntouchedSlice(p, q, p[6], Src, 40, 42); } else { UntouchedSlice(p, q, p[6], Src, 42, 44); }
  }

  lemma DestinationBytes(p: Packet, q: Packet, address: Ipv6, port: u16)
    requires Rewritable(p) && IsRewriteOf(p, q, Dst, address, port)
    ensures |p| >= 48 && HasDestination(p, q, address, port)
  {
    UntouchedSlice(p, q, p[6], Dst, 8, 24);
    UntouchedSlice(p, q, p[6], Dst, 40, 42);
  }

  /** A source rewrite, byte by byte: the new source, a valid checksum, and everything else as it was. */
  lemma SourceRewriteBytes(p: Packet, address: Ipv6, port: u16)
    requires Rewritable(p)
    ensures |p| >= 48 && HasSource(p, Rewritten(p, Src, address, port).packet, address, port)
    ensures HasValidChecksum(Rewritten(p, Src, address, port).packet)
  {
    var q := Rewritten(p, Src, address, port).packet;
    RewriteIsCorrect(p, Src, address, port);
    assert IsRewriteOf(p, q, Src, address, port);
    SourceBytes(p, q, address, port);
    PseudoBytes(q);
  }

  /** And a destination rewrite. */
  lemma DestinationRewriteBytes(p: Packet, address: Ipv6, port: u16)
    requires Rewritable(p)
    ensures |p| >= 48 && HasDestination(p, Rewritten(p, Dst, address, port).packet, address, port)
    ensures HasValidChecksum(Rewritten(p, Dst, address, port).packet)
  {
    var q := Rewritten(p, Dst, address, port).packet;
    RewriteIsCorrect(p, Dst, address, port);
    assert IsRewriteOf(p, q, Dst, address, port);
    DestinationBytes(p, q, address, port);
    PseudoBytes(q);
  }
}
