/** Fragmentation of packets and the wire format of a fragment. */
module Fragments {
  import opened Wrappers
  import opened Bytes

  const MAX_FRAGMENT_PAYLOAD: nat := 1200
  const FRAGMENT_HEADER_SIZE: nat := 8

  datatype Fragment = Fragment(id: u32, offset: u16, total: u16, payload: seq<byte>)

  function Serialize(f: Fragment): seq<byte> {
    Be32(f.id) + Be16(f.offset) + Be16(f.total) + f.payload
  }

  /** Too short a buffer, or a payload reaching past the declared total, is refused. */
  function Deserialize(buf: seq<byte>): Option<Fragment> {
    if |buf| < FRAGMENT_HEADER_SIZE then None
    else
      var f := Fragment(FromBe32(buf[..4]), FromBe16(buf[4..6]), FromBe16(buf[6..8]), buf[8..]);
      if f.offset + |f.payload| > f.total then None else Some(f)
  }

  /** A fragment survives the wire exactly when it stays within its packet. */
  lemma WireRoundTrip(f: Fragment)
    ensures Deserialize(Serialize(f)) == if f.offset + |f.payload| <= f.total then Some(f) else None
  {
    var buf := Serialize(f);
    Be32RoundTrip(f.id);
    Be16RoundTrip(f.offset);
    Be16RoundTrip(f.total);
    assert buf[..4] == Be32(f.id) && buf[4..6] == Be16(f.offset) && buf[6..8] == Be16(f.total) && buf[8..] == f.payload;
  }

  /** Number of fragments of a packet of `length` bytes. */
  function FragmentCount(length: nat): nat {
    (length + MAX_FRAGMENT_PAYLOAD - 1) / MAX_FRAGMENT_PAYLOAD
  }

  lemma CountBound(length: nat, k: nat)
    ensures k < FragmentCount(length) <==> k * MAX_FRAGMENT_PAYLOAD < length
  {
  }

  /** The bytes of fragment `k`: 1200 of them, fewer in the last one. */
  function Slice(data: seq<byte>, k: nat): seq<byte>
    requires k < FragmentCount(|data|)
  {
    data[k * MAX_FRAGMENT_PAYLOAD..Min((k + 1) * MAX_FRAGMENT_PAYLOAD, |data|)]
  }

  /** Fragment `k` of a packet; offset and total are cut to 16 bits as on the wire. */
  function FragmentAt(data: seq<byte>, id: u32, k: nat): Fragment
    requires k < FragmentCount(|data|)
  {
    Fragment(id, k * MAX_FRAGMENT_PAYLOAD % 0x1_0000, |data| % 0x1_0000, Slice(data, k))
  }

  function Joined(frames: seq<Fragment>): seq<byte> {
    if frames == [] then [] else Joined(frames[..|frames|-1]) + frames[|frames|-1].payload
  }

  /** Cut a packet into fragments, in order; joined together they are the packet again. */
  method FragmentPacket(data: seq<byte>, id: u32) returns (frames: seq<Fragment>)
    ensures |frames| == FragmentCount(|data|)
    ensures forall k :: 0 <= k < |frames| ==> frames[k] == FragmentAt(data, id, k)
    ensures Joined(frames) == data
  {
    frames := [];
    if |data| == 0 {
      return;
    }
    var total := |data| % 0x1_0000;
    var offset := 0;
    while offset < |data|
      invariant 0 <= offset <= |data|
      invariant offset == Min(|frames| * MAX_FRAGMENT_PAYLOAD, |data|)
      invariant |frames| <= FragmentCount(|data|)
      invariant forall k :: 0 <= k < |frames| ==> frames[k] == FragmentAt(data, id, k)
      invariant Joined(frames) == data[..offset]
    {
      CountBound(|data|, |frames|);
      var end := Min(offset + MAX_FRAGMENT_PAYLOAD, |data|);
      ghost var shorter := frames;
      var fragment := Fragment(id, offset % 0x1_0000, total, data[offset..end]);
      assert fragment == FragmentAt(data, id, |shorter|);
      frames := frames + [fragment];
      assert frames[..|frames|-1] == shorter;
      assert data[..end] == data[..offset] + data[offset..end];
      offset := end;
    }
    CountBound(|data|, |frames|);
  }

  /** The wire format byte by byte: identifier, offset and total length, highest byte first, then the payload. */
  lemma WireFormat(f: Fragment)
    ensures Serialize(f)
         == [f.id / 0x100_0000, f.id / 0x1_0000 % 0x100, f.id / 0x100 % 0x100, f.id % 0x100,
             f.offset / 0x100, f.offset % 0x100, f.total / 0x100, f.total % 0x100] + f.payload
  {
    Be32Bytes(f.id);
    Be16Bytes(f.offset);
    Be16Bytes(f.total);
  }

  /** Fragment `k` of a packet of at most 65535 bytes carries up to 1200 bytes from offset `1200 * k`. */
  lemma FragmentFormat(data: seq<byte>, id: u32, k: nat)
    requires |data| <= 65535 && 1200 * k < |data|
    ensures k < FragmentCount(|data|)
    ensures var end := if 1200 * k + 1200 < |data| then 1200 * k + 1200 else |data|;
      FragmentAt(data, id, k) == Fragment(id, 1200 * k, |data|, data[1200 * k..end])
  {
    CountBound(|data|, k);
  }
}
