/**
 Length-prefixed framing of byte streams, as used over Bluetooth and over TCP. Both decoders
 follow one specification. What the TCP receiver delivers never depends on how the stream is cut into
 reads; for the Bluetooth receiver the exact condition is given.
 */
module Framing {
  import opened Wrappers
  import opened Bytes

  /** The payload sizes a decoder admits. */
  datatype Limits = Limits(min: nat, max: nat)

  const RFCOMM := Limits(1, 65_536)
  const TCP := Limits(0, 1_048_576)

  datatype Error = EmptyFrame | TooLarge(size: nat)

  /** Complete payloads, the undecoded tail, and the error that stopped decoding, if any. */
  datatype Decoded = Decoded(frames: seq<seq<byte>>, rest: seq<byte>, error: Option<Error>)

  function Prefix(buf: seq<byte>): nat
    requires |buf| >= 4
  {
    FromBe32(buf[..4])
  }

  /** Why the next frame cannot be accepted, if it cannot. */
  function HeaderError(l: Limits, buf: seq<byte>): Option<Error> {
    if |buf| < 4 then None
    else if Prefix(buf) < l.min then Some(EmptyFrame)
    else if Prefix(buf) > l.max then Some(TooLarge(Prefix(buf)))
    else None
  }

  predicate HasFrame(l: Limits, buf: seq<byte>) {
    |buf| >= 4 && HeaderError(l, buf).None? && |buf| >= 4 + Prefix(buf)
  }

  /** Decode as many frames as are complete. */
  function DecodeAll(l: Limits, buf: seq<byte>): Decoded
    decreases |buf|
  {
    if HasFrame(l, buf) then
      var d := DecodeAll(l, buf[4 + Prefix(buf)..]);
      Decoded([buf[4..4 + Prefix(buf)]] + d.frames, d.rest, d.error)
    else Decoded([], buf, HeaderError(l, buf))
  }

  /** A length cut to the 32 bits of its field. */
  function Length32(n: nat): (w: u32)
    ensures n < 0x1_0000_0000 ==> w == n
  {
    if n < 0x1_0000_0000 then n else n % 0x1_0000_0000
  }

  function Encode(payload: seq<byte>): seq<byte> {
    Be32(Length32(|payload|)) + payload
  }

  function EncodeAll(payloads: seq<seq<byte>>): seq<byte> {
    if payloads == [] then [] else Encode(payloads[0]) + EncodeAll(payloads[1..])
  }

  predicate Legal(l: Limits, payload: seq<byte>) {
    l.min <= |payload| <= l.max
  }

  // ---------------------------------------------------------------------
  // In place

  class ByteBuffer {
    var data: seq<byte>
  }

  /** Bluetooth: encode a payload, unless it is empty or too large. */
  method EncodeFrame(payload: seq<byte>) returns (r: Result<seq<byte>, Error>)
    ensures r == if Legal(RFCOMM, payload) then Ok(Encode(payload))
                 else Err(if payload == [] then EmptyFrame else TooLarge(|payload|))
  {
    if |payload| == 0 {
      return Err(EmptyFrame);
    }
    if |payload| > 65_536 {
      return Err(TooLarge(|payload|));
    }
    return Ok(Be32(|payload|) + payload);
  }

  /**
   Bluetooth: drain all complete frames from the buffer. An invalid length fails the whole call,
   although the frames before it have been drained.
   */
  method DecodeFrames(buf: ByteBuffer) returns (r: Result<seq<seq<byte>>, Error>)
    modifies buf
    ensures var d := DecodeAll(RFCOMM, old(buf.data));
      && buf.data == d.rest
      && r == if d.error.Some? then Err(d.error.value) else Ok(d.frames)
  {
    var out: seq<seq<byte>> := [];
    ghost var whole := DecodeAll(RFCOMM, buf.data);
    while true
      invariant var d := DecodeAll(RFCOMM, buf.data);
        whole.frames == out + d.frames && whole.rest == d.rest && whole.error == d.error
      decreases |buf.data|
    {
      if |buf.data| < 4 {
        break;
      }
      var n := FromBe32(buf.data[..4]);
      if n == 0 {
        return Err(EmptyFrame);
      }
      if n > 65_536 {
        return Err(TooLarge(n));
      }
      if |buf.data| < 4 + n {
        break;
      }
      var payload := buf.data[4..4 + n];
      buf.data := buf.data[4 + n..];
      out := out + [payload];
    }
    assert !HasFrame(RFCOMM, buf.data) && HeaderError(RFCOMM, buf.data).None?;
    assert whole.frames == out + [] == out;
    return Ok(out);
  }

  /**
   Bluetooth: the receive loop. Each read is appended and decoded; an error ends the session, and the
   frames of that last read never reach the caller.
   */
  method ReceiveFrames(chunks: seq<seq<byte>>) returns (d: Decoded)
    ensures d == ReadAll(chunks)
  {
    var buf := new ByteBuffer;
    buf.data := [];
    var delivered: seq<seq<byte>> := [];
    for i := 0 to |chunks|
      invariant fresh(buf) && ReadAll(chunks[..i]) == Decoded(delivered, buf.data, None)
    {
      assert chunks[..i+1][..i] == chunks[..i];
      buf.data := buf.data + chunks[i];
      var r := DecodeFrames(buf);
      match r {
        case Err(e) =>
          ErrorEndsReading(chunks, i + 1);
          return Decoded(delivered, buf.data, Some(e));
        case Ok(frames) => delivered := delivered + frames;
      }
    }
    assert chunks[..|chunks|] == chunks;
    return Decoded(delivered, buf.data, None);
  }

  /** TCP: append an encoded payload. */
  method EncodeInto(payload: seq<byte>, buf: ByteBuffer)
    modifies buf
    ensures buf.data == old(buf.data) + Encode(payload)
  {
    buf.data := buf.data + Be32(Length32(|payload|));
    buf.data := buf.data + payload;
  }

  /** TCP: take one complete frame off the buffer. */
  method DecodeNext(buf: ByteBuffer) returns (r: Result<Option<seq<byte>>, Error>)
    modifies buf
    ensures var d, d0 := DecodeAll(TCP, buf.data), DecodeAll(TCP, old(buf.data));
      match r
      case Err(e) => buf.data == old(buf.data) && d0 == Decoded([], buf.data, Some(e))
      case Ok(None) => buf.data == old(buf.data) && d0 == Decoded([], buf.data, None)
      case Ok(Some(payload)) => d0 == Decoded([payload] + d.frames, d.rest, d.error) && |buf.data| < |old(buf.data)|
  {
    if |buf.data| < 4 {
      return Ok(None);
    }
    var length := FromBe32(buf.data[..4]);
    if length > 1_048_576 {
      return Err(TooLarge(length));
    }
    if |buf.data| < 4 + length {
      return Ok(None);
    }
    ghost var start := buf.data;
    buf.data := buf.data[4..];
    var payload := buf.data[..length];
    buf.data := buf.data[length..];
    assert buf.data == start[4 + length..] && payload == start[4..4 + length];
    return Ok(Some(payload));
  }

  /** TCP: decode until no complete frame is left, as the receive loop does. */
  method DecodeAvailable(buf: ByteBuffer) returns (d: Decoded)
    modifies buf
    ensures d == DecodeAll(TCP, old(buf.data)) && buf.data == d.rest
  {
    ghost var whole := DecodeAll(TCP, buf.data);
    var out: seq<seq<byte>> := [];
    assert [] + whole.frames == whole.frames;
    while true
      invariant whole == Behind(out, DecodeAll(TCP, buf.data))
      decreases |buf.data|
    {
      var r := DecodeNext(buf);
      match r {
        case Err(e) =>
          assert out + [] == out;
          return Decoded(out, buf.data, Some(e));
        case Ok(None) =>
          assert out + [] == out;
          return Decoded(out, buf.data, None);
        case Ok(Some(payload)) =>
          BehindOneMore(out, payload, DecodeAll(TCP, buf.data));
          out := out + [payload];
      }
    }
  }

  /** What `d` decodes, behind the frames `out` decoded already. */
  function Behind(out: seq<seq<byte>>, d: Decoded): Decoded {
    d.(frames := out + d.frames)
  }

  lemma BehindOneMore(out: seq<seq<byte>>, payload: seq<byte>, d: Decoded)
    ensures Behind(out, Decoded([payload] + d.frames, d.rest, d.error)) == Behind(out + [payload], d)
  {
    assert out + ([payload] + d.frames) == out + [payload] + d.frames;
  }

  // ---------------------------------------------------------------------
  // Streams

  lemma PrefixOfLonger(l: Limits, a: seq<byte>, b: seq<byte>)
    requires |a| >= 4
    ensures Prefix(a + b) == Prefix(a) && HeaderError(l, a + b) == HeaderError(l, a)
  {
    assert (a + b)[..4] == a[..4];
  }

  /** Go on decoding once `b` has arrived behind what `d` left over. */
  function Continue(l: Limits, d: Decoded, b: seq<byte>): Decoded {
    if d.error.Some? then d.(rest := d.rest + b)
    else
      var e := DecodeAll(l, d.rest + b);
      Decoded(d.frames + e.frames, e.rest, e.error)
  }

  function Prepend(payload: seq<byte>, d: Decoded): Decoded {
    d.(frames := [payload] + d.frames)
  }

  /** A complete frame comes off the front; decoding goes on with the rest. */
  lemma DecodeOne(l: Limits, buf: seq<byte>, payload: seq<byte>, rest: seq<byte>)
    requires HasFrame(l, buf) && payload == buf[4..4 + Prefix(buf)] && rest == buf[4 + Prefix(buf)..]
    ensures DecodeAll(l, buf) == Prepend(payload, DecodeAll(l, rest))
  {
  }

  lemma ContinuePrepends(l: Limits, payload: seq<byte>, d: Decoded, b: seq<byte>)
    ensures Continue(l, Prepend(payload, d), b) == Prepend(payload, Continue(l, d, b))
  {
    var e := DecodeAll(l, d.rest + b);
    assert [payload] + d.frames + e.frames == [payload] + (d.frames + e.frames);
  }

  lemma FrameOfLonger(l: Limits, a: seq<byte>, b: seq<byte>)
    requires HasFrame(l, a)
    ensures HasFrame(l, a + b) && Prefix(a + b) == Prefix(a)
    ensures (a + b)[4..4 + Prefix(a)] == a[4..4 + Prefix(a)] && (a + b)[4 + Prefix(a)..] == a[4 + Prefix(a)..] + b
  {
    PrefixOfLonger(l, a, b);
  }

  /** Decoding a longer stream is decoding the first part and going on with what it left over. */
  lemma {:induction false} DecodeAppended(l: Limits, a: seq<byte>, b: seq<byte>)
    ensures DecodeAll(l, a + b) == Continue(l, DecodeAll(l, a), b)
    decreases |a|
  {
    if HasFrame(l, a) {
      var payload, rest := a[4..4 + Prefix(a)], a[4 + Prefix(a)..];
      FrameOfLonger(l, a, b);
      DecodeOne(l, a, payload, rest);
      DecodeOne(l, a + b, payload, rest + b);
      DecodeAppended(l, rest, b);
      ContinuePrepends(l, payload, DecodeAll(l, rest), b);
    } else {
      if |a| >= 4 { PrefixOfLonger(l, a, b); }
      DecodeStuck(l, a, b);
    }
  }

  lemma DecodeStuck(l: Limits, a: seq<byte>, b: seq<byte>)
    requires !HasFrame(l, a) && (|a| >= 4 ==> HeaderError(l, a + b) == HeaderError(l, a))
    ensures DecodeAll(l, a + b) == Continue(l, DecodeAll(l, a), b)
  {
    var e := DecodeAll(l, a + b);
    assert [] + e.frames == e.frames;
  }

  function Concat(chunks: seq<seq<byte>>): seq<byte> {
    if chunks == [] then [] else Concat(chunks[..|chunks|-1]) + chunks[|chunks|-1]
  }

  /** TCP: read chunk after chunk into the buffer, taking frame after frame; the first error ends the stream. */
  function Feed(l: Limits, chunks: seq<seq<byte>>): Decoded {
    if chunks == [] then Decoded([], [], None)
    else
      Continue(l, Feed(l, chunks[..|chunks|-1]), chunks[|chunks|-1])
  }

  /** For a receiver that takes frames one by one, how a stream, valid or not, is cut into reads makes no difference. */
  lemma {:induction false} ChunkingIsIrrelevant(l: Limits, chunks: seq<seq<byte>>)
    ensures Feed(l, chunks) == DecodeAll(l, Concat(chunks))
  {
    if chunks != [] {
      var init, last := chunks[..|chunks|-1], chunks[|chunks|-1];
      ChunkingIsIrrelevant(l, init);
      DecodeAppended(l, Concat(init), last);
    }
  }

  // ---------------------------------------------------------------------
  // The Bluetooth receiver

  /** What the Bluetooth receive loop has handed over, and its buffer, after these reads. */
  function ReadAll(chunks: seq<seq<byte>>): Decoded {
    if chunks == [] then Decoded([], [], None)
    else
      var d := ReadAll(chunks[..|chunks|-1]);
      if d.error.Some? then d
      else
        var e := DecodeAll(RFCOMM, d.rest + chunks[|chunks|-1]);
        Decoded(if e.error.Some? then d.frames else d.frames + e.frames, e.rest, e.error)
  }

  lemma {:induction false} ErrorEndsReading(chunks: seq<seq<byte>>, k: nat)
    requires k <= |chunks| && ReadAll(chunks[..k]).error.Some?
    ensures ReadAll(chunks) == ReadAll(chunks[..k])
  {
    if k < |chunks| {
      assert chunks[..|chunks|-1][..k] == chunks[..k];
      ErrorEndsReading(chunks[..|chunks|-1], k);
    } else {
      assert chunks[..k] == chunks;
    }
  }

  /** The stream of the first `k` chunks, decoded in one go. */
  function Stream(chunks: seq<seq<byte>>, k: nat): Decoded
    requires k <= |chunks|
  {
    DecodeAll(RFCOMM, Concat(chunks[..k]))
  }

  /** Read `k` is the one in which a bad length comes up. */
  predicate ErrorSurfacesIn(chunks: seq<seq<byte>>, k: nat) {
    k < |chunks| && Stream(chunks, k).error.None? && Stream(chunks, k + 1).error.Some?
  }

  /** Read `k`, behind what the reads before it left over, completes a frame. */
  predicate CompletesFrame(chunks: seq<seq<byte>>, k: nat)
    requires k < |chunks|
  {
    HasFrame(RFCOMM, Stream(chunks, k).rest + chunks[k])
  }

  lemma StreamGrows(chunks: seq<seq<byte>>, k: nat)
    requires k < |chunks|
    ensures Stream(chunks, k + 1) == Continue(RFCOMM, Stream(chunks, k), chunks[k])
  {
    assert chunks[..k+1][..k] == chunks[..k];
    DecodeAppended(RFCOMM, Concat(chunks[..k]), chunks[k]);
  }

  /** Once there is an error, later reads change neither the error nor the frames before it. */
  lemma {:induction false} ErrorIsFinal(chunks: seq<seq<byte>>, k: nat, n: nat)
    requires k <= n <= |chunks| && Stream(chunks, k).error.Some?
    ensures Stream(chunks, n).error == Stream(chunks, k).error && Stream(chunks, n).frames == Stream(chunks, k).frames
  {
    if k < n {
      ErrorIsFinal(chunks, k, n - 1);
      StreamGrows(chunks, n - 1);
    }
  }

  /** Until there is an error, the receiver has handed over the whole stream. */
  lemma {:induction false} ReadsBeforeError(chunks: seq<seq<byte>>, k: nat)
    requires k <= |chunks| && Stream(chunks, k).error.None?
    ensures ReadAll(chunks[..k]) == Stream(chunks, k)
  {
    if k > 0 {
      if Stream(chunks, k - 1).error.Some? { ErrorIsFinal(chunks, k - 1, k); }
      ReadsBeforeError(chunks, k - 1);
      StreamGrows(chunks, k - 1);
      assert chunks[..k][..k-1] == chunks[..k-1];
    }
  }

  /** The read with the bad length hands over nothing: neither its own frames nor anything later. */
  lemma ReadsAtError(chunks: seq<seq<byte>>, k: nat)
    requires ErrorSurfacesIn(chunks, k)
    ensures ReadAll(chunks).frames == Stream(chunks, k).frames
    ensures ReadAll(chunks).error == Stream(chunks, |chunks|).error
    ensures Stream(chunks, |chunks|).frames == Stream(chunks, k).frames <==> !CompletesFrame(chunks, k)
  {
    ReadsBeforeError(chunks, k);
    StreamGrows(chunks, k);
    assert chunks[..k+1][..k] == chunks[..k];
    assert ReadAll(chunks[..k+1]).error.Some?;
    ErrorEndsReading(chunks, k + 1);
    ErrorIsFinal(chunks, k + 1, |chunks|);
    var e := DecodeAll(RFCOMM, Stream(chunks, k).rest + chunks[k]);
    assert |e.frames| > 0 <==> CompletesFrame(chunks, k);
    assert |Stream(chunks, |chunks|).frames| == |Stream(chunks, k).frames| + |e.frames|;
    if e.frames == [] { assert Stream(chunks, k).frames + e.frames == Stream(chunks, k).frames; }
  }

  lemma {:induction false} SomeReadFails(chunks: seq<seq<byte>>, n: nat) returns (k: nat)
    requires n <= |chunks| && Stream(chunks, n).error.Some?
    ensures k < n && ErrorSurfacesIn(chunks, k)
  {
    if Stream(chunks, n - 1).error.None? {
      k := n - 1;
    } else {
      k := SomeReadFails(chunks, n - 1);
    }
  }

  lemma OneReadFails(chunks: seq<seq<byte>>, j: nat, k: nat)
    requires ErrorSurfacesIn(chunks, j) && ErrorSurfacesIn(chunks, k)
    ensures j == k
  {
    if j < k { ErrorIsFinal(chunks, j + 1, k); }
    if k < j { ErrorIsFinal(chunks, k + 1, j); }
  }

  /**
   For arbitrary bytes and chunks, the Bluetooth receiver reports the error the stream has, and hands
   over every frame of the stream exactly when the read in which a bad length comes up, if there is
   one, completes no frame.
   */
  lemma BluetoothDeliversExactly(chunks: seq<seq<byte>>)
    ensures ReadAll(chunks).error == DecodeAll(RFCOMM, Concat(chunks)).error
    ensures ReadAll(chunks).frames == DecodeAll(RFCOMM, Concat(chunks)).frames
       <==> forall k: nat :: ErrorSurfacesIn(chunks, k) ==> !CompletesFrame(chunks, k)
  {
    assert chunks[..|chunks|] == chunks;
    if Stream(chunks, |chunks|).error.None? {
      ReadsBeforeError(chunks, |chunks|);
      forall k: nat ensures !ErrorSurfacesIn(chunks, k) {
        if ErrorSurfacesIn(chunks, k) { ErrorIsFinal(chunks, k + 1, |chunks|); }
      }
    } else {
      var k := SomeReadFails(chunks, |chunks|);
      ReadsAtError(chunks, k);
      forall j: nat | ErrorSurfacesIn(chunks, j) ensures j == k { OneReadFails(chunks, j, k); }
    }
  }

  /** One read with a frame and a bad length hands over nothing; cut between the two, the frame arrives. */
  lemma BadLengthTakesFramesAlong(payload: seq<byte>, bad: seq<byte>)
    requires Legal(RFCOMM, payload) && HeaderError(RFCOMM, bad).Some?
    ensures ReadAll([Encode(payload) + bad]).frames == []
    ensures ReadAll([Encode(payload), bad]).frames == [payload]
  {
    var one, two := [Encode(payload) + bad], [Encode(payload), bad];
    BadLengthEndsStream([payload], bad);
    DecodesEncodings(RFCOMM, [payload]);
    assert EncodeAll([payload]) == Encode(payload);
    assert [] + one[0] == one[0] && [] + Encode(payload) == Encode(payload) && [] + bad == bad;
    assert two[..1] == [Encode(payload)];
    assert ReadAll([Encode(payload)]) == Decoded([payload], [], None);
  }

  lemma PrefixOfBe32(n: u32, tail: seq<byte>)
    ensures Prefix(Be32(n) + tail) == n
  {
    Be32RoundTrip(n);
    assert (Be32(n) + tail)[..4] == Be32(n);
  }

  lemma EncodedParts(payload: seq<byte>, tail: seq<byte>)
    requires |payload| < 0x1_0000_0000
    ensures Encode(payload) + tail == Be32(|payload|) + (payload + tail)
    ensures (Encode(payload) + tail)[4..4 + |payload|] == payload && (Encode(payload) + tail)[4 + |payload|..] == tail
  {
    HeaderAndTail(Be32(|payload|), payload, tail);
  }

  lemma HeaderAndTail(h: seq<byte>, payload: seq<byte>, tail: seq<byte>)
    requires |h| == 4
    ensures h + payload + tail == h + (payload + tail)
    ensures (h + payload + tail)[4..4 + |payload|] == payload && (h + payload + tail)[4 + |payload|..] == tail
  {
  }

  lemma EncodedFrame(l: Limits, payload: seq<byte>, tail: seq<byte>)
    requires |payload| < 0x1_0000_0000
    ensures |Encode(payload) + tail| >= 4 && Prefix(Encode(payload) + tail) == |payload|
    ensures HasFrame(l, Encode(payload) + tail) <==> Legal(l, payload)
  {
    EncodedParts(payload, tail);
    PrefixOfBe32(|payload|, payload + tail);
  }

  lemma {:induction false} DecodesEncodings(l: Limits, payloads: seq<seq<byte>>)
    requires l.max < 0x1_0000_0000 && forall i :: 0 <= i < |payloads| ==> Legal(l, payloads[i])
    ensures DecodeAll(l, EncodeAll(payloads)) == Decoded(payloads, [], None)
  {
    if payloads != [] {
      DecodesEncodings(l, payloads[1..]);
      var tail := EncodeAll(payloads[1..]);
      EncodedParts(payloads[0], tail);
      EncodedFrame(l, payloads[0], tail);
      DecodeOne(l, Encode(payloads[0]) + tail, payloads[0], tail);
      assert payloads == [payloads[0]] + payloads[1..];
    }
  }

  /** Whatever reads deliver the encodings of legal payloads, exactly those payloads come out, in order. */
  lemma PayloadsSurviveAnyChunking(l: Limits, payloads: seq<seq<byte>>, chunks: seq<seq<byte>>)
    requires l.max < 0x1_0000_0000 && forall i :: 0 <= i < |payloads| ==> Legal(l, payloads[i])
    requires Concat(chunks) == EncodeAll(payloads)
    ensures Feed(l, chunks) == Decoded(payloads, [], None)
  {
    ChunkingIsIrrelevant(l, chunks);
    DecodesEncodings(l, payloads);
  }

  /** The same for the Bluetooth receiver. */
  lemma BluetoothPayloadsSurviveAnyChunking(payloads: seq<seq<byte>>, chunks: seq<seq<byte>>)
    requires forall i :: 0 <= i < |payloads| ==> Legal(RFCOMM, payloads[i])
    requires Concat(chunks) == EncodeAll(payloads)
    ensures ReadAll(chunks) == Decoded(payloads, [], None)
  {
    DecodesEncodings(RFCOMM, payloads);
    assert chunks[..|chunks|] == chunks;
    ReadsBeforeError(chunks, |chunks|);
  }

  /** The TCP encoder does not check sizes: a frame is decoded again exactly when it is within the limit. */
  lemma DecodableExactly(payload: seq<byte>)
    ensures DecodeAll(TCP, Encode(payload)) == Decoded([payload], [], None) <==> |payload| <= 1_048_576
  {
    if Legal(TCP, payload) {
      EncodedParts(payload, []);
      EncodedFrame(TCP, payload, []);
      assert Encode(payload) + [] == Encode(payload);
      DecodeOne(TCP, Encode(payload), payload, []);
    } else {
      FirstFrameIsLegal(TCP, Encode(payload));
    }
  }

  lemma FirstFrameIsLegal(l: Limits, buf: seq<byte>)
    ensures var d := DecodeAll(l, buf); d.frames != [] ==> Legal(l, d.frames[0])
  {
  }

  /**
   Frames that arrive in the same read as a bad length are decoded, drained and then lost with the
   error: the Bluetooth decoder reports only the error for such a read.
   */
  lemma BadLengthEndsStream(payloads: seq<seq<byte>>, bad: seq<byte>)
    requires forall i :: 0 <= i < |payloads| ==> Legal(RFCOMM, payloads[i])
    requires HeaderError(RFCOMM, bad).Some?
    ensures DecodeAll(RFCOMM, EncodeAll(payloads) + bad) == Decoded(payloads, bad, HeaderError(RFCOMM, bad))
  {
    DecodesEncodings(RFCOMM, payloads);
    DecodeAppended(RFCOMM, EncodeAll(payloads), bad);
    assert [] + bad == bad && payloads + [] == payloads;
  }


  // ---------------------------------------------------------------------
  // In literal terms

  /** An encoded payload is its length in four bytes, highest first, and its bytes. */
  lemma FrameFormat(payload: seq<byte>)
    requires |payload| < 0x1_0000_0000
    ensures var n := |payload|;
      Encode(payload) == [n / 0x100_0000, n / 0x1_0000 % 0x100, n / 0x100 % 0x100, n % 0x100] + payload
  {
    Be32Bytes(|payload|);
  }

  /** The Bluetooth decoder takes payloads of 1 to 65536 bytes, and names the length it refuses. */
  lemma BluetoothDecodableExactly(payload: seq<byte>)
    requires |payload| < 0x1_0000_0000
    ensures DecodeAll(RFCOMM, Encode(payload))
         == if payload == [] then Decoded([], Encode(payload), Some(EmptyFrame))
            else if |payload| <= 65_536 then Decoded([payload], [], None)
            else Decoded([], Encode(payload), Some(TooLarge(|payload|)))
  {
    EncodedParts(payload, []);
    EncodedFrame(RFCOMM, payload, []);
    assert Encode(payload) + [] == Encode(payload);
    if Legal(RFCOMM, payload) { DecodeOne(RFCOMM, Encode(payload), payload, []); }
  }

  /** The TCP decoder refuses a length over 1048576 by name. */
  lemma TooLargeIsNamed(payload: seq<byte>)
    requires 1_048_576 < |payload| < 0x1_0000_0000
    ensures DecodeAll(TCP, Encode(payload)) == Decoded([], Encode(payload), Some(TooLarge(|payload|)))
  {
    EncodedParts(payload, []);
    EncodedFrame(TCP, payload, []);
    assert Encode(payload) + [] == Encode(payload);
  }
}
