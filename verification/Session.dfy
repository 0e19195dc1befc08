/**
 The counters of a session cipher: which received frames are accepted and which nonces are used.
 The cipher itself is a pair of arbitrary functions.
 */
module Session {
  import opened Wrappers
  import opened Bytes

  const MAX_NONCE_COUNTER: nat := 0xFFFF_FFFE
  const NO_FRAME_YET: nat := 0xFFFF_FFFF_FFFF_FFFF

  type Nonce = n: seq<byte> | |n| == 12 witness [0, 0, 0, 0, 0, 0, 0, 0, 0, 0, 0, 0]
  type Prefix = n: seq<byte> | |n| == 8 witness [0, 0, 0, 0, 0, 0, 0, 0]

  datatype EncryptedFrame = EncryptedFrame(nonce: Nonce, ciphertext: seq<byte>)

  datatype SessionError = NonceExhausted | EncryptionFailed | DecryptionFailed | ReplayedNonce

  type Seal = (Nonce, seq<byte>) -> Option<seq<byte>>
  type Open = (Nonce, seq<byte>) -> Option<seq<byte>>

  function BuildNonce(prefix: Prefix, counter: u32): Nonce {
    prefix + Be32(counter)
  }

  function CounterOf(nonce: Nonce): u32 {
    FromBe32(nonce[8..])
  }

  lemma CounterOfBuilt(prefix: Prefix, counter: u32)
    ensures CounterOf(BuildNonce(prefix, counter)) == counter
  {
    Be32RoundTrip(counter);
    assert BuildNonce(prefix, counter)[8..] == Be32(counter);
  }

  // ---------------------------------------------------------------------
  // The cipher object

  class SessionCipher {
    const sealing: Seal
    const opening: Open
    const noncePrefix: Prefix
    var counter: u32
    var lastRecvCounter: nat

    constructor (sealing: Seal, opening: Open, noncePrefix: Prefix)
      ensures this.sealing == sealing && this.opening == opening && this.noncePrefix == noncePrefix
      ensures counter == 0 && lastRecvCounter == NO_FRAME_YET
    {
      this.sealing, this.opening, this.noncePrefix := sealing, opening, noncePrefix;
      counter, lastRecvCounter := 0, NO_FRAME_YET;
    }

    method Encrypt(plaintext: seq<byte>) returns (r: Result<EncryptedFrame, SessionError>)
      modifies this`counter
      ensures counter == Bump(old(counter))
      ensures r == Sent(sealing, noncePrefix, old(counter), plaintext)
    {
      var count := counter;
      counter := if counter == 0xFFFF_FFFF then 0 else counter + 1;
      if count >= MAX_NONCE_COUNTER {
        return Err(NonceExhausted);
      }
      var nonce := BuildNonce(noncePrefix, count);
      var ciphertext := sealing(nonce, plaintext);
      if ciphertext.None? {
        return Err(EncryptionFailed);
      }
      return Ok(EncryptedFrame(nonce, ciphertext.value));
    }

    method Decrypt(frame: EncryptedFrame) returns (r: Result<seq<byte>, SessionError>)
      modifies this`lastRecvCounter
      ensures (r, lastRecvCounter) == Received(opening, old(lastRecvCounter), frame)
    {
      var count := CounterOf(frame.nonce);
      var last := lastRecvCounter;
      if last != NO_FRAME_YET && count <= last {
        return Err(ReplayedNonce);
      }
      var plaintext := opening(frame.nonce, frame.ciphertext);
      if plaintext.None? {
        return Err(DecryptionFailed);
      }
      lastRecvCounter := count;
      return Ok(plaintext.value);
    }
  }

  /** What an encryption with counter value `count` returns. */
  function Sent(sealing: Seal, prefix: Prefix, count: u32, plaintext: seq<byte>): Result<EncryptedFrame, SessionError> {
    if count >= MAX_NONCE_COUNTER then Err(NonceExhausted)
    else
      match sealing(BuildNonce(prefix, count), plaintext)
      case None => Err(EncryptionFailed)
      case Some(ciphertext) => Ok(EncryptedFrame(BuildNonce(prefix, count), ciphertext))
  }

  /** What decrypting a frame returns, and the highest accepted counter afterwards. */
  function Received(opening: Open, last: nat, frame: EncryptedFrame): (Result<seq<byte>, SessionError>, nat) {
    var count := CounterOf(frame.nonce);
    if last != NO_FRAME_YET && count <= last then (Err(ReplayedNonce), last)
    else
      match opening(frame.nonce, frame.ciphertext)
      case None => (Err(DecryptionFailed), last)
      case Some(plaintext) => (Ok(plaintext), count)
  }

  // ---------------------------------------------------------------------
  // Receiving

  function LastAfter(opening: Open, frames: seq<EncryptedFrame>): nat {
    if frames == [] then NO_FRAME_YET
    else Received(opening, LastAfter(opening, frames[..|frames|-1]), frames[|frames|-1]).1
  }

  /** Whether frame `i` is accepted when the frames are received in order. */
  predicate IsAccepted(opening: Open, frames: seq<EncryptedFrame>, i: nat)
    requires i < |frames|
  {
    Received(opening, LastAfter(opening, frames[..i]), frames[i]).0.Ok?
  }

  predicate Authentic(opening: Open, frame: EncryptedFrame) {
    opening(frame.nonce, frame.ciphertext).Some?
  }

  /** `last` is the greatest counter of an authentic frame, or the sentinel if there is none. */
  predicate IsMaximum(opening: Open, frames: seq<EncryptedFrame>, last: nat) {
    && (forall j :: 0 <= j < |frames| && Authentic(opening, frames[j]) ==>
          last != NO_FRAME_YET && CounterOf(frames[j].nonce) <= last)
    && (last != NO_FRAME_YET ==>
          exists j :: 0 <= j < |frames| && Authentic(opening, frames[j]) && CounterOf(frames[j].nonce) == last)
  }

  lemma {:induction false} LastIsMaximum(opening: Open, frames: seq<EncryptedFrame>)
    ensures IsMaximum(opening, frames, LastAfter(opening, frames))
  {
    if frames != [] {
      var init, f := frames[..|frames|-1], frames[|frames|-1];
      LastIsMaximum(opening, init);
      var before, after := LastAfter(opening, init), LastAfter(opening, frames);
      if after == before {
        if before != NO_FRAME_YET {
          var j :| 0 <= j < |init| && Authentic(opening, init[j]) && CounterOf(init[j].nonce) == before;
          assert frames[j] == init[j];
        }
      } else {
        assert frames[|frames|-1] == f && CounterOf(f.nonce) == after;
      }
      forall j | 0 <= j < |frames| && Authentic(opening, frames[j])
        ensures after != NO_FRAME_YET && CounterOf(frames[j].nonce) <= after
      {
        if j < |init| { assert init[j] == frames[j]; }
      }
    }
  }

  /** The accepted frames are exactly the strict left-to-right maxima among the authentic ones. */
  lemma AcceptedExactly(opening: Open, frames: seq<EncryptedFrame>, i: nat)
    requires i < |frames|
    ensures IsAccepted(opening, frames, i)
       <==> && Authentic(opening, frames[i])
            && forall j :: 0 <= j < i && Authentic(opening, frames[j]) ==>
                 CounterOf(frames[j].nonce) < CounterOf(frames[i].nonce)
  {
    var init := frames[..i];
    LastIsMaximum(opening, init);
    assert forall j :: 0 <= j < i ==> init[j] == frames[j];
  }

  // ---------------------------------------------------------------------
  // Sending

  /** The counter after one more call: the machine increment wraps around. */
  function Bump(counter: u32): u32 {
    if counter == 0xFFFF_FFFF then 0 else counter + 1
  }

  /** The counter call number `i` on a fresh cipher finds: that of the call before, bumped. */
  function CounterAt(i: nat): u32 {
    if i == 0 then 0 else Bump(CounterAt(i - 1))
  }

  /** It is the number of the call, modulo 2^32. */
  lemma {:induction false} CounterIsCallNumber(i: nat)
    ensures CounterAt(i) == i % 0x1_0000_0000
  {
    if i > 0 {
      CounterIsCallNumber(i - 1);
      BumpIsNext(i - 1, (i - 1) / 0x1_0000_0000, (i - 1) % 0x1_0000_0000);
    }
  }

  lemma BumpIsNext(i: nat, q: nat, r: u32)
    requires i == q * 0x1_0000_0000 + r
    ensures (i + 1) % 0x1_0000_0000 == Bump(r)
  {
    if r == 0xFFFF_FFFF { assert i + 1 == (q + 1) * 0x1_0000_0000; }
  }

  /** What call number `i` returns. */
  function CallResult(sealing: Seal, prefix: Prefix, i: nat,
                      plaintext: seq<byte>): Result<EncryptedFrame, SessionError> {
    Sent(sealing, prefix, CounterAt(i), plaintext)
  }

  /** Two successful calls share a nonce exactly when they are a multiple of 2^32 calls apart. */
  lemma NoncesRepeatExactly(sealing: Seal, prefix: Prefix, i: nat, j: nat, p: seq<byte>, q: seq<byte>)
    requires CallResult(sealing, prefix, i, p).Ok? && CallResult(sealing, prefix, j, q).Ok?
    ensures CallResult(sealing, prefix, i, p).value.nonce == CallResult(sealing, prefix, j, q).value.nonce
       <==> i % 0x1_0000_0000 == j % 0x1_0000_0000
  {
    CounterIsCallNumber(i);
    CounterIsCallNumber(j);
    CounterOfBuilt(prefix, CounterAt(i));
    CounterOfBuilt(prefix, CounterAt(j));
  }

  /** The first call to report exhaustion is number 2^32 - 2; the calls before it use their own number. */
  lemma ExhaustionComesFirst(sealing: Seal, prefix: Prefix, i: nat, p: seq<byte>)
    requires i <= MAX_NONCE_COUNTER
    ensures CallResult(sealing, prefix, i, p) == Err(NonceExhausted) <==> i == MAX_NONCE_COUNTER
    ensures CallResult(sealing, prefix, i, p).Ok? ==>
      CallResult(sealing, prefix, i, p).value.nonce == BuildNonce(prefix, i)
  {
    FirstCounters(i);
  }

  lemma FirstCounters(i: nat)
    requires i < 0x1_0000_0000
    ensures CounterAt(i) == i
  {
    CounterIsCallNumber(i);
  }

  // ---------------------------------------------------------------------
  // Both ends

  /** What was sealed can be opened again. */
  ghost predicate Inverse(sealing: Seal, opening: Open) {
    forall nonce, p :: sealing(nonce, p).Some? ==> opening(nonce, sealing(nonce, p).value) == Some(p)
  }

  /**
   `frames` is what arrives of the calls that encrypt `plaintexts` before any exhaustion: frame `m` is
   that of call `order[m]`, which succeeded. Calls may fail, frames may be lost, repeated and reordered.
   */
  predicate Arrivals(sealing: Seal, prefix: Prefix, plaintexts: seq<seq<byte>>, order: seq<nat>,
                     frames: seq<EncryptedFrame>) {
    && |plaintexts| <= MAX_NONCE_COUNTER && |order| == |frames|
    && forall m :: 0 <= m < |order| ==>
         order[m] < |plaintexts| && CallResult(sealing, prefix, order[m], plaintexts[order[m]]) == Ok(frames[m])
  }

  lemma ArrivedFrame(sealing: Seal, opening: Open, prefix: Prefix, plaintexts: seq<seq<byte>>, order: seq<nat>,
                     frames: seq<EncryptedFrame>, m: nat)
    requires Inverse(sealing, opening) && Arrivals(sealing, prefix, plaintexts, order, frames) && m < |frames|
    ensures CounterOf(frames[m].nonce) == order[m]
    ensures opening(frames[m].nonce, frames[m].ciphertext) == Some(plaintexts[order[m]])
  {
    ExhaustionComesFirst(sealing, prefix, order[m], plaintexts[order[m]]);
    CounterOfBuilt(prefix, order[m]);
    FirstCounters(order[m]);
  }

  /** What receiving frame `b` returns after the frames before it. */
  function ResultAt(opening: Open, frames: seq<EncryptedFrame>, b: nat): Result<seq<byte>, SessionError>
    requires b < |frames|
  {
    Received(opening, LastAfter(opening, frames[..b]), frames[b]).0
  }

  /** A frame yields the plaintext of its call exactly when it is newer than all before it, and else a replay error. */
  lemma DeliveryExactly(sealing: Seal, opening: Open, prefix: Prefix, plaintexts: seq<seq<byte>>, order: seq<nat>,
                        frames: seq<EncryptedFrame>, b: nat)
    requires Inverse(sealing, opening) && Arrivals(sealing, prefix, plaintexts, order, frames) && b < |frames|
    ensures ResultAt(opening, frames, b)
         == if forall m :: 0 <= m < b ==> order[m] < order[b] then Ok(plaintexts[order[b]]) else Err(ReplayedNonce)
  {
    AcceptedExactly(opening, frames, b);
    forall m | 0 <= m < |frames|
      ensures CounterOf(frames[m].nonce) == order[m] && Authentic(opening, frames[m])
    {
      ArrivedFrame(sealing, opening, prefix, plaintexts, order, frames, m);
    }
    ArrivedFrame(sealing, opening, prefix, plaintexts, order, frames, b);
    assert IsAccepted(opening, frames, b) <==> ResultAt(opening, frames, b).Ok?;
  }

  /** Accepted frames are in the order of sending and without repeats. */
  lemma DeliveryInOrder(sealing: Seal, opening: Open, prefix: Prefix, plaintexts: seq<seq<byte>>, order: seq<nat>,
                        frames: seq<EncryptedFrame>, a: nat, b: nat)
    requires Inverse(sealing, opening) && Arrivals(sealing, prefix, plaintexts, order, frames) && a < b < |frames|
    requires ResultAt(opening, frames, a).Ok? && ResultAt(opening, frames, b).Ok?
    ensures order[a] < order[b]
  {
    DeliveryExactly(sealing, opening, prefix, plaintexts, order, frames, b);
  }

  /** Delivered in order, and whatever was lost, every frame that arrives yields its plaintext. */
  lemma OrderedDeliveryYieldsAll(sealing: Seal, opening: Open, prefix: Prefix, plaintexts: seq<seq<byte>>,
                                 order: seq<nat>, frames: seq<EncryptedFrame>)
    requires Inverse(sealing, opening) && Arrivals(sealing, prefix, plaintexts, order, frames)
    requires forall i, j :: 0 <= i < j < |order| ==> order[i] < order[j]
    ensures forall b :: 0 <= b < |frames| ==> ResultAt(opening, frames, b) == Ok(plaintexts[order[b]])
  {
    forall b | 0 <= b < |frames| ensures ResultAt(opening, frames, b) == Ok(plaintexts[order[b]]) {
      DeliveryExactly(sealing, opening, prefix, plaintexts, order, frames, b);
    }
  }


  // ---------------------------------------------------------------------
  // In literal terms

  /** A nonce is the prefix followed by the counter, highest byte first. */
  lemma NonceFormat(prefix: Prefix, c: u32)
    ensures BuildNonce(prefix, c)
         == prefix + [c / 0x100_0000, c / 0x1_0000 % 0x100, c / 0x100 % 0x100, c % 0x100]
  {
    Be32Bytes(c);
  }

  /** Call number 4294967294 is the first to fail for lack of nonces. */
  lemma ExhaustedAt(sealing: Seal, prefix: Prefix, i: nat, p: seq<byte>)
    requires i <= 4_294_967_294
    ensures CallResult(sealing, prefix, i, p) == Err(NonceExhausted) <==> i == 4_294_967_294
  {
    ExhaustionComesFirst(sealing, prefix, i, p);
  }

  /** Why frame `b` is refused: it is no newer than an authentic one before it, or else it is not authentic. */
  lemma RefusedExactly(opening: Open, frames: seq<EncryptedFrame>, b: nat)
    requires b < |frames|
    ensures var stale := exists j :: 0 <= j < b && Authentic(opening, frames[j])
                                   && CounterOf(frames[b].nonce) <= CounterOf(frames[j].nonce);
      && (ResultAt(opening, frames, b) == Err(ReplayedNonce) <==> stale)
      && (ResultAt(opening, frames, b) == Err(DecryptionFailed) <==> !stale && !Authentic(opening, frames[b]))
      && (ResultAt(opening, frames, b).Ok? ==>
            ResultAt(opening, frames, b).value == opening(frames[b].nonce, frames[b].ciphertext).value)
  {
    LastIsMaximum(opening, frames[..b]);
    assert forall j :: 0 <= j < b ==> frames[..b][j] == frames[j];
  }
}
