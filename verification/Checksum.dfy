/**
 The Internet checksum of RFC 1071: the one's-complement sum of 16-bit words, its folding,
 and why a stored checksum makes the whole verify.
 */
module Checksum {
  import opened Bytes

  /** Sum of the big-endian words of `data`; an odd last byte is padded with zero. */
  function WordSum(data: seq<byte>): nat {
    if |data| == 0 then 0
    else if |data| == 1 then data[0] * 256
    else Word(data[0], data[1]) + WordSum(data[2..])
  }

  /** End-around carry until the sum fits in 16 bits. */
  function Fold(sum: nat): (r: u16)
    ensures r % 65535 == sum % 65535
    ensures r == 0 <==> sum == 0
  {
    if sum < 0x1_0000 then sum
    else
      assert sum == sum / 0x1_0000 * 65535 + (sum / 0x1_0000 + sum % 0x1_0000);
      ModMultiple(sum / 0x1_0000 + sum % 0x1_0000, sum / 0x1_0000);
      Fold(sum % 0x1_0000 + sum / 0x1_0000)
  }

  lemma ModMultiple(a: nat, k: nat)
    ensures (k * 65535 + a) % 65535 == a % 65535
  {
  }

  /** A receiver accepts data whose folded sum is all ones. */
  predicate Verifies(data: seq<byte>) {
    Fold(WordSum(data)) == 0xFFFF
  }

  /** Write two bytes into `data` at `at`. */
  function Put16(data: seq<byte>, at: nat, w: u16): (r: seq<byte>)
    requires at + 2 <= |data|
    ensures |r| == |data| && r[at] == w / 256 && r[at + 1] == w % 256
    ensures forall i :: 0 <= i < |data| && i != at && i != at + 1 ==> r[i] == data[i]
  {
    data[at := w / 256][at + 1 := w % 256]
  }

  /** The complement of the folded sum. */
  function ChecksumOf(data: seq<byte>): u16 {
    0xFFFF - Fold(WordSum(data))
  }

  lemma {:induction false} WordSumAppend(a: seq<byte>, b: seq<byte>)
    requires |a| % 2 == 0
    ensures WordSum(a + b) == WordSum(a) + WordSum(b)
  {
    if |a| == 0 {
      assert a + b == b;
    } else {
      WordSumAppend(a[2..], b);
      assert (a + b)[2..] == a[2..] + b;
    }
  }

  /** Storing a word in a zeroed, word-aligned field adds it to the sum. */
  lemma StoredWordAdds(data: seq<byte>, at: nat, w: u16)
    requires at + 2 <= |data| && at % 2 == 0
    ensures WordSum(Put16(data, at, w)) == WordSum(Put16(data, at, 0)) + w
  {
    forall v: u16 ensures WordSum(Put16(data, at, v)) == WordSum(data[..at]) + v + WordSum(data[at+2..]) {
      var word := [v / 256, v % 256];
      assert Put16(data, at, v) == data[..at] + (word + data[at+2..]);
      WordSumAppend(data[..at], word + data[at+2..]);
      WordSumAppend(word, data[at+2..]);
      assert WordSum(word) == v + WordSum(word[2..]);
    }
  }

  /** With its checksum stored in a word-aligned field, data verifies. */
  lemma StoredChecksumVerifies(data: seq<byte>, at: nat, zeroed: seq<byte>, stored: seq<byte>)
    requires at + 2 <= |data| && at % 2 == 0
    requires zeroed == Put16(data, at, 0) && stored == Put16(data, at, ChecksumOf(zeroed))
    ensures Verifies(stored)
  {
    StoredWordAdds(data, at, ChecksumOf(zeroed));
    SumWithChecksum(WordSum(zeroed), Fold(WordSum(zeroed)));
    FoldOfMultiple(WordSum(stored));
  }

  lemma SumWithChecksum(sum: nat, folded: nat)
    requires folded % 65535 == sum % 65535 && folded <= 0xFFFF && (folded == 0 <==> sum == 0)
    ensures (sum + (0xFFFF - folded)) % 65535 == 0 && sum + (0xFFFF - folded) > 0
  {
    var rest := sum % 65535;
    var q, p := sum / 65535, folded / 65535;
    assert sum == q * 65535 + rest && folded == p * 65535 + rest;
    ModMultiple(0, q - p + 1);
  }

  lemma FoldOfMultiple(total: nat)
    requires total % 65535 == 0 && total > 0
    ensures Fold(total) == 0xFFFF
  {
    var r: nat := Fold(total);
    assert r % 65535 == 0 && 0 < r < 0x1_0000;
  }

  /** Data verifies exactly when its sum is a positive multiple of 65535. */
  lemma VerifiesExactly(data: seq<byte>)
    ensures Verifies(data) <==> WordSum(data) % 65535 == 0 && WordSum(data) > 0
  {
    if WordSum(data) % 65535 == 0 && WordSum(data) > 0 { FoldOfMultiple(WordSum(data)); }
  }

  /** The sum of up to 131074 bytes fits in 32 bits. */
  lemma {:induction false} WordSumBound(data: seq<byte>)
    ensures WordSum(data) <= 65535 * ((|data| + 1) / 2)
  {
    if |data| > 1 { WordSumBound(data[2..]); }
  }

  /** The summing loop; within 131074 bytes its 32-bit accumulator cannot overflow. */
  method OnesComplementSum(data: seq<byte>) returns (sum: u32)
    requires |data| <= 131074
    ensures sum == WordSum(data)
  {
    WordSumBound(data);
    sum := 0;
    var i := 0;
    while i + 1 < |data|
      invariant 0 <= i <= |data| && i % 2 == 0
      invariant sum + WordSum(data[i..]) == WordSum(data)
    {
      assert data[i..][2..] == data[i+2..];
      sum := sum + Word(data[i], data[i+1]);
      i := i + 2;
    }
    if i < |data| {
      sum := sum + Word(data[i], 0);
    }
  }

  /** The folding loop. */
  method FoldChecksum(sum: u32) returns (checksum: u16)
    ensures checksum == 0xFFFF - Fold(sum)
  {
    var s: u32 := sum;
    while s / 0x1_0000 != 0
      invariant Fold(s) == Fold(sum)
      decreases s
    {
      s := s % 0x1_0000 + s / 0x1_0000;
    }
    checksum := 0xFFFF - s;
  }


  /** The same sum byte by byte: bytes at even positions count 256 times, those at odd positions once. */
  function ByteSum(data: seq<byte>): nat {
    if data == [] then 0
    else
      var i := |data| - 1;
      ByteSum(data[..i]) + if i % 2 == 0 then 0x100 * data[i] else data[i] as nat
  }

  lemma {:induction false} ByteSumFromFront(hi: byte, lo: byte, data: seq<byte>)
    ensures ByteSum([hi, lo] + data) == 0x100 * hi + lo + ByteSum(data)
  {
    var whole := [hi, lo] + data;
    if data == [] {
      assert whole == [hi, lo] && whole[..1] == [hi] && whole[..1][..0] == [];
      assert ByteSum([hi]) == 0x100 * hi;
    } else {
      assert whole[..|whole|-1] == [hi, lo] + data[..|data|-1];
      ByteSumFromFront(hi, lo, data[..|data|-1]);
    }
  }

  lemma {:induction false} WordSumIsByteSum(data: seq<byte>)
    ensures WordSum(data) == ByteSum(data)
  {
    if |data| == 1 {
      assert data[..0] == [];
    } else if |data| >= 2 {
      WordSumIsByteSum(data[2..]);
      assert data == [data[0], data[1]] + data[2..];
      ByteSumFromFront(data[0], data[1], data[2..]);
    }
  }

  lemma FoldOnce(sum: nat)
    requires 0x1_0000 <= sum && sum / 0x1_0000 + sum % 0x1_0000 < 0x1_0000
    ensures Fold(sum) == sum / 0x1_0000 + sum % 0x1_0000
  {
  }

  /** The worked example of section 3 of RFC 1071. */
  lemma WorkedExample(data: seq<byte>)
    requires data == [0x00, 0x01, 0xf2, 0x03, 0xf4, 0xf5, 0xf6, 0xf7]
    ensures WordSum(data) == 0x2_ddf0 && Fold(WordSum(data)) == 0xddf2 && ChecksumOf(data) == 0x220d
  {
    assert data[6..] == [0xf6, 0xf7] && data[6..][2..] == [];
    assert data[4..][2..] == data[6..] && data[2..][2..] == data[4..];
    assert WordSum(data[6..]) == 0xf6f7;
    assert WordSum(data[4..]) == 0xf4f5 + 0xf6f7;
    assert WordSum(data[2..]) == 0xf203 + 0xf4f5 + 0xf6f7;
    FoldOnce(0x2_ddf0);
  }
}
