/** Bytes, and the big-endian integers of the wire formats. */
module Bytes {

  type byte = b: nat | b < 256
  type u16 = w: nat | w < 0x1_0000
  type u32 = w: nat | w < 0x1_0000_0000

  /** The word made of two bytes. */
  function Word(hi: byte, lo: byte): u16 {
    hi * 256 + lo
  }

  /** The number of values that fit `n` bytes. */
  function Range(n: nat): nat {
    if n == 0 then 1 else 256 * Range(n - 1)
  }

  /** The lowest `n` bytes of `w`, highest first. */
  function Digits(w: nat, n: nat): (s: seq<byte>)
    ensures |s| == n
  {
    if n == 0 then [] else Digits(w / 256, n - 1) + [w % 256]
  }

  function Value(s: seq<byte>): (v: nat)
    ensures v < Range(|s|)
  {
    if s == [] then 0 else Value(s[..|s|-1]) * 256 + s[|s|-1]
  }

  lemma {:induction false} DigitsRoundTrip(w: nat, n: nat)
    requires w < Range(n)
    ensures Value(Digits(w, n)) == w
  {
    if n > 0 {
      DigitsRoundTrip(w / 256, n - 1);
      assert Digits(w, n)[..n-1] == Digits(w / 256, n - 1);
    }
  }

  function Be16(w: u16): (s: seq<byte>)
    ensures |s| == 2
  {
    Digits(w, 2)
  }

  function FromBe16(s: seq<byte>): u16
    requires |s| == 2
  {
    assert Range(2) == 0x1_0000;
    Value(s)
  }

  lemma Be16RoundTrip(w: u16)
    ensures FromBe16(Be16(w)) == w
  {
    assert Range(2) == 0x1_0000;
    DigitsRoundTrip(w, 2);
  }

  function Be32(w: u32): (s: seq<byte>)
    ensures |s| == 4
  {
    Digits(w, 4)
  }

  function FromBe32(s: seq<byte>): u32
    requires |s| == 4
  {
    assert Range(4) == 0x1_0000_0000;
    Value(s)
  }

  lemma Be32RoundTrip(w: u32)
    ensures FromBe32(Be32(w)) == w
  {
    assert Range(4) == 0x1_0000_0000;
    DigitsRoundTrip(w, 4);
  }


  /** Highest byte first. */
  lemma Be16Bytes(w: u16)
    ensures Be16(w) == [w / 0x100, w % 0x100]
  {
    assert Digits(w / 256, 1) == Digits(w / 256 / 256, 0) + [w / 256 % 256];
    assert w / 256 % 256 == w / 256;
  }

  lemma DigitsOfFour(w: nat)
    ensures Digits(w, 4) == [w / 256 / 256 / 256 % 256, w / 256 / 256 % 256, w / 256 % 256, w % 256]
  {
    var w1, w2, w3 := w / 256, w / 256 / 256, w / 256 / 256 / 256;
    assert Digits(w3, 1) == Digits(w3 / 256, 0) + [w3 % 256] == [w3 % 256];
    assert Digits(w2, 2) == [w3 % 256] + [w2 % 256];
    assert Digits(w1, 3) == [w3 % 256, w2 % 256] + [w1 % 256];
  }

  lemma Be32Bytes(w: u32)
    ensures Be32(w) == [w / 0x100_0000, w / 0x1_0000 % 0x100, w / 0x100 % 0x100, w % 0x100]
  {
    DigitsOfFour(w);
    assert w / 256 / 256 == w / 0x1_0000 && w / 256 / 256 / 256 == w / 0x100_0000;
  }
}
