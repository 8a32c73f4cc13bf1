/** Fixed-width unsigned integers and big-endian byte strings. */
module Bytes {

  type u8 = x: int | 0 <= x < 0x100
  type u16 = x: int | 0 <= x < 0x1_0000
  type u32 = x: int | 0 <= x < 0x1_0000_0000
  type u64 = x: int | 0 <= x < 0x1_0000_0000_0000_0000

  /** `u16::from_be_bytes` of two bytes. */
  function Word(hi: u8, lo: u8): (w: u16) {
    256 * (hi as int) + lo as int
  }

  /** 256 to the power `len`: the number of values that fit in `len` bytes. */
  function Radix(len: nat): (r: nat)
    ensures r >= 1
  {
    if len == 0 then 1 else 256 * Radix(len - 1)
  }

  /** `to_be_bytes`: the low `len` bytes of `n`, most significant first. */
  function ToBe(n: nat, len: nat): (s: seq<u8>)
    ensures |s| == len
  {
    if len == 0 then [] else ToBe(n / 256, len - 1) + [n % 256]
  }

  /** `from_be_bytes`. */
  function FromBe(s: seq<u8>): (n: nat)
    ensures n < Radix(|s|)
  {
    if s == [] then 0 else FromBe(s[..|s| - 1]) * 256 + s[|s| - 1]
  }

  lemma {:induction false} FromBeToBe(n: nat, len: nat)
    requires n < Radix(len)
    ensures FromBe(ToBe(n, len)) == n
  {
    if len > 0 {
      FromBeToBe(n / 256, len - 1);
      assert ToBe(n, len)[..len - 1] == ToBe(n / 256, len - 1);
    }
  }

  lemma LastDigit(q: nat, r: u8)
    ensures (q * 256 + r) / 256 == q && (q * 256 + r) % 256 == r
  {
  }

  lemma {:induction false} ToBeFromBe(s: seq<u8>)
    ensures ToBe(FromBe(s), |s|) == s
  {
    if s != [] {
      var front, last := s[..|s| - 1], s[|s| - 1];
      ToBeFromBe(front);
      LastDigit(FromBe(front), last);
      assert s == front + [last];
    }
  }
}
