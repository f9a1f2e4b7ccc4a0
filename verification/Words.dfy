/** The fixed-width unsigned numbers of the C code, and an optional value. */
module Words {

  const UINT32 := 0x1_0000_0000

  type Word = w: nat | w < UINT32
  type Octet = b: nat | b < 256

  /** What is left of a number in 32 bits. */
  function Wrap(n: int): Word {
    n % UINT32
  }

  /** `n++` on a 32-bit counter. */
  function Next(n: Word): Word {
    if n == 0xFFFF_FFFF then 0 else n + 1
  }

  /** `1 << k`. */
  function Pow2(k: nat): (p: nat)
    ensures p > 0
  {
    if k == 0 then 1 else 2 * Pow2(k - 1)
  }

  datatype Option<+T> = None | Some(value: T)

  /** Division with remainder has one answer. */
  lemma {:induction false} QuotientIs(n: int, d: nat, q: int, r: nat)
    requires d > 0 && n == d * q + r && r < d
    ensures n / d == q && n % d == r
  {
    var e := n / d - q;
    assert d * e == r - n % d;
    assert e >= 1 ==> d * e >= d * 1;
    assert e <= -1 ==> d * e <= d * -1;
  }
}
