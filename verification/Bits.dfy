/** Unsigned 32-bit words as numbers, with the C bitwise operators written out digit by digit. */
module Bits {
  import opened Words

  /** Digit k of a word: `(w >> k) & 1`. */
  predicate Bit(w: nat, k: nat)
  {
    if k == 0 then w % 2 == 1 else Bit(w / 2, k - 1)
  }

  /** C `w & m`. */
  function And(w: nat, m: nat): nat
  {
    if w == 0 then 0 else 2 * And(w / 2, m / 2) + (if w % 2 == 1 && m % 2 == 1 then 1 else 0)
  }

  /** C `w | m`. */
  function Or(w: nat, m: nat): nat
    decreases w + m
  {
    if w == 0 && m == 0 then 0 else 2 * Or(w / 2, m / 2) + (if w % 2 == 1 || m % 2 == 1 then 1 else 0)
  }

  /** C `w & ~m`. */
  function AndNot(w: nat, m: nat): nat
  {
    if w == 0 then 0 else 2 * AndNot(w / 2, m / 2) + (if w % 2 == 1 && m % 2 == 0 then 1 else 0)
  }

  lemma {:induction false} OrHalves(w: nat, m: nat)
    ensures Or(w, m) / 2 == Or(w / 2, m / 2)
    ensures Or(w, m) % 2 == 1 <==> w % 2 == 1 || m % 2 == 1
  {
  }

  lemma {:induction false} AndNotHalves(w: nat, m: nat)
    ensures AndNot(w, m) / 2 == AndNot(w / 2, m / 2)
    ensures AndNot(w, m) % 2 == 1 <==> w % 2 == 1 && m % 2 == 0
  {
  }

  lemma {:induction false} OrBit(w: nat, m: nat, k: nat)
    ensures Bit(Or(w, m), k) <==> Bit(w, k) || Bit(m, k)
    decreases k
  {
    OrHalves(w, m);
    if k > 0 {
      OrBit(w / 2, m / 2, k - 1);
    }
  }

  lemma {:induction false} AndNotBit(w: nat, m: nat, k: nat)
    ensures Bit(AndNot(w, m), k) <==> Bit(w, k) && !Bit(m, k)
    decreases k
  {
    AndNotHalves(w, m);
    if k > 0 {
      AndNotBit(w / 2, m / 2, k - 1);
    }
  }

  lemma {:induction false} ZeroBit(k: nat)
    ensures !Bit(0, k)
  {
    if k > 0 {
      ZeroBit(k - 1);
    }
  }

  /** The test the source makes, `word & (1 << k)`, reads digit k. */
  lemma {:induction false} TestBit(w: nat, k: nat)
    ensures And(w, Pow2(k)) != 0 <==> Bit(w, k)
    decreases k
  {
    if w == 0 {
      ZeroBit(k);
    } else if k > 0 {
      TestBit(w / 2, k - 1);
    } else {
      AndZero(w / 2);
    }
  }

  lemma {:induction false} AndZero(w: nat)
    ensures And(w, 0) == 0
  {
    if w != 0 {
      AndZero(w / 2);
    }
  }

  /** The mask `((1 << e) - 1) - ((1 << s) - 1)` selects exactly the digits s .. e-1. */
  lemma {:induction false} MaskBit(s: nat, e: nat, k: nat)
    requires s <= e
    ensures Pow2(s) <= Pow2(e)
    ensures Bit(Pow2(e) - Pow2(s), k) <==> s <= k < e
    decreases e
  {
    if s == e {
      ZeroBit(k);
    } else if s > 0 {
      MaskBit(s - 1, e - 1, if k > 0 then k - 1 else 0);
      assert Pow2(e) - Pow2(s) == 2 * (Pow2(e - 1) - Pow2(s - 1));
    } else {
      MaskBit(0, e - 1, if k > 0 then k - 1 else 0);
      assert Pow2(e) - 1 == 2 * (Pow2(e - 1) - 1) + 1;
    }
  }

  /** Updates through a mask stay inside the word. */
  lemma {:induction false} UpdateRange(w: nat, m: nat, k: nat)
    requires w < Pow2(k) && m < Pow2(k)
    ensures Or(w, m) < Pow2(k) && AndNot(w, m) < Pow2(k)
    decreases k
  {
    if k > 0 {
      UpdateRange(w / 2, m / 2, k - 1);
    }
  }

  lemma {:induction false} WordIsPow2()
    ensures Pow2(32) == UINT32
  {
    assert Pow2(8) == 0x100;
    assert Pow2(16) == 0x1_0000;
    assert Pow2(24) == 0x100_0000;
  }
}
