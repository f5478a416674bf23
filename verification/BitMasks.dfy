/** Bitwise "and" and "or" of natural numbers, bit by bit, and what they come to for the masks of a
    packed word. */
module BitMasks {
  import opened Common

  function And(a: nat, b: nat): nat
    decreases a
  {
    if a == 0 then 0 else 2 * And(a / 2, b / 2) + if a % 2 == 1 && b % 2 == 1 then 1 else 0
  }

  function Or(a: nat, b: nat): nat
    decreases a + b
  {
    if a + b == 0 then 0 else 2 * Or(a / 2, b / 2) + if a % 2 == 1 || b % 2 == 1 then 1 else 0
  }

  function Pow2(k: nat): (p: nat)
    ensures p > 0
  {
    if k == 0 then 1 else 2 * Pow2(k - 1)
  }

  /** Bit k of w, and the number that its bits below k make. */
  function Bit(w: nat, k: nat): bool {
    if k == 0 then w % 2 == 1 else Bit(w / 2, k - 1)
  }

  function Low(w: nat, k: nat): nat {
    if k == 0 then 0 else 2 * Low(w / 2, k - 1) + w % 2
  }

  // ---------------------------------------------------------------- masks

  lemma {:induction false} AndZero(w: nat)
    ensures And(w, 0) == 0
  {
    if w > 0 {
      AndZero(w / 2);
    }
  }

  lemma {:induction false} LowZero(k: nat)
    ensures Low(0, k) == 0 && !Bit(0, k)
  {
    if k > 0 {
      LowZero(k - 1);
    }
  }

  /** Masking with 2^k - 1 keeps the bits below k. */
  lemma {:induction false} AndLow(w: nat, k: nat)
    ensures And(w, Pow2(k) - 1) == Low(w, k)
    decreases k
  {
    if w == 0 {
      LowZero(k);
    } else if k == 0 {
      AndZero(w);
    } else {
      AndLow(w / 2, k - 1);
      assert (Pow2(k) - 1) / 2 == Pow2(k - 1) - 1 && (Pow2(k) - 1) % 2 == 1;
    }
  }

  /** Masking with 2^k reads bit k. */
  lemma {:induction false} AndBit(w: nat, k: nat)
    ensures And(w, Pow2(k)) == if Bit(w, k) then Pow2(k) else 0
    decreases k
  {
    if w == 0 {
      LowZero(k);
    } else if k == 0 {
      AndZero(w / 2);
    } else {
      AndBit(w / 2, k - 1);
      assert Pow2(k) / 2 == Pow2(k - 1) && Pow2(k) % 2 == 0;
    }
  }

  lemma {:induction false} OrZero(w: nat)
    ensures Or(w, 0) == w
  {
    if w > 0 {
      OrZero(w / 2);
    }
  }

  /** Setting bit k adds 2^k unless it is set. */
  lemma {:induction false} OrBit(w: nat, k: nat)
    ensures Or(w, Pow2(k)) == if Bit(w, k) then w else w + Pow2(k)
    decreases k
  {
    if k == 0 {
      OrZero(w / 2);
    } else {
      OrBit(w / 2, k - 1);
      assert Pow2(k) / 2 == Pow2(k - 1) && Pow2(k) % 2 == 0;
    }
  }

  /** Masking with the complement of m, among k bits, takes away what masking with m keeps. */
  lemma {:induction false} AndComplement(w: nat, m: nat, k: nat)
    requires w < Pow2(k) && m < Pow2(k)
    ensures And(w, Pow2(k) - 1 - m) == w - And(w, m)
    decreases k
  {
    if w > 0 {
      var c := Pow2(k) - 1 - m;
      assert c / 2 == Pow2(k - 1) - 1 - m / 2 && c % 2 == 1 - m % 2;
      AndComplement(w / 2, m / 2, k - 1);
    }
  }

  // ---------------------------------------------------------------- remainders

  lemma HalfMod(w: nat, p: nat)
    requires p > 0
    ensures w % (2 * p) == 2 * (w / 2 % p) + w % 2
    ensures w / (2 * p) == w / 2 / p
  {
    var h := w / 2;
    assert w == (h / p) * (2 * p) + (2 * (h % p) + w % 2) by {
      assert h == (h / p) * p + h % p;
    }
    ModUnique(w, 2 * p, h / p, 2 * (h % p) + w % 2);
  }

  /** The bits below k are the remainder by 2^k, and bit k is the parity of the quotient. */
  lemma {:induction false} BitsAreRemainder(w: nat, k: nat)
    ensures Low(w, k) == w % Pow2(k)
    ensures Bit(w, k) <==> w / Pow2(k) % 2 == 1
    decreases k
  {
    if k > 0 {
      BitsAreRemainder(w / 2, k - 1);
      HalfMod(w, Pow2(k - 1));
    }
  }

  /** Setting a bit above all that are set. */
  lemma OrAbove(w: nat, k: nat)
    requires w < Pow2(k)
    ensures Or(w, Pow2(k)) == w + Pow2(k)
  {
    OrBit(w, k);
    BitsAreRemainder(w, k);
  }
}
