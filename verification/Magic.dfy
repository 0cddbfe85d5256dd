/** Unsigned machine words as natural numbers below 2^n, and their bitwise operations. */
module Bits {
  import opened Powers

  predicate Bit(w: nat, k: nat) {
    if k == 0 then w % 2 == 1 else Bit(w / 2, k - 1)
  }

  function And(a: nat, b: nat): nat {
    if a == 0 || b == 0 then 0
    else (if a % 2 == 1 && b % 2 == 1 then 1 else 0) + 2 * And(a / 2, b / 2)
  }

  function Or(a: nat, b: nat): nat {
    if a == 0 then b else if b == 0 then a
    else (if a % 2 == 1 || b % 2 == 1 then 1 else 0) + 2 * Or(a / 2, b / 2)
  }

  /** ~w for an n-bit word. */
  function Not(n: nat, w: nat): nat
    requires w < Pow2(n)
  {
    Pow2(n) - 1 - w
  }

  /** w + 1 for an n-bit word, which wraps to 0. */
  function Succ(n: nat, w: nat): nat
    requires w < Pow2(n)
  {
    if w + 1 == Pow2(n) then 0 else w + 1
  }

  /** -w for an n-bit word. */
  function Neg(n: nat, w: nat): nat
    requires w < Pow2(n)
  {
    if w == 0 then 0 else Pow2(n) - w
  }

  lemma {:induction false} BitOfZero(k: nat)
    ensures !Bit(0, k)
  {
    if k > 0 { BitOfZero(k - 1); }
  }

  lemma {:induction false} AndBits(a: nat, b: nat, k: nat)
    ensures Bit(And(a, b), k) <==> Bit(a, k) && Bit(b, k)
    ensures And(a, b) <= a
    decreases a
  {
    if a == 0 || b == 0 {
      BitOfZero(k);
    } else {
      assert And(a, b) / 2 == And(a / 2, b / 2);
      AndBits(a / 2, b / 2, if k > 0 then k - 1 else 0);
    }
  }

  lemma {:induction false} OrBits(a: nat, b: nat, k: nat)
    ensures Bit(Or(a, b), k) <==> Bit(a, k) || Bit(b, k)
    decreases a
  {
    if a == 0 || b == 0 {
      BitOfZero(k);
    } else {
      assert Or(a, b) / 2 == Or(a / 2, b / 2);
      OrBits(a / 2, b / 2, if k > 0 then k - 1 else 0);
    }
  }

  lemma {:induction false} OrBound(n: nat, a: nat, b: nat)
    requires a < Pow2(n) && b < Pow2(n)
    ensures Or(a, b) < Pow2(n)
  {
    if a != 0 && b != 0 { OrBound(n - 1, a / 2, b / 2); }
  }

  lemma {:induction false} NotBits(n: nat, w: nat, k: nat)
    requires w < Pow2(n) && k < n
    ensures Bit(Not(n, w), k) <==> !Bit(w, k)
  {
    assert Not(n, w) / 2 == Not(n - 1, w / 2);
    if k > 0 { NotBits(n - 1, w / 2, k - 1); }
  }

  lemma {:induction false} Pow2Bits(j: nat, k: nat)
    ensures Bit(Pow2(j), k) <==> j == k
  {
    if j == 0 {
      if k > 0 { BitOfZero(k - 1); }
    } else if k > 0 {
      Pow2Bits(j - 1, k - 1);
    }
  }

  lemma {:induction false} Pow2Less(j: nat, n: nat)
    requires j < n
    ensures Pow2(j) < Pow2(n)
  {
    if j < n - 1 { Pow2Less(j, n - 1); }
  }

  lemma {:induction false} BitsBound(n: nat, w: nat)
    requires w < Pow2(n)
    ensures forall k :: n <= k ==> !Bit(w, k)
  {
    if n == 0 {
      forall k: nat ensures !Bit(w, k) { BitOfZero(k); }
    } else {
      BitsBound(n - 1, w / 2);
      forall k | n <= k ensures !Bit(w, k) { assert !Bit(w / 2, k - 1); }
    }
  }

  // ----- isolating a bit

  /** Position of the rightmost 0 bit. */
  function LowClear(w: nat): nat {
    if w % 2 == 0 then 0 else 1 + LowClear(w / 2)
  }

  lemma {:induction false} LowClearIsLowest(w: nat)
    ensures !Bit(w, LowClear(w))
    ensures forall k :: 0 <= k < LowClear(w) ==> Bit(w, k)
  {
    if w % 2 == 1 {
      LowClearIsLowest(w / 2);
      forall k | 0 <= k < LowClear(w) ensures Bit(w, k) {
        if k > 0 { assert Bit(w / 2, k - 1); }
      }
    }
  }

  /** ~w & (w + 1) is the rightmost 0 bit as the sole 1, and 0 only for the full word. */
  lemma {:induction false} IsolateRightmostClear(n: nat, w: nat)
    requires w < Pow2(n)
    ensures w == Pow2(n) - 1 ==> And(Not(n, w), Succ(n, w)) == 0
    ensures w < Pow2(n) - 1 ==> LowClear(w) < n && And(Not(n, w), Succ(n, w)) == Pow2(LowClear(w))
  {
    if w < Pow2(n) - 1 {
      assert Not(n, w) / 2 == Not(n - 1, w / 2);
      if w % 2 == 0 {
        assert Succ(n, w) == w + 1;
        AndComplement(n - 1, w / 2);
        assert (w + 1) / 2 == w / 2;
      } else {
        IsolateRightmostClear(n - 1, w / 2);
        assert Succ(n, w) / 2 == Succ(n - 1, w / 2);
      }
    }
  }

  lemma {:induction false} AndComplement(n: nat, w: nat)
    requires w < Pow2(n)
    ensures And(Not(n, w), w) == 0 && And(w, Not(n, w)) == 0
  {
    if n > 0 {
      assert Not(n, w) / 2 == Not(n - 1, w / 2);
      AndComplement(n - 1, w / 2);
    }
  }

  lemma TwiceTimes(a: nat, b: nat)
    ensures 2 * (a * b) == (2 * a) * b
  {
  }

  /** w & -w keeps the rightmost 1 bit, the greatest power of two that divides w. */
  lemma {:induction false} IsolateRightmostSet(n: nat, w: nat) returns (k: nat, q: nat)
    requires 0 < w < Pow2(n)
    ensures k < n && And(w, Neg(n, w)) == Pow2(k) <= w
    ensures w == Pow2(k) * (2 * q + 1)
  {
    assert Neg(n, w) == Pow2(n) - w;
    if w % 2 == 1 {
      k, q := 0, w / 2;
      assert (Pow2(n) - w) / 2 == Not(n - 1, w / 2);
      AndComplement(n - 1, w / 2);
    } else {
      k, q := IsolateRightmostSet(n - 1, w / 2);
      TwiceTimes(Pow2(k), 2 * q + 1);
      assert Neg(n - 1, w / 2) == Pow2(n - 1) - w / 2;
      assert (Pow2(n) - w) / 2 == Pow2(n - 1) - w / 2;
      k := k + 1;
    }
  }
}

/** libdank/utils/magic.h: base-2 logarithms of powers of two by table. */
module Magic {
  import opened Bits
  import opened Powers

  /** The entries of the 67-element table; 127 fills the ones that no power of two reaches. */
  function Pow2Table(r: nat): nat {
    match r
    case 0 => 127 case 1 => 0 case 2 => 1 case 3 => 39 case 4 => 2 case 5 => 15 case 6 => 40 case 7 => 23
    case 8 => 3 case 9 => 12 case 10 => 16 case 11 => 59 case 12 => 41 case 13 => 19 case 14 => 24 case 15 => 54
    case 16 => 4 case 17 => 127 case 18 => 13 case 19 => 10 case 20 => 17 case 21 => 62 case 22 => 60 case 23 => 28
    case 24 => 42 case 25 => 30 case 26 => 20 case 27 => 51 case 28 => 25 case 29 => 44 case 30 => 55 case 31 => 47
    case 32 => 5 case 33 => 32 case 34 => 127 case 35 => 38 case 36 => 14 case 37 => 22 case 38 => 11 case 39 => 58
    case 40 => 18 case 41 => 53 case 42 => 63 case 43 => 9 case 44 => 61 case 45 => 27 case 46 => 29 case 47 => 50
    case 48 => 43 case 49 => 46 case 50 => 31 case 51 => 37 case 52 => 21 case 53 => 57 case 54 => 52 case 55 => 8
    case 56 => 26 case 57 => 49 case 58 => 45 case 59 => 36 case 60 => 56 case 61 => 7 case 62 => 48 case 63 => 35
    case 64 => 6 case 65 => 34 case 66 => 33
    case _ => 127
  }

  /** The position of the one bit set in n. */
  function UintLog2(n: nat): nat {
    Pow2Table(n % 67)
  }

  /** 2 generates the residues modulo 67, and doubling steps to the next entry. */
  lemma TableDoubles(r: nat)
    requires r < 67 && Pow2Table(r) < 63
    ensures Pow2Table(if r < 34 then 2 * r else 2 * r - 67) == Pow2Table(r) + 1
  {
  }

  lemma DoubledResidue(n: nat)
    ensures (2 * n) % 67 == if n % 67 < 34 then 2 * (n % 67) else 2 * (n % 67) - 67
  {
    var r, q := n % 67, n / 67;
    if r < 34 { ModIs(2 * n, 2 * q, 2 * r); } else { ModIs(2 * n, 2 * q + 1, 2 * r - 67); }
  }

  lemma ModIs(n: nat, q: nat, r: nat)
    requires r < 67 && n == 67 * q + r
    ensures n % 67 == r
  {
  }

  /** The table inverts 2^k for every bit of a 64-bit word. */
  lemma {:induction false} Log2OfPow2(k: nat)
    requires k < 64
    ensures UintLog2(Pow2(k)) == k
  {
    if k > 0 {
      Log2OfPow2(k - 1);
      TableDoubles(Pow2(k - 1) % 67);
      DoubledResidue(Pow2(k - 1));
    }
  }
}
