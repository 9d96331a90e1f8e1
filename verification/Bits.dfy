/** Exclusive-or on non-negative integers, for the two places where the program
    relies on it: swapping two fields in place and the page checksum. */
module Bits {

  /** Bitwise exclusive-or of the low `n` bits of `a` and `b`. */
  function Xor(a: nat, b: nat, n: nat): nat {
    if n == 0 then 0
    else (a + b) % 2 + 2 * Xor(a / 2, b / 2, n - 1)
  }

  function Pow2(n: nat): nat {
    if n == 0 then 1 else 2 * Pow2(n - 1)
  }

  lemma {:induction false} XorBound(a: nat, b: nat, n: nat)
    ensures Xor(a, b, n) < Pow2(n)
  {
    if n > 0 {
      XorBound(a / 2, b / 2, n - 1);
    }
  }

  lemma Parity(a: nat, b: nat, rest: nat)
    ensures ((a + b) % 2 + 2 * rest + b) % 2 == a % 2
  {
    assert a % 2 == 0 || a % 2 == 1;
  }

  /** Applying the same mask twice gives the first operand back. */
  lemma {:induction false} XorCancels(a: nat, b: nat, n: nat)
    requires a < Pow2(n)
    ensures Xor(Xor(a, b, n), b, n) == a
  {
    if n > 0 {
      var rest := Xor(a / 2, b / 2, n - 1);
      var x := (a + b) % 2 + 2 * rest;
      assert x / 2 == rest;
      XorCancels(a / 2, b / 2, n - 1);
      assert (x + b) % 2 == a % 2 by { Parity(a, b, rest); }
    }
  }

  lemma {:induction false} XorCommutes(a: nat, b: nat, n: nat)
    ensures Xor(a, b, n) == Xor(b, a, n)
  {
    if n > 0 {
      XorCommutes(a / 2, b / 2, n - 1);
    }
  }

  /** The three-step exclusive-or exchange leaves the two values swapped. */
  lemma {:induction false} XorExchange(a: nat, b: nat, n: nat)
    requires a < Pow2(n) && b < Pow2(n)
    ensures var a1 := Xor(a, b, n); var b1 := Xor(b, a1, n); var a2 := Xor(a1, b1, n);
            b1 == a && a2 == b
  {
    var a1 := Xor(a, b, n);
    XorCancels(a, b, n);
    XorCommutes(a1, b, n);
    XorCommutes(a, b, n);
    XorCancels(b, a, n);
  }

  predicate Bit(a: nat, k: nat) { if k == 0 then a % 2 == 1 else Bit(a / 2, k - 1) }

  /** Each bit of the exclusive-or is set exactly if one operand has it and the
      other has not. */
  lemma {:induction false} XorBits(a: nat, b: nat, n: nat, k: nat)
    requires k < n
    ensures Bit(Xor(a, b, n), k) <==> (Bit(a, k) <==> !Bit(b, k))
  {
    var rest := Xor(a / 2, b / 2, n - 1);
    assert Xor(a, b, n) == (a + b) % 2 + 2 * rest;
    LowBit(a, b, rest);
    if k > 0 {
      XorBits(a / 2, b / 2, n - 1, k - 1);
      assert Bit(Xor(a, b, n), k) == Bit(rest, k - 1);
    }
    hide Xor;
  }

  lemma LowBit(a: nat, b: nat, rest: nat)
    ensures var x := (a + b) % 2 + 2 * rest; x / 2 == rest && (x % 2 == 1 <==> (a % 2 == 1 <==> b % 2 != 1))
  {
  }

  lemma Pow2Words()
    ensures Pow2(16) == 0x1_0000 && Pow2(32) == 0x1_0000_0000
  {
    assert Pow2(4) == 16;
    assert Pow2(8) == 256;
    assert Pow2(12) == 4096;
    assert Pow2(16) == 0x1_0000;
    assert Pow2(20) == 0x10_0000;
    assert Pow2(24) == 0x100_0000;
    assert Pow2(28) == 0x1000_0000;
  }
}
