/**
  Bitwise exclusive-or on bytes, defined bit by bit from the least
  significant end, with the algebra the checksum proofs rely on.
 */
module Bitwise {
  import opened FixedWidth

  function Pow2(n: nat): (p: nat)
    ensures p >= 1
  {
    if n == 0 then 1 else 2 * Pow2(n - 1)
  }

  /** Exclusive-or of the low `width` bits of `a` and `b`. */
  function XorBits(a: nat, b: nat, width: nat): (r: nat)
    ensures r < Pow2(width)
    decreases width
  {
    if width == 0 then 0
    else (if a % 2 == b % 2 then 0 else 1) + 2 * XorBits(a / 2, b / 2, width - 1)
  }

  /** The C operator `^` on two `uint8_t` values. */
  function Xor(a: byte, b: byte): byte
  {
    Pow2Of8();
    XorBits(a, b, 8)
  }

  lemma Pow2Of8()
    ensures Pow2(8) == 0x100
  {
  }

  lemma {:induction false} XorBitsCommutes(a: nat, b: nat, width: nat)
    ensures XorBits(a, b, width) == XorBits(b, a, width)
    decreases width
  {
    if width > 0 {
      XorBitsCommutes(a / 2, b / 2, width - 1);
    }
  }

  lemma {:induction false} XorBitsAssociates(a: nat, b: nat, c: nat, width: nat)
    ensures XorBits(XorBits(a, b, width), c, width) == XorBits(a, XorBits(b, c, width), width)
    decreases width
  {
    if width > 0 {
      var ab, bc := XorBits(a, b, width), XorBits(b, c, width);
      assert ab / 2 == XorBits(a / 2, b / 2, width - 1);
      assert bc / 2 == XorBits(b / 2, c / 2, width - 1);
      XorBitsAssociates(a / 2, b / 2, c / 2, width - 1);
    }
  }

  lemma {:induction false} XorBitsSelf(a: nat, width: nat)
    ensures XorBits(a, a, width) == 0
    decreases width
  {
    if width > 0 {
      XorBitsSelf(a / 2, width - 1);
    }
  }

  lemma {:induction false} XorBitsZero(a: nat, width: nat)
    requires a < Pow2(width)
    ensures XorBits(a, 0, width) == a
    decreases width
  {
    if width > 0 {
      XorBitsZero(a / 2, width - 1);
    }
  }

  /** Bytes under `^` form a group in which every element is its own inverse. */
  lemma XorAlgebra(a: byte, b: byte, c: byte)
    ensures Xor(a, b) == Xor(b, a)
    ensures Xor(Xor(a, b), c) == Xor(a, Xor(b, c))
    ensures Xor(a, 0) == a && Xor(0, a) == a
    ensures Xor(a, a) == 0
  {
    Pow2Of8();
    XorBitsCommutes(a, b, 8);
    XorBitsAssociates(a, b, c, 8);
    XorBitsZero(a, 8);
    XorBitsCommutes(a, 0, 8);
    XorBitsSelf(a, 8);
  }

  /** XOR-ing the same byte in twice undoes it, so `^ c` is injective. */
  lemma XorCancel(a: byte, b: byte, c: byte)
    ensures Xor(Xor(a, c), c) == a
    ensures Xor(a, c) == Xor(b, c) <==> a == b
  {
    XorAlgebra(a, c, c);
    XorAlgebra(c, 0, 0);
    XorAlgebra(a, 0, 0);
    XorAlgebra(b, c, c);
    XorAlgebra(b, 0, 0);
  }
}
