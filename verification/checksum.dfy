/**
  The 8-bit XOR checksum of the packet codec: every covered byte is folded
  into an accumulator with exclusive-or, starting from 0.
 */
module Checksum {
  import opened FixedWidth
  import opened Bitwise

  /** XOR of all bytes of `s`, folded from the left as the firmware's loop does. */
  function XorFold(s: seq<byte>): byte
  {
    if |s| == 0 then 0 else Xor(XorFold(s[..|s| - 1]), s[|s| - 1])
  }

  /** XOR of all bytes of `s`, folded from the right: a reference definition that visits the bytes in the other order. */
  function XorFoldRight(s: seq<byte>): byte
  {
    if |s| == 0 then 0 else Xor(s[0], XorFoldRight(s[1..]))
  }

  /**
    The checksum loop over the first `length` bytes of `data`. The firmware
    reads raw memory; here the memory is the sequence `data`, which must hold
    at least `length` bytes.
   */
  method CalculateChecksum(data: seq<byte>, length: nat) returns (checksum: byte)
    requires length <= |data|
    ensures checksum == XorFold(data[..length])
    ensures checksum == XorFoldRight(data[..length])
  {
    checksum := 0;
    var i := 0;
    while i < length
      invariant 0 <= i <= length
      invariant checksum == XorFold(data[..i])
    {
      assert data[..i + 1][..i] == data[..i];
      checksum := Xor(checksum, data[i]);
      i := i + 1;
    }
    XorFoldsAgree(data[..length]);
  }

  /** The checksum of a concatenation is the XOR of the two parts' checksums; the empty input has checksum 0. */
  lemma {:induction false} XorFoldAppend(a: seq<byte>, b: seq<byte>)
    ensures XorFold([]) == 0
    ensures XorFold(a + b) == Xor(XorFold(a), XorFold(b))
    decreases |b|
  {
    if |b| == 0 {
      assert a + b == a;
      XorAlgebra(XorFold(a), 0, 0);
    } else {
      var b' := b[..|b| - 1];
      assert (a + b)[..|a + b| - 1] == a + b';
      XorFoldAppend(a, b');
      XorAlgebra(XorFold(a), XorFold(b'), b[|b| - 1]);
    }
  }

  /** Folding from the left and from the right give the same byte. */
  lemma {:induction false} XorFoldsAgree(s: seq<byte>)
    ensures XorFold(s) == XorFoldRight(s)
    decreases |s|
  {
    if |s| > 0 {
      assert s == [s[0]] + s[1..];
      XorFoldAppend([s[0]], s[1..]);
      assert [s[0]][..0] == [];
      XorAlgebra(s[0], 0, 0);
      XorFoldsAgree(s[1..]);
    }
  }

  /** Replacing `u` by `v` between two fixed parts changes an XOR by `u ^ v`. */
  lemma ReplaceMiddle(p: byte, u: byte, v: byte, q: byte)
    ensures Xor(Xor(p, v), q) == Xor(Xor(Xor(p, u), q), Xor(u, v))
  {
    var d := Xor(u, v);
    XorAlgebra(Xor(p, u), q, d);
    XorAlgebra(q, d, 0);
    XorAlgebra(Xor(p, u), d, q);
    XorAlgebra(p, u, d);
    XorAlgebra(u, u, v);
    XorAlgebra(v, 0, 0);
  }

  /** Overwriting one byte changes the checksum by exactly the XOR of the old and the new byte. */
  lemma XorFoldUpdate(s: seq<byte>, i: nat, v: byte)
    requires i < |s|
    ensures XorFold(s[i := v]) == Xor(XorFold(s), Xor(s[i], v))
  {
    var pre, post := s[..i], s[i + 1..];
    assert s == pre + [s[i]] + post;
    assert s[i := v] == pre + [v] + post;
    XorFoldAppend(pre + [s[i]], post);
    XorFoldAppend(pre, [s[i]]);
    XorFoldAppend(pre + [v], post);
    XorFoldAppend(pre, [v]);
    assert [s[i]][..0] == [] && [v][..0] == [];
    XorAlgebra(0, s[i], 0);
    XorAlgebra(0, v, 0);
    ReplaceMiddle(XorFold(pre), s[i], v, XorFold(post));
  }

  /** A change of exactly one byte is always detected. */
  lemma SingleByteChangeDetected(s: seq<byte>, i: nat, v: byte)
    requires i < |s|
    ensures XorFold(s[i := v]) == XorFold(s) <==> v == s[i]
  {
    XorFoldUpdate(s, i, v);
    XorAlgebra(XorFold(s), 0, 0);
    XorAlgebra(XorFold(s), Xor(s[i], v), 0);
    XorAlgebra(s[i], s[i], v);
    XorCancel(Xor(s[i], v), 0, XorFold(s));
    XorAlgebra(XorFold(s), 0, 0);
    XorCancel(v, s[i], s[i]);
    XorAlgebra(v, s[i], 0);
  }

  /**
    Two byte changes whose XOR differences cancel leave the checksum unchanged:
    the weakness of a parity-style check.
   */
  lemma CancellingChangesUndetected(s: seq<byte>, i: nat, v: byte, j: nat, w: byte)
    requires i < |s| && j < |s| && i != j
    requires Xor(s[i], v) == Xor(s[j], w)
    ensures XorFold(s[i := v][j := w]) == XorFold(s)
  {
    var d := Xor(s[i], v);
    XorFoldUpdate(s, i, v);
    XorFoldUpdate(s[i := v], j, w);
    XorAlgebra(XorFold(s), d, d);
    XorAlgebra(XorFold(s), 0, 0);
  }

  /** Exchanging two bytes is never detected. */
  lemma SwapUndetected(s: seq<byte>, i: nat, j: nat)
    requires i < |s| && j < |s|
    ensures XorFold(s[i := s[j]][j := s[i]]) == XorFold(s)
  {
    if i == j {
      assert s[i := s[j]][j := s[i]] == s;
    } else {
      XorAlgebra(s[i], s[j], 0);
      CancellingChangesUndetected(s, i, s[j], j, s[i]);
    }
  }
}
