/** Facts about concatenation and multiplication that the proofs cite by name. */
module Basics {

  lemma AppendAssoc<X>(a: seq<X>, b: seq<X>, c: seq<X>)
    ensures (a + b) + c == a + (b + c)
  {
  }

  lemma DropFirst<X>(x: X, t: seq<X>)
    ensures ([x] + t)[1..] == t
  {
  }

  /** Multiplying by a non-negative number keeps the order. */
  lemma MulLe(x: int, y: int, z: int)
    requires x <= y && 0 <= z
    ensures x * z <= y * z
  {
    assert y * z - x * z == (y - x) * z;
  }
}
