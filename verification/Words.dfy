/** Exclusive or on 64-bit words, as a named operation with its laws. */
module Words {

  function Xor64(a: bv64, b: bv64): bv64 {
    a ^ b
  }

  lemma XorDef64(a: bv64, b: bv64)
    ensures Xor64(a, b) == a ^ b
  {
  }

  lemma XorChain64(a: bv64, b: bv64, c: bv64, ab: bv64, bc: bv64)
    requires ab == a ^ b && bc == b ^ c
    ensures ab ^ c == a ^ bc
  {
  }

  lemma XorTwice64(a: bv64, b: bv64, ab: bv64)
    requires ab == a ^ b
    ensures ab ^ b == a
  {
  }

  lemma XorZero64(a: bv64, b: bv64)
    ensures Xor64(a, b) == Xor64(b, a) && Xor64(a, 0) == a && Xor64(0, a) == a
  {
  }

  lemma XorLaws64(a: bv64, b: bv64, c: bv64)
    ensures Xor64(Xor64(a, b), c) == Xor64(a, Xor64(b, c)) && Xor64(Xor64(a, b), b) == a
  {
    hide Xor64;
    var ab, bc := Xor64(a, b), Xor64(b, c);
    XorDef64(a, b);
    XorDef64(b, c);
    XorDef64(ab, c);
    XorDef64(a, bc);
    XorDef64(ab, b);
    XorChain64(a, b, c, ab, bc);
    XorTwice64(a, b, ab);
  }

  lemma XorInterchange64(a: bv64, b: bv64, c: bv64, d: bv64)
    ensures Xor64(Xor64(a, b), Xor64(c, d)) == Xor64(Xor64(a, c), Xor64(b, d))
  {
    hide Xor64;
    XorLaws64(a, b, Xor64(c, d));
    XorLaws64(b, c, d);
    XorZero64(b, c);
    XorLaws64(c, b, d);
    XorLaws64(a, c, Xor64(b, d));
  }
}
