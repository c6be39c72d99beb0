/** Arithmetic that more than one component needs. */
module Numbers {

  function Min(a: nat, b: nat): nat { if a <= b then a else b }

  lemma MulGrows(d: nat, a: nat, b: nat)
    requires a <= b
    ensures d * a <= d * b
  {
    assert d * b == d * a + d * (b - a);
  }
}
