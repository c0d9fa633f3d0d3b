/** The read-modify-write of a field in a 64-bit register. */
module FieldUpdate {

  /** Clears the field, then sets the value, which the source does not confine to the field. */
  function Update(x: bv64, fieldMask: bv64, value: bv64): bv64 { (x & !fieldMask) | value }

  /** The value lies inside the field. */
  predicate Confined(fieldMask: bv64, value: bv64) { value & !fieldMask == 0 }

  /** `y` agrees with `x` outside the field. */
  predicate KeepsRest(x: bv64, y: bv64, fieldMask: bv64) { y & !fieldMask == x & !fieldMask }

  lemma UpdateKeepsRest(x: bv64, fieldMask: bv64, value: bv64)
    requires Confined(fieldMask, value)
    ensures KeepsRest(x, Update(x, fieldMask, value), fieldMask)
    ensures Update(x, fieldMask, value) & fieldMask == value
  {
  }

  lemma UpdateOfZero(fieldMask: bv64, value: bv64)
    requires !Confined(fieldMask, value)
    ensures !KeepsRest(0, Update(0, fieldMask, value), fieldMask)
  {
    assert Update(0, fieldMask, value) == (0 & !fieldMask) | value;
  }

  /** A value confined to its field leaves the rest of every register alone, and no other value does. */
  lemma FrameExactly(fieldMask: bv64, value: bv64)
    ensures (forall x: bv64 :: KeepsRest(x, Update(x, fieldMask, value), fieldMask)) <==> Confined(fieldMask, value)
  {
    if Confined(fieldMask, value) {
      forall x: bv64 ensures KeepsRest(x, Update(x, fieldMask, value), fieldMask) {
        UpdateKeepsRest(x, fieldMask, value);
      }
    } else {
      UpdateOfZero(fieldMask, value);
    }
  }

  lemma UpdateIdempotent(x: bv64, fieldMask: bv64, value: bv64)
    ensures Update(Update(x, fieldMask, value), fieldMask, value) == Update(x, fieldMask, value)
  {
  }

  lemma UpdateIs(x: bv64, fieldMask: bv64, value: bv64)
    ensures Update(x, fieldMask, value) == (x & !fieldMask) | value
  {
  }

  lemma BitwiseCommute(x: bv64, m1: bv64, v1: bv64, m2: bv64, v2: bv64)
    requires m1 & m2 == 0 && v1 & !m1 == 0 && v2 & !m2 == 0
    ensures (((x & !m1) | v1) & !m2) | v2 == (((x & !m2) | v2) & !m1) | v1
  {
  }

  lemma UpdateTwice(x: bv64, m1: bv64, v1: bv64, m2: bv64, v2: bv64)
    ensures Update(Update(x, m1, v1), m2, v2) == (((x & !m1) | v1) & !m2) | v2
  {
    hide Update;
    UpdateIs(x, m1, v1);
    UpdateIs((x & !m1) | v1, m2, v2);
  }

  /** Updates of disjoint fields commute. */
  lemma UpdatesCommute(x: bv64, m1: bv64, v1: bv64, m2: bv64, v2: bv64)
    requires m1 & m2 == 0 && Confined(m1, v1) && Confined(m2, v2)
    ensures Update(Update(x, m1, v1), m2, v2) == Update(Update(x, m2, v2), m1, v1)
  {
    hide Update;
    UpdateTwice(x, m1, v1, m2, v2);
    UpdateTwice(x, m2, v2, m1, v1);
    BitwiseCommute(x, m1, v1, m2, v2);
  }
}
