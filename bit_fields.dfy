/**
 * Storage semantics of the unsigned C bit-fields declared in `struct _GtkWidgetPrivate`.
 * Assigning an unsigned value to a field of `width` bits keeps the value modulo 2^width.
 */
module BitFields {

  /** 2^n */
  function Pow2(n: nat): (r: nat)
    ensures r >= 1
  {
    if n == 0 then 1 else 2 * Pow2(n - 1)
  }

  /** Largest-bit growth: doubling the width doubles the range. */
  lemma {:induction false} Pow2Monotone(i: nat, j: nat)
    requires i <= j
    ensures Pow2(i) <= Pow2(j)
    ensures i < j ==> Pow2(i) < Pow2(j)
  {
    if i < j {
      Pow2Monotone(i, j - 1);
    }
  }

  /** The value an unsigned bit-field of `width` bits holds after `v` is assigned to it. */
  function Store(v: nat, width: nat): (r: nat)
    ensures r < Pow2(width)
    ensures r == v <==> v < Pow2(width)
  {
    var m := Pow2(width);
    ModBelow(v, m);
    v % m
  }

  /** Euclidean remainder by a positive modulus is the value itself exactly below the modulus. */
  lemma ModBelow(v: nat, m: nat)
    requires m >= 1
    ensures v % m < m
    ensures v % m == v <==> v < m
  {
  }

  /**
   * A single flag bit `1 << i` survives a store into a `width`-bit field exactly
   * when its position is below the width.
   */
  lemma {:induction false} FlagBitSurvives(i: nat, width: nat)
    ensures Store(Pow2(i), width) == Pow2(i) <==> i < width
  {
    if i < width {
      Pow2Monotone(i, width);
    } else {
      Pow2Monotone(width, i);
    }
  }
}
