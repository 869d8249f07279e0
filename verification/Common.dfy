/** What several components share. */
module Common {

  type byte = n: nat | n < 256

  type Positive = n: nat | n > 0 witness 1

  datatype Option<+T> = None | Some(value: T)

  function Min(a: nat, b: nat): nat { if a < b then a else b }

  function Max(a: nat, b: nat): nat { if a > b then a else b }

  lemma MulAscends(d: Positive, a: nat, b: nat)
    ensures a <= b ==> d * a <= d * b
  {}

  lemma DivMonotone(a: nat, b: nat, d: Positive)
    requires a <= b
    ensures a / d <= b / d
  {
    var q, r := a / d, b / d;
    assert a == d * q + a % d && b == d * r + b % d;
    MulAscends(d, r + 1, q);
  }
}
