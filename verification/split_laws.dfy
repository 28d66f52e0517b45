/**
 * Laws of the constructor: how the aggression picks the split between
 * primary and residual mantissa bits.
 */
module SplitLaws {
  import opened Float32Bits
  import opened Encoding

  /** Rounding an integral value gives that value back. */
  lemma RoundHalfEvenOfInteger(n: int)
    ensures RoundHalfEven(n as real) == n
  {
  }

  /** Rounding is monotone. */
  lemma RoundHalfEvenMonotone(x: real, y: real)
    requires x <= y
    ensures RoundHalfEven(x) <= RoundHalfEven(y)
  {
    if x.Floor < y.Floor {
      assert x.Floor + 1 <= y.Floor;
    }
  }

  /** Aggression 0 keeps the whole mantissa in the primary word; every
      residual is then empty. */
  lemma NoAggression()
    ensures New(0.0) == Ok(Config(0.0, 23, 0))
  {
  }

  /** Aggression 1 moves the whole mantissa to the residual word. */
  lemma FullAggression()
    ensures New(1.0) == Ok(Config(1.0, 0, 23))
  {
  }

  /** Aggression 0.5 rounds 11.5 to the even 12: twelve primary and eleven
      residual mantissa bits. */
  lemma HalfAggression()
    ensures New(0.5) == Ok(Config(0.5, 12, 11))
  {
  }

  /** A codec built without an aggression uses 0.5, and so the 12/11
      split. */
  lemma DefaultAggression()
    ensures New() == Ok(Config(0.5, 12, 11))
  {
    HalfAggression();
  }

  /** More aggression never keeps more mantissa bits in the primary word. */
  lemma NewMonotone(a: real, b: real)
    requires 0.0 <= a <= b <= 1.0
    ensures New(a).Ok? && New(b).Ok?
    ensures New(b).value.primaryBits as int <= New(a).value.primaryBits as int
  {
    RoundHalfEvenMonotone((1.0 - b) * MantissaBits as real, (1.0 - a) * MantissaBits as real);
  }

  /** Every split from 0 to 23 primary mantissa bits is chosen by some
      aggression in [0, 1], namely (23 - k) / 23. */
  lemma EverySplitReachable(k: nat)
    requires k <= 23
    ensures New((23 - k) as real / 23.0).Ok?
    ensures New((23 - k) as real / 23.0).value.primaryBits as int == k
  {
    var a := (23 - k) as real / 23.0;
    assert (1.0 - a) * MantissaBits as real == k as real;
    RoundHalfEvenOfInteger(k);
  }
}
