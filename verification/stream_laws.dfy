/**
 * Laws of encode, decode and decode_low on whole streams. Each follows from
 * the word law of the same name position by position, since all three
 * operations work on every word separately.
 */
module StreamLaws {
  import opened Float32Bits
  import opened Encoding
  import opened WordLaws

  /** A stream of n zero words, the residual stream decode_low assumes. */
  function Zeros(n: nat): (z: seq<bv32>)
    ensures |z| == n
    ensures forall i :: 0 <= i < n ==> z[i] == 0
  {
    seq(n, _ => 0)
  }

  /** Every primary word is below 2^(9 + primaryBits) and every residual word
      below 2^residualBits. */
  lemma EncodeInRange(c: Config, xs: seq<bv32>)
    requires c.Valid()
    ensures forall i :: 0 <= i < |xs| ==>
      FitsIn(Encode(c, xs).primary[i], 9 + c.primaryBits) &&
      FitsIn(Encode(c, xs).residual[i], c.residualBits)
  {
    forall i | 0 <= i < |xs|
      ensures FitsIn(Encode(c, xs).primary[i], 9 + c.primaryBits)
      ensures FitsIn(Encode(c, xs).residual[i], c.residualBits)
    {
      EncodeWordInRange(c, xs[i]);
    }
  }

  /** Round trip: decoding both streams encode produced gives the input
      back, for every split. */
  lemma DecodeEncode(c: Config, xs: seq<bv32>)
    requires c.Valid()
    ensures Decode(c, Encode(c, xs).primary, Encode(c, xs).residual) == xs
  {
    var s := Encode(c, xs);
    var ys := Decode(c, s.primary, s.residual);
    forall i | 0 <= i < |xs|
      ensures ys[i] == xs[i]
    {
      DecodeEncodeWord(c, xs[i]);
    }
  }

  /** The converse round trip: streams of equal length whose words are
      within their widths come back unchanged from decode then encode. */
  lemma EncodeDecode(c: Config, primary: seq<bv32>, residual: seq<bv32>)
    requires c.Valid()
    requires |primary| == |residual|
    requires forall i :: 0 <= i < |primary| ==>
      FitsIn(primary[i], 9 + c.primaryBits) && FitsIn(residual[i], c.residualBits)
    ensures Encode(c, Decode(c, primary, residual)) == Streams(primary, residual)
  {
    var s := Encode(c, Decode(c, primary, residual));
    forall i | 0 <= i < |primary|
      ensures s.primary[i] == primary[i] && s.residual[i] == residual[i]
    {
      EncodeDecodeWord(c, primary[i], residual[i]);
    }
  }

  /** decode_low of a primary stream is decode of it with an all-zero
      residual stream. */
  lemma DecodeLowIsDecodeWithZeros(c: Config, primary: seq<bv32>)
    requires c.Valid()
    ensures DecodeLow(c, primary) == Decode(c, primary, Zeros(|primary|))
  {
    var zs := Zeros(|primary|);
    forall i | 0 <= i < |primary|
      ensures DecodeLow(c, primary)[i] == Decode(c, primary, zs)[i]
    {
      DecodeLowIsDecodeWithZero(c, primary[i]);
    }
  }

  /** decode_low of an encoded stream is the input with the low
      `residualBits` bits of every word cleared. */
  lemma DecodeLowOfEncodeStream(c: Config, xs: seq<bv32>)
    requires c.Valid()
    ensures forall i :: 0 <= i < |xs| ==>
      DecodeLow(c, Encode(c, xs).primary)[i] == xs[i] & !LowMask(c.residualBits)
  {
    forall i | 0 <= i < |xs|
      ensures DecodeLow(c, Encode(c, xs).primary)[i] == xs[i] & !LowMask(c.residualBits)
    {
      DecodeLowOfEncode(c, xs[i]);
    }
  }

  /** decode_low of an encoded stream keeps the sign and the exponent of
      every word. */
  lemma DecodeLowKeepsSignsAndExponents(c: Config, xs: seq<bv32>)
    requires c.Valid()
    ensures forall i :: 0 <= i < |xs| ==>
      SignOf(DecodeLow(c, Encode(c, xs).primary)[i]) == SignOf(xs[i]) &&
      ExponentOf(DecodeLow(c, Encode(c, xs).primary)[i]) == ExponentOf(xs[i])
  {
    forall i | 0 <= i < |xs|
      ensures SignOf(DecodeLow(c, Encode(c, xs).primary)[i]) == SignOf(xs[i])
      ensures ExponentOf(DecodeLow(c, Encode(c, xs).primary)[i]) == ExponentOf(xs[i])
    {
      DecodeLowKeepsSignAndExponent(c, xs[i]);
    }
  }

  /** With every residual word within its width, decode and decode_low
      agree exactly when the residual stream is all zeros. */
  lemma DecodeLowExactStream(c: Config, primary: seq<bv32>, residual: seq<bv32>)
    requires c.Valid()
    requires |primary| == |residual|
    requires forall i :: 0 <= i < |residual| ==> FitsIn(residual[i], c.residualBits)
    ensures Decode(c, primary, residual) == DecodeLow(c, primary) <==>
      forall i :: 0 <= i < |residual| ==> residual[i] == 0
  {
    var full := Decode(c, primary, residual);
    var low := DecodeLow(c, primary);
    if forall i :: 0 <= i < |residual| ==> residual[i] == 0 {
      forall i | 0 <= i < |residual|
        ensures full[i] == low[i]
      {
        DecodeLowExact(c, primary[i], residual[i]);
      }
    } else {
      var i :| 0 <= i < |residual| && residual[i] != 0;
      DecodeLowExact(c, primary[i], residual[i]);
      assert full[i] != low[i];
    }
  }

  /** With no residual bits (aggression 0) the residual stream is all zeros
      and decode_low alone is lossless. */
  lemma NoResidualIsLossless(c: Config, xs: seq<bv32>)
    requires c.Valid() && c.residualBits == 0
    ensures Encode(c, xs).residual == Zeros(|xs|)
    ensures DecodeLow(c, Encode(c, xs).primary) == xs
  {
    var s := Encode(c, xs);
    var low := DecodeLow(c, s.primary);
    forall i | 0 <= i < |xs|
      ensures s.residual[i] == 0 && low[i] == xs[i]
    {
      EncodeResidualIsLowBits(c, xs[i]);
      DecodeLowOfEncode(c, xs[i]);
    }
  }

  /** With no primary mantissa bits (aggression 1) the primary stream holds
      just sign and exponent and the residual stream the whole mantissa. */
  lemma NoPrimaryMantissa(c: Config, xs: seq<bv32>)
    requires c.Valid() && c.primaryBits == 0
    ensures forall i :: 0 <= i < |xs| ==>
      Encode(c, xs).primary[i] == (SignOf(xs[i]) << 8) | ExponentOf(xs[i]) &&
      Encode(c, xs).residual[i] == MantissaOf(xs[i])
  {
  }
}
