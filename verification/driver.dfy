/**
 * The example driver in `main.py`: four float32 values encoded at
 * aggression 0.5, then decoded with and without the residual stream.
 * The values are given by their bit patterns.
 */
module Driver {
  import opened Encoding
  import SplitLaws

  /** 1.5, -2.75, 0.0 and 100.125 as binary32 words. */
  const Inputs: seq<bv32> := [0x3FC0_0000, 0xC030_0000, 0x0000_0000, 0x42C8_4000]

  /** Their primary words at twelve primary mantissa bits: sign, exponent
      and the top twelve mantissa bits. */
  const Primaries: seq<bv32> := [0x7_F800, 0x18_0600, 0x0, 0x8_5908]

  /** None of the four has a mantissa bit set among its low eleven. */
  const Residuals: seq<bv32> := [0, 0, 0, 0]

  /** The split the driver's codec uses. */
  const HalfSplit: Config := Config(0.5, 12, 11)

  /** Encoding the inputs at the 12/11 split gives the expected streams. */
  lemma EncodeInputs()
    ensures HalfSplit.Valid()
    ensures Encode(HalfSplit, Inputs) == Streams(Primaries, Residuals)
  {
    var s := Encode(HalfSplit, Inputs);
    assert s.primary[0] == 0x7_F800 && s.residual[0] == 0;
    assert s.primary[1] == 0x18_0600 && s.residual[1] == 0;
    assert s.primary[2] == 0x0 && s.residual[2] == 0;
    assert s.primary[3] == 0x8_5908 && s.residual[3] == 0;
  }

  /** Both decoders give the inputs back: the full decoder always, and
      decode_low here because every residual is zero. */
  lemma DecodeStreams()
    ensures HalfSplit.Valid()
    ensures Decode(HalfSplit, Primaries, Residuals) == Inputs
    ensures DecodeLow(HalfSplit, Primaries) == Inputs
  {
    var full := Decode(HalfSplit, Primaries, Residuals);
    var low := DecodeLow(HalfSplit, Primaries);
    assert full[0] == Inputs[0] && low[0] == Inputs[0];
    assert full[1] == Inputs[1] && low[1] == Inputs[1];
    assert full[2] == Inputs[2] && low[2] == Inputs[2];
    assert full[3] == Inputs[3] && low[3] == Inputs[3];
  }

  /** The whole driver: `Encoding(aggression=0.5)` is built with the 12/11
      split, and its encode, decode and decode_low behave as above. */
  lemma RunExample()
    ensures New(0.5) == Ok(HalfSplit)
    ensures Encode(HalfSplit, Inputs) == Streams(Primaries, Residuals)
    ensures Decode(HalfSplit, Primaries, Residuals) == Inputs
    ensures DecodeLow(HalfSplit, Primaries) == Inputs
  {
    SplitLaws.HalfAggression();
    EncodeInputs();
    DecodeStreams();
  }
}
