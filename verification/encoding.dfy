/**
 * The float32 bit-splitting codec of `encoding.py` (class `Encoding`).
 *
 * A codec is configured once with an `aggression` in [0, 1], from which it
 * derives how many of the 23 mantissa bits stay in the compact "primary"
 * word (sign : exponent : high mantissa bits) and how many go to the
 * "residual" word (low mantissa bits). `Encode` splits every 32-bit word of
 * a stream, `Decode` joins the two streams back exactly, and `DecodeLow`
 * rebuilds an approximation from the primary stream alone.
 */
module Encoding {
  import opened Float32Bits

  /** The failure of construction: the aggression assertion does not hold. */
  datatype CodecError = AggressionOutOfRange

  datatype Result<T> = Ok(value: T) | Err(error: CodecError)

  /** The immutable state of a codec, fixed by its constructor. The two bit
      counts are only ever used as shift amounts, so they are kept as 32-bit
      words. */
  datatype Config = Config(aggression: real, primaryBits: bv32, residualBits: bv32)
  {
    /** The split invariant: the two parts share the 23 mantissa bits. */
    predicate Valid()
    {
      primaryBits <= 23 && primaryBits + residualBits == 23
    }
  }

  /** Python's `round` on a real: the nearest integer, ties going to the
      even neighbour. */
  function RoundHalfEven(x: real): (n: int)
    ensures x - 0.5 <= n as real <= x + 0.5
    ensures (n as real - x == 0.5 || x - n as real == 0.5) ==> n % 2 == 0
  {
    var f := x.Floor;
    var d := x - f as real;
    if d < 0.5 then f
    else if d > 0.5 then f + 1
    else if f % 2 == 0 then f
    else f + 1
  }

  /** For an aggression in [0, 1] the rounded primary bit count lies in
      [0, 23]. */
  lemma PrimaryBitsInRange(aggression: real)
    requires 0.0 <= aggression <= 1.0
    ensures 0 <= RoundHalfEven((1.0 - aggression) * MantissaBits as real) <= MantissaBits
  {
  }

  /** A primary bit count up to 23, as a shift amount, and the residual
      count beside it make a valid split. The value-by-value case analysis
      lets the solver evaluate `ShiftOf` on constants instead of reasoning
      about the integer-to-bit-vector conversion in general. */
  lemma SplitOfCount(n: nat)
    requires n <= MantissaBits
    ensures ShiftOf(n) as int == n
    ensures Config(0.0, ShiftOf(n), 23 - ShiftOf(n)).Valid()
  {
    ShiftOfValue(n);
    if n == 0 {
    } else if n == 1 {
    } else if n == 2 {
    } else if n == 3 {
    } else if n == 4 {
    } else if n == 5 {
    } else if n == 6 {
    } else if n == 7 {
    } else if n == 8 {
    } else if n == 9 {
    } else if n == 10 {
    } else if n == 11 {
    } else if n == 12 {
    } else if n == 13 {
    } else if n == 14 {
    } else if n == 15 {
    } else if n == 16 {
    } else if n == 17 {
    } else if n == 18 {
    } else if n == 19 {
    } else if n == 20 {
    } else if n == 21 {
    } else if n == 22 {
    } else {
    }
  }

  /** The constructor: rejects an aggression outside [0, 1], otherwise keeps
      `round((1 - aggression) * 23)` mantissa bits in the primary word and
      the rest in the residual word. The aggression defaults to 0.5. */
  function New(aggression: real := 0.5): (r: Result<Config>)
    ensures r.Ok? <==> 0.0 <= aggression <= 1.0
    ensures r.Err? ==> r.error == AggressionOutOfRange
    ensures r.Ok? ==> r.value.Valid() && r.value.aggression == aggression
    ensures r.Ok? ==>
      r.value.primaryBits as int == RoundHalfEven((1.0 - aggression) * MantissaBits as real)
  {
    if !(0.0 <= aggression <= 1.0) then Err(AggressionOutOfRange)
    else
      var primary := RoundHalfEven((1.0 - aggression) * MantissaBits as real);
      PrimaryBitsInRange(aggression);
      SplitOfCount(primary);
      var bits := ShiftOf(primary);
      Ok(Config(aggression, bits, 23 - bits))
  }

  /** The two words one input word is split into. */
  datatype Encoded = Encoded(primary: bv32, residual: bv32)

  /** Packs sign : exponent : high mantissa bits into a primary word whose
      mantissa part is p bits wide. */
  function Pack(s: bv32, e: bv32, h: bv32, p: bv32): bv32
    requires p <= 23
  {
    (s << (8 + p)) | (e << p) | h
  }

  /** The three fields of a primary word as decode and decode_low read them:
      its low `primaryBits` bits, the 8 bits above them and the bit above
      those. */
  function PrimaryMantissa(c: Config, w: bv32): bv32
    requires c.Valid()
  {
    w & LowMask(c.primaryBits)
  }

  function PrimaryExponent(c: Config, w: bv32): bv32
    requires c.Valid()
  {
    (w >> c.primaryBits) & 0xFF
  }

  function PrimarySign(c: Config, w: bv32): bv32
    requires c.Valid()
  {
    (w >> (8 + c.primaryBits)) & 0x1
  }

  /** encode, on one word: the primary word packs sign, exponent and the
      high `primaryBits` mantissa bits; the residual word is the low
      `residualBits` mantissa bits. */
  function EncodeWord(c: Config, raw: bv32): Encoded
    requires c.Valid()
  {
    var sign := SignOf(raw);
    var exponent := ExponentOf(raw);
    var mantissa := MantissaOf(raw);
    var mantissaPrimary := mantissa >> c.residualBits;
    var mantissaResidual := mantissa & LowMask(c.residualBits);
    Encoded(Pack(sign, exponent, mantissaPrimary, c.primaryBits), mantissaResidual)
  }

  /** decode, on one word: sign and exponent come from the primary word, the
      mantissa is its mantissa part shifted up with the residual or-ed in.
      Neither word is checked against its width. */
  function DecodeWord(c: Config, primary: bv32, residual: bv32): bv32
    requires c.Valid()
  {
    var mantissa := (PrimaryMantissa(c, primary) << c.residualBits) | residual;
    Assemble(PrimarySign(c, primary), PrimaryExponent(c, primary), mantissa)
  }

  /** decode_low, on one word: as decode, with the residual bits left zero. */
  function DecodeLowWord(c: Config, primary: bv32): bv32
    requires c.Valid()
  {
    var mantissa := PrimaryMantissa(c, primary) << c.residualBits;
    Assemble(PrimarySign(c, primary), PrimaryExponent(c, primary), mantissa)
  }

  /** The two output streams of encode. */
  datatype Streams = Streams(primary: seq<bv32>, residual: seq<bv32>)

  /** encode: the input is flattened to one stream of words and every word
      is split on its own; both output streams have the input's length. */
  function Encode(c: Config, xs: seq<bv32>): (r: Streams)
    requires c.Valid()
    ensures |r.primary| == |xs| && |r.residual| == |xs|
    ensures forall i :: 0 <= i < |xs| ==> r.primary[i] == EncodeWord(c, xs[i]).primary
    ensures forall i :: 0 <= i < |xs| ==> r.residual[i] == EncodeWord(c, xs[i]).residual
  {
    if xs == [] then Streams([], [])
    else
      var head := EncodeWord(c, xs[0]);
      var tail := Encode(c, xs[1..]);
      Streams([head.primary] + tail.primary, [head.residual] + tail.residual)
  }

  /** decode: joins the two streams position by position. They must have the
      same length. */
  function Decode(c: Config, primary: seq<bv32>, residual: seq<bv32>): (r: seq<bv32>)
    requires c.Valid()
    requires |primary| == |residual|
    ensures |r| == |primary|
    ensures forall i :: 0 <= i < |r| ==> r[i] == DecodeWord(c, primary[i], residual[i])
  {
    if primary == [] then []
    else [DecodeWord(c, primary[0], residual[0])] + Decode(c, primary[1..], residual[1..])
  }

  /** decode_low: rebuilds every word from the primary stream alone. */
  function DecodeLow(c: Config, primary: seq<bv32>): (r: seq<bv32>)
    requires c.Valid()
    ensures |r| == |primary|
    ensures forall i :: 0 <= i < |r| ==> r[i] == DecodeLowWord(c, primary[i])
  {
    if primary == [] then []
    else [DecodeLowWord(c, primary[0])] + DecodeLow(c, primary[1..])
  }
}
