/**
 * Laws of the codec on single 32-bit words, for every split of the
 * mantissa.
 *
 * The central observation: because sign, exponent and mantissa sit next to
 * each other in a binary32 word, the primary word encode builds is the input
 * shifted right by `residualBits`, the residual is the input's low
 * `residualBits` bits, decode_low shifts the primary word back up and decode
 * ors the residual into that. Everything else follows from these facts.
 *
 * Some laws are proved for a symbolic split directly. Others are proved
 * split by split: a lemma covering six splits fixes `primaryBits` to a
 * constant in each branch, where the shifts become plain bit-vector
 * evaluation, and a dispatcher picks the right group. The round trips are
 * then assembled from these laws and the general bit facts of
 * `Float32Bits`, one step per lemma call, which keeps every proof
 * obligation small enough for the solver.
 */
module WordLaws {
  import opened Float32Bits
  import opened Encoding

  // ---- encode

  lemma EncodePrimaryIsHighBits0To5(c: Config, x: bv32)
    requires c.Valid() && 0 <= c.primaryBits <= 5
    ensures EncodeWord(c, x).primary == x >> c.residualBits
  {
    if c.primaryBits == 0 {
    } else if c.primaryBits == 1 {
    } else if c.primaryBits == 2 {
    } else if c.primaryBits == 3 {
    } else if c.primaryBits == 4 {
    } else {
    }
  }

  lemma EncodePrimaryIsHighBits6To11(c: Config, x: bv32)
    requires c.Valid() && 6 <= c.primaryBits <= 11
    ensures EncodeWord(c, x).primary == x >> c.residualBits
  {
    if c.primaryBits == 6 {
    } else if c.primaryBits == 7 {
    } else if c.primaryBits == 8 {
    } else if c.primaryBits == 9 {
    } else if c.primaryBits == 10 {
    } else {
    }
  }

  lemma EncodePrimaryIsHighBits12To17(c: Config, x: bv32)
    requires c.Valid() && 12 <= c.primaryBits <= 17
    ensures EncodeWord(c, x).primary == x >> c.residualBits
  {
    if c.primaryBits == 12 {
    } else if c.primaryBits == 13 {
    } else if c.primaryBits == 14 {
    } else if c.primaryBits == 15 {
    } else if c.primaryBits == 16 {
    } else {
    }
  }

  lemma EncodePrimaryIsHighBits18To23(c: Config, x: bv32)
    requires c.Valid() && 18 <= c.primaryBits <= 23
    ensures EncodeWord(c, x).primary == x >> c.residualBits
  {
    if c.primaryBits == 18 {
    } else if c.primaryBits == 19 {
    } else if c.primaryBits == 20 {
    } else if c.primaryBits == 21 {
    } else if c.primaryBits == 22 {
    } else {
    }
  }

  /** The primary word of x is x shifted right by `residualBits`: sign,
      exponent and the high mantissa bits, still adjacent. */
  lemma EncodePrimaryIsHighBits(c: Config, x: bv32)
    requires c.Valid()
    ensures EncodeWord(c, x).primary == x >> c.residualBits
  {
    if c.primaryBits <= 5 {
      EncodePrimaryIsHighBits0To5(c, x);
    } else if c.primaryBits <= 11 {
      EncodePrimaryIsHighBits6To11(c, x);
    } else if c.primaryBits <= 17 {
      EncodePrimaryIsHighBits12To17(c, x);
    } else {
      EncodePrimaryIsHighBits18To23(c, x);
    }
  }

  /** The residual word of x is the low `residualBits` bits of x. */
  lemma EncodeResidualIsLowBits(c: Config, x: bv32)
    requires c.Valid()
    ensures EncodeWord(c, x).residual == x & LowMask(c.residualBits)
  {
  }

  /** A word shifted right by `residualBits` fits in the 9 + `primaryBits`
      bits of a primary word. */
  lemma HighBitsFit(c: Config, x: bv32)
    requires c.Valid()
    ensures FitsIn(x >> c.residualBits, 9 + c.primaryBits)
  {
  }

  /** The low `residualBits` bits of a word fit in `residualBits` bits. */
  lemma LowBitsFit(c: Config, x: bv32)
    requires c.Valid()
    ensures FitsIn(x & LowMask(c.residualBits), c.residualBits)
  {
  }

  /** Both words encode produces are within their widths: the primary word
      below 2^(9 + primaryBits), the residual below 2^residualBits. */
  lemma EncodeWordInRange(c: Config, x: bv32)
    requires c.Valid()
    ensures FitsIn(EncodeWord(c, x).primary, 9 + c.primaryBits)
    ensures FitsIn(EncodeWord(c, x).residual, c.residualBits)
  {
    EncodePrimaryIsHighBits(c, x);
    EncodeResidualIsLowBits(c, x);
    HighBitsFit(c, x);
    LowBitsFit(c, x);
  }

  // ---- decode

  lemma DecodeIsDecodeLowOr0To5(c: Config, w: bv32, res: bv32)
    requires c.Valid() && 0 <= c.primaryBits <= 5
    ensures DecodeWord(c, w, res) == DecodeLowWord(c, w) | res
  {
    if c.primaryBits == 0 {
    } else if c.primaryBits == 1 {
    } else if c.primaryBits == 2 {
    } else if c.primaryBits == 3 {
    } else if c.primaryBits == 4 {
    } else {
    }
  }

  lemma DecodeIsDecodeLowOr6To11(c: Config, w: bv32, res: bv32)
    requires c.Valid() && 6 <= c.primaryBits <= 11
    ensures DecodeWord(c, w, res) == DecodeLowWord(c, w) | res
  {
    if c.primaryBits == 6 {
    } else if c.primaryBits == 7 {
    } else if c.primaryBits == 8 {
    } else if c.primaryBits == 9 {
    } else if c.primaryBits == 10 {
    } else {
    }
  }

  lemma DecodeIsDecodeLowOr12To17(c: Config, w: bv32, res: bv32)
    requires c.Valid() && 12 <= c.primaryBits <= 17
    ensures DecodeWord(c, w, res) == DecodeLowWord(c, w) | res
  {
    if c.primaryBits == 12 {
    } else if c.primaryBits == 13 {
    } else if c.primaryBits == 14 {
    } else if c.primaryBits == 15 {
    } else if c.primaryBits == 16 {
    } else {
    }
  }

  lemma DecodeIsDecodeLowOr18To23(c: Config, w: bv32, res: bv32)
    requires c.Valid() && 18 <= c.primaryBits <= 23
    ensures DecodeWord(c, w, res) == DecodeLowWord(c, w) | res
  {
    if c.primaryBits == 18 {
    } else if c.primaryBits == 19 {
    } else if c.primaryBits == 20 {
    } else if c.primaryBits == 21 {
    } else if c.primaryBits == 22 {
    } else {
    }
  }

  /** decode is decode_low with the residual or-ed in. */
  lemma DecodeIsDecodeLowOr(c: Config, w: bv32, res: bv32)
    requires c.Valid()
    ensures DecodeWord(c, w, res) == DecodeLowWord(c, w) | res
  {
    if c.primaryBits <= 5 {
      DecodeIsDecodeLowOr0To5(c, w, res);
    } else if c.primaryBits <= 11 {
      DecodeIsDecodeLowOr6To11(c, w, res);
    } else if c.primaryBits <= 17 {
      DecodeIsDecodeLowOr12To17(c, w, res);
    } else {
      DecodeIsDecodeLowOr18To23(c, w, res);
    }
  }

  /** For a primary word within its width, decode_low is a plain shift
      back up by `residualBits`. */
  lemma DecodeLowOfFitting(c: Config, w: bv32)
    requires c.Valid()
    ensures FitsIn(w, 9 + c.primaryBits) ==> DecodeLowWord(c, w) == w << c.residualBits
  {
  }

  /** For a primary word within its width, decode is that word shifted up
      by `residualBits` with the residual or-ed in. */
  lemma DecodeOfFitting(c: Config, w: bv32, res: bv32)
    requires c.Valid()
    ensures FitsIn(w, 9 + c.primaryBits) ==> DecodeWord(c, w, res) == (w << c.residualBits) | res
  {
    DecodeIsDecodeLowOr(c, w, res);
    DecodeLowOfFitting(c, w);
  }

  /** A word within the primary width shifted up, with a residual within
      its width or-ed in, shifts back down to itself. */
  lemma JoinedHighBits(c: Config, w: bv32, res: bv32)
    requires c.Valid()
    ensures FitsIn(w, 9 + c.primaryBits) && FitsIn(res, c.residualBits) ==>
      ((w << c.residualBits) | res) >> c.residualBits == w
  {
  }

  /** Decoding the high and low parts of x gives x back. */
  lemma DecodeHighLow(c: Config, x: bv32)
    requires c.Valid()
    ensures DecodeWord(c, x >> c.residualBits, x & LowMask(c.residualBits)) == x
  {
    var high := x >> c.residualBits;
    var low := x & LowMask(c.residualBits);
    HighBitsFit(c, x);
    DecodeOfFitting(c, high, low);
    assert DecodeWord(c, high, low) == (high << c.residualBits) | low;
    SplitRejoin(x, c.residualBits);
  }

  /** Round trip: decode inverts encode on every word, NaN payloads, signed
      zeros, infinities and subnormals included. */
  lemma DecodeEncodeWord(c: Config, x: bv32)
    requires c.Valid()
    ensures DecodeWord(c, EncodeWord(c, x).primary, EncodeWord(c, x).residual) == x
  {
    EncodePrimaryIsHighBits(c, x);
    EncodeResidualIsLowBits(c, x);
    DecodeHighLow(c, x);
  }

  /** Re-encoding a decoded pair gives back its primary word, when the pair
      is within its widths. */
  lemma EncodeDecodePrimary(c: Config, w: bv32, res: bv32)
    requires c.Valid()
    ensures FitsIn(w, 9 + c.primaryBits) && FitsIn(res, c.residualBits) ==>
      EncodeWord(c, DecodeWord(c, w, res)).primary == w
  {
    if FitsIn(w, 9 + c.primaryBits) && FitsIn(res, c.residualBits) {
      var joined := (w << c.residualBits) | res;
      DecodeOfFitting(c, w, res);
      EncodePrimaryIsHighBits(c, joined);
      JoinedHighBits(c, w, res);
      assert EncodeWord(c, DecodeWord(c, w, res)) == EncodeWord(c, joined);
    }
  }

  /** Re-encoding a decoded pair gives back its residual word, when the
      residual is within its width. */
  lemma EncodeDecodeResidual(c: Config, w: bv32, res: bv32)
    requires c.Valid()
    ensures FitsIn(res, c.residualBits) ==>
      EncodeWord(c, DecodeWord(c, w, res)).residual == res
  {
    if FitsIn(res, c.residualBits) {
      var joined := DecodeLowWord(c, w) | res;
      DecodeIsDecodeLowOr(c, w, res);
      EncodeResidualIsLowBits(c, joined);
      DecodeLowClearsLowBits(c, w);
      JoinedLow(DecodeLowWord(c, w), res, c.residualBits);
      assert EncodeWord(c, DecodeWord(c, w, res)) == EncodeWord(c, joined);
    }
  }

  /** The converse round trip: on pairs within their widths, encode inverts
      decode, so encode is a bijection from words onto such pairs. */
  lemma EncodeDecodeWord(c: Config, w: bv32, res: bv32)
    requires c.Valid()
    requires FitsIn(w, 9 + c.primaryBits) && FitsIn(res, c.residualBits)
    ensures EncodeWord(c, DecodeWord(c, w, res)) == Encoded(w, res)
  {
    EncodeDecodePrimary(c, w, res);
    EncodeDecodeResidual(c, w, res);
  }

  // ---- decode_low

  /** decode_low is decode with a zero residual. */
  lemma DecodeLowIsDecodeWithZero(c: Config, w: bv32)
    requires c.Valid()
    ensures DecodeLowWord(c, w) == DecodeWord(c, w, 0)
  {
  }

  lemma DecodeLowClearsLowBits0To5(c: Config, w: bv32)
    requires c.Valid() && 0 <= c.primaryBits <= 5
    ensures DecodeLowWord(c, w) & LowMask(c.residualBits) == 0
  {
    if c.primaryBits == 0 {
    } else if c.primaryBits == 1 {
    } else if c.primaryBits == 2 {
    } else if c.primaryBits == 3 {
    } else if c.primaryBits == 4 {
    } else {
    }
  }

  lemma DecodeLowClearsLowBits6To11(c: Config, w: bv32)
    requires c.Valid() && 6 <= c.primaryBits <= 11
    ensures DecodeLowWord(c, w) & LowMask(c.residualBits) == 0
  {
    if c.primaryBits == 6 {
    } else if c.primaryBits == 7 {
    } else if c.primaryBits == 8 {
    } else if c.primaryBits == 9 {
    } else if c.primaryBits == 10 {
    } else {
    }
  }

  lemma DecodeLowClearsLowBits12To17(c: Config, w: bv32)
    requires c.Valid() && 12 <= c.primaryBits <= 17
    ensures DecodeLowWord(c, w) & LowMask(c.residualBits) == 0
  {
    if c.primaryBits == 12 {
    } else if c.primaryBits == 13 {
    } else if c.primaryBits == 14 {
    } else if c.primaryBits == 15 {
    } else if c.primaryBits == 16 {
    } else {
    }
  }

  lemma DecodeLowClearsLowBits18To23(c: Config, w: bv32)
    requires c.Valid() && 18 <= c.primaryBits <= 23
    ensures DecodeLowWord(c, w) & LowMask(c.residualBits) == 0
  {
    if c.primaryBits == 18 {
    } else if c.primaryBits == 19 {
    } else if c.primaryBits == 20 {
    } else if c.primaryBits == 21 {
    } else if c.primaryBits == 22 {
    } else {
    }
  }

  /** decode_low leaves the low `residualBits` bits zero, whatever the
      primary word. */
  lemma DecodeLowClearsLowBits(c: Config, w: bv32)
    requires c.Valid()
    ensures DecodeLowWord(c, w) & LowMask(c.residualBits) == 0
  {
    if c.primaryBits <= 5 {
      DecodeLowClearsLowBits0To5(c, w);
    } else if c.primaryBits <= 11 {
      DecodeLowClearsLowBits6To11(c, w);
    } else if c.primaryBits <= 17 {
      DecodeLowClearsLowBits12To17(c, w);
    } else {
      DecodeLowClearsLowBits18To23(c, w);
    }
  }

  /** or-ing the residual part of x back into decode_low of its primary word
      gives x. */
  lemma DecodeLowOrResidual(c: Config, x: bv32)
    requires c.Valid()
    ensures DecodeLowWord(c, EncodeWord(c, x).primary) | (x & LowMask(c.residualBits)) == x
  {
    EncodePrimaryIsHighBits(c, x);
    EncodeResidualIsLowBits(c, x);
    DecodeHighLow(c, x);
    DecodeIsDecodeLowOr(c, EncodeWord(c, x).primary, EncodeWord(c, x).residual);
  }

  /** decode_low of the primary word of x is x with its low `residualBits`
      bits cleared: the lossy reconstruction truncates the mantissa. */
  lemma DecodeLowOfEncode(c: Config, x: bv32)
    requires c.Valid()
    ensures DecodeLowWord(c, EncodeWord(c, x).primary) == x & !LowMask(c.residualBits)
  {
    var low := DecodeLowWord(c, EncodeWord(c, x).primary);
    DecodeLowOrResidual(c, x);
    DecodeLowClearsLowBits(c, EncodeWord(c, x).primary);
    DisjointMaskedJoin(low, x, LowMask(c.residualBits));
  }

  /** Clearing mantissa bits leaves the sign alone. */
  lemma ClearingKeepsSign(c: Config, x: bv32)
    requires c.Valid()
    ensures SignOf(x & !LowMask(c.residualBits)) == SignOf(x)
  {
  }

  /** Clearing mantissa bits leaves the exponent alone. */
  lemma ClearingKeepsExponent(c: Config, x: bv32)
    requires c.Valid()
    ensures ExponentOf(x & !LowMask(c.residualBits)) == ExponentOf(x)
  {
  }

  /** decode_low keeps the sign and the exponent of the encoded word. */
  lemma DecodeLowKeepsSignAndExponent(c: Config, x: bv32)
    requires c.Valid()
    ensures SignOf(DecodeLowWord(c, EncodeWord(c, x).primary)) == SignOf(x)
    ensures ExponentOf(DecodeLowWord(c, EncodeWord(c, x).primary)) == ExponentOf(x)
  {
    DecodeLowOfEncode(c, x);
    ClearingKeepsSign(c, x);
    ClearingKeepsExponent(c, x);
  }

  /** With a residual within its width, decode and decode_low agree exactly
      when the residual is zero. */
  lemma DecodeLowExact(c: Config, w: bv32, res: bv32)
    requires c.Valid()
    ensures FitsIn(res, c.residualBits) ==>
      (DecodeWord(c, w, res) == DecodeLowWord(c, w) <==> res == 0)
  {
  }
}
