# Adaptive float32 bit-splitting codec, modelled in Dafny

The `Encoding` class splits every IEEE-754 binary32 value of a tensor into two
integer streams. The **primary** stream holds each value's sign, its 8-bit
exponent and the top `primary_m_bits` bits of its 23-bit mantissa. The
**residual** stream holds the remaining `residual_m_bits` low mantissa bits.
A single `aggression` in [0, 1] fixes the split when the codec is built:
`primary_m_bits = round((1 - aggression) * 23)`. `decode` joins both streams
back exactly. `decode_low` rebuilds an approximation from the primary stream
alone, with the residual bits taken as zero.

The model works on bit patterns. A tensor is a sequence of 32-bit words
(`seq<bv32>`), and a float is never read as a number, so NaNs, infinities,
subnormals and signed zeros are ordinary words.

- `float32_bits.dfy` (module `Float32Bits`) has the binary32 field layout and
  some bit-vector helpers.
- `encoding.dfy` (module `Encoding`) has the codec:
  - the constructor `New`, whose aggression defaults to 0.5 and which
    returns `Err(AggressionOutOfRange)` where the source's assertion fails;
  - `EncodeWord`, `DecodeWord` and `DecodeLowWord`, which do the
    source's shifts and masks on one word;
  - `Encode`, `Decode` and `DecodeLow` on whole streams.
- `word_laws.dfy` (module `WordLaws`) has the laws on single words. Some
  are proved for a symbolic split. Some are proved split by split: groups
  of six splits with a dispatcher lemma over the four groups. The round
  trips are assembled from these and from general bit facts in
  `Float32Bits`.
- `stream_laws.dfy` (module `StreamLaws`) lifts those laws to streams.
- `split_laws.dfy` (module `SplitLaws`) covers how the aggression picks the
  split.
- `driver.dfy` (module `Driver`) is the example in `main.py`, worked out on
  its four values.

The code and its documentation disagree in two places. The model follows the
code in both:

- The class docstring (`encoding.py:15`) says aggression 0.5 gives 11 primary
  and 12 residual mantissa bits. The code computes `round(11.5)`. Python
  rounds ties to even, so the code keeps 12 primary bits and 11 residual
  bits. `SplitLaws.HalfAggression` proves the 12/11 split.
- The comment at `main.py:7` calls aggression 0.5 "60%" of the mantissa in
  the primary stream. At 12 of 23 bits it is about 52%.

## Model

| member | source | states |
|---|---|---|
| Float32Bits.SignOf | encoding.py:52 | the sign field is 0 or 1, and it is 1 exactly when the word's top bit is set |
| Float32Bits.ExponentOf | encoding.py:53 | the exponent field fits in 8 bits |
| Float32Bits.MantissaOf | encoding.py:54 | the mantissa field fits in 23 bits |
| Float32Bits.Assemble | encoding.py:73 | putting in-range sign, exponent and mantissa fields together makes a word whose fields read back as those values |
| Float32Bits.AssembleFields | encoding.py:52-54 | every word is the assembly of its own three fields, so the field split loses nothing |
| Encoding.Config.Valid | encoding.py:44-46 | the split invariant: the primary and residual mantissa bit counts add up to the 23 mantissa bits, so the primary count is at most 23; `Encoding.New` sets it up and every operation requires it |
| Encoding.RoundHalfEven | encoding.py:45 | Python's `round` gives an integer within 1/2 of its argument, and on a tie it gives the even neighbour |
| Encoding.PrimaryBitsInRange | encoding.py:45-46 | for an aggression in [0, 1], the rounded primary bit count is between 0 and 23 |
| Encoding.New | encoding.py:41-46 | construction succeeds exactly when 0 <= aggression <= 1 and fails with `AggressionOutOfRange` otherwise; on success the two bit counts add up to 23, the primary count is at most 23 and is `round((1 - aggression) * 23)`, and the aggression is kept |
| Encoding.Pack | encoding.py:59 | the primary word's layout: sign, then exponent, then the high mantissa bits; `WordLaws.EncodePrimaryIsHighBits` states what it yields inside encode |
| Encoding.PrimaryMantissa | encoding.py:67 | the low `primary_m_bits` bits of a primary word, as decode and decode_low read them (lines 67 and 79); `WordLaws.DecodeLowOfFitting` states the result |
| Encoding.PrimaryExponent | encoding.py:68 | the 8 bits above those, as read at lines 68 and 80; `WordLaws.DecodeLowOfFitting` states the result |
| Encoding.PrimarySign | encoding.py:69 | the bit above the exponent, as read at lines 69 and 81; `WordLaws.DecodeLowOfFitting` states the result |
| Encoding.EncodeWord | encoding.py:52-59 | encode on one word. `WordLaws.EncodePrimaryIsHighBits` shows the primary word is the input shifted right by `residual_m_bits`, and `WordLaws.EncodeResidualIsLowBits` shows the residual is the input's low `residual_m_bits` bits |
| Encoding.DecodeWord | encoding.py:67-73 | decode on one word. `WordLaws.DecodeIsDecodeLowOr` shows it is decode_low with the residual or-ed in, for any residual |
| Encoding.DecodeLowWord | encoding.py:79-85 | decode_low on one word. `WordLaws.DecodeLowOfFitting` shows it shifts an in-width primary word left by `residual_m_bits`, and `WordLaws.DecodeLowClearsLowBits` shows its low `residual_m_bits` bits are always zero |
| Encoding.Encode | encoding.py:48-61 | encode flattens its input and splits every word on its own: both output streams have the input's length, and each position holds the encoding of the input word at that position |
| Encoding.Decode | encoding.py:63-74 | decode joins the two streams position by position: the output has their common length, and each position is decoded from the primary and residual words at that position |
| Encoding.DecodeLow | encoding.py:76-86 | decode_low rebuilds each position from its primary word alone, and it keeps the stream's length |
| WordLaws.EncodePrimaryIsHighBits | encoding.py:52-59 | the primary word of x is exactly x shifted right by `residual_m_bits`, for every split |
| WordLaws.EncodeResidualIsLowBits | encoding.py:54-57 | the residual word of x is exactly the low `residual_m_bits` bits of x |
| WordLaws.HighBitsFit | encoding.py:56-59 | x shifted right by `residual_m_bits` is below 2^(9 + `primary_m_bits`) |
| WordLaws.LowBitsFit | encoding.py:57 | the low `residual_m_bits` bits of x are below 2^`residual_m_bits` |
| WordLaws.EncodeWordInRange | encoding.py:48-61 | every primary word is below 2^(9 + `primary_m_bits`) and every residual word is below 2^`residual_m_bits` |
| WordLaws.DecodeLowOfFitting | encoding.py:79-85 | for a primary word below 2^(9 + `primary_m_bits`), decode_low is that word shifted left by `residual_m_bits` |
| WordLaws.DecodeOfFitting | encoding.py:67-73 | for such a primary word, decode is that word shifted left by `residual_m_bits` with the residual or-ed in |
| WordLaws.DecodeHighLow | encoding.py:63-74 | decoding the high part and the low part of x gives x back |
| WordLaws.DecodeEncodeWord | encoding.py:48-74 | round trip on one word: decode(encode(x)) == x for every 32-bit pattern and every split |
| WordLaws.EncodeDecodePrimary | encoding.py:63-74 | when the pair is within its widths, re-encoding a decoded pair gives its primary word back |
| WordLaws.EncodeDecodeResidual | encoding.py:63-74 | when the residual is within its width, re-encoding a decoded pair gives its residual word back |
| WordLaws.EncodeDecodeWord | encoding.py:48-74 | on pairs within their widths, encode(decode(p, r)) == (p, r), so encode is a bijection onto such pairs |
| WordLaws.DecodeIsDecodeLowOr | encoding.py:71-83 | decode is decode_low with the residual or-ed in, even when the residual is too wide |
| WordLaws.DecodeLowIsDecodeWithZero | encoding.py:76-86 | decode_low(p) == decode(p, 0) |
| WordLaws.DecodeLowClearsLowBits | encoding.py:83-85 | decode_low leaves the low `residual_m_bits` bits of its result zero, whatever the primary word |
| WordLaws.DecodeLowOrResidual | encoding.py:48-86 | or-ing x's residual bits into decode_low of x's primary word gives x |
| WordLaws.DecodeLowOfEncode | encoding.py:48-86 | decode_low(encode(x).primary) is x with its low `residual_m_bits` bits cleared |
| WordLaws.ClearingKeepsSign | encoding.py:52 | clearing mantissa bits does not change the sign |
| WordLaws.ClearingKeepsExponent | encoding.py:53 | clearing mantissa bits does not change the exponent |
| WordLaws.DecodeLowKeepsSignAndExponent | encoding.py:76-86 | decode_low of an encoded word keeps the original's sign and exponent |
| WordLaws.DecodeLowExact | encoding.py:63-86 | with a residual within its width, decode and decode_low agree exactly when the residual is zero |
| StreamLaws.EncodeInRange | encoding.py:48-61 | every primary word of an encoded stream is below 2^(9 + `primary_m_bits`) and every residual word is below 2^`residual_m_bits` |
| StreamLaws.DecodeEncode | encoding.py:48-74 | round trip on streams: decode(encode(xs)) == xs for every split |
| StreamLaws.EncodeDecode | encoding.py:48-74 | for streams of equal length whose words are within their widths, encode(decode(p, r)) == (p, r) |
| StreamLaws.DecodeLowIsDecodeWithZeros | encoding.py:76-86 | decode_low(p) == decode(p, zeros) |
| StreamLaws.DecodeLowOfEncodeStream | encoding.py:48-86 | each word of decode_low(encode(xs).primary) is the input word with its low `residual_m_bits` bits cleared |
| StreamLaws.DecodeLowKeepsSignsAndExponents | encoding.py:76-86 | decode_low of an encoded stream keeps every word's sign and exponent |
| StreamLaws.DecodeLowExactStream | encoding.py:63-86 | with residuals within their width, decode equals decode_low exactly when every residual is zero |
| StreamLaws.NoResidualIsLossless | encoding.py:13 | with 0 residual bits, every residual is zero and decode_low alone gives the input back |
| StreamLaws.NoPrimaryMantissa | encoding.py:14 | with 0 primary mantissa bits, each primary word is just sign and exponent and each residual is the whole mantissa |
| SplitLaws.RoundHalfEvenOfInteger | encoding.py:45 | rounding an integral value gives it back |
| SplitLaws.RoundHalfEvenMonotone | encoding.py:45 | rounding is monotone |
| SplitLaws.NoAggression | encoding.py:13 | aggression 0.0 gives 23 primary and 0 residual mantissa bits |
| SplitLaws.FullAggression | encoding.py:14 | aggression 1.0 gives 0 primary and 23 residual mantissa bits |
| SplitLaws.HalfAggression | encoding.py:15 | aggression 0.5 gives 12 primary and 11 residual mantissa bits (the docstring says 11 and 12) |
| SplitLaws.DefaultAggression | encoding.py:41 | `Encoding()` with no argument uses aggression 0.5, and so the 12/11 split |
| SplitLaws.NewMonotone | encoding.py:12 | raising the aggression never keeps more mantissa bits in the primary stream |
| SplitLaws.EverySplitReachable | encoding.py:41-46 | every primary bit count from 0 to 23 comes from some aggression in [0, 1] |
| Driver.EncodeInputs | main.py:5-8 | at the 12/11 split, 1.5, -2.75, 0.0 and 100.125 encode to primary words 0x7F800, 0x180600, 0 and 0x85908, and all their residuals are zero |
| Driver.DecodeStreams | main.py:10-11 | decode and decode_low both rebuild the four input words from those streams |
| Driver.RunExample | main.py:5-11 | the whole example: `Encoding(aggression=0.5)` has the 12/11 split, and encode, decode and decode_low give the results above |

## Left out

- Tensor mechanics are not modelled: `reshape(-1)`, the reinterpreting `view` between float32 and int32, and the `.to(torch.int32)` casts. A tensor is its flattened sequence of words, and the output shape is not tracked.
- Encoding.Decode: requires streams of equal length. The source leaves unequal lengths to torch broadcasting or a torch error.
- Encoding.Decode: does not check the residual's width, and neither does the source. The converse round trip and the exactness laws require residuals within `residual_m_bits` bits.
- Encoding.New: computes `(1 - aggression) * 23` on exact reals. The source uses binary64 arithmetic, whose rounding before `round` is not modelled. The laws cover 0.0, 0.5 and 1.0 exactly.
- Encoding.New: an out-of-range aggression gives an `Err` result. In the source it is a Python `assert`, which is skipped when Python runs with optimisation (`-O`); that behaviour is not modelled.
- Signed int32 arithmetic shifts are modelled as logical shifts on 32-bit words. Every shift in the source is masked, or has a sign bit of zero, so both give the same bits.
- Floats are bit patterns only. Their numeric values and the error of the lossy reconstruction are not modelled.
- The printing in `main.py` (lines 13-15) is I/O and is not modelled.
