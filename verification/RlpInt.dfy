/** Unsigned integers: written without leading zero bytes, and read back. */
module RlpInt {
  import opened Bytes
  import opened Rlp

  /** rlp_append of u16, u32, u64, usize (size 2, 4, 8, 8) and of U128, U256 (size 16, 32). */
  function EncodeUint(n: nat, size: nat): Bytes
    requires n < Pow256(size)
  {
    EncodeValue(FixedBE(n, size)[LeadingEmptyBytes(n, size)..])
  }

  /** decode of u8 (size 1), u16, u32, u64. */
  function DecodeUint(b: Bytes, size: nat): Result<nat, DecoderError>
  {
    var v :- DecodeValue(b);
    if |v| == 0 then Ok(0)
    else if |v| == 1 then (if v[0] != 0 then Ok(v[0]) else Err(RlpInvalidIndirection))
    else if |v| <= size then (if v[0] == 0 then Err(RlpInvalidIndirection) else Ok(FromBE(v)))
    else Err(RlpIsTooBig)
  }

  /** decode of U128 and U256: the leading byte is looked at before the length. */
  function DecodeWide(b: Bytes, size: nat): Result<nat, DecoderError>
  {
    var v :- DecodeValue(b);
    if v != [] && v[0] == 0 then Err(RlpInvalidIndirection)
    else if |v| <= size then Ok(FromBE(v))
    else Err(RlpIsTooBig)
  }

  lemma SmallFromBE(v: Bytes)
    ensures |v| == 1 ==> FromBE(v) == v[0]
    ensures |v| == 0 ==> FromBE(v) == 0
  {
    if |v| == 1 {
      assert FromBE(v[..0]) == 0;
    }
  }

  /** A decoder accepts a byte string for n exactly when it holds the minimal digits of n and they fit. */
  lemma DecodesMinimalDigits(b: Bytes, size: nat, n: nat)
    requires size >= 1
    ensures DecodeUint(b, size) == Ok(n) <==> DecodeValue(b) == Ok(BE(n)) && n < Pow256(size)
    ensures DecodeWide(b, size) == Ok(n) <==> DecodeValue(b) == Ok(BE(n)) && n < Pow256(size)
  {
    BERoundTrip(n);
    BENonzeroLead(n);
    BELength(n, size);
    SmallFromBE(BE(n));
    if DecodeValue(b).Ok? {
      var v := DecodeValue(b).value;
      SmallFromBE(v);
      if v == [] || v[0] != 0 {
        FromBERoundTrip(v);
      }
    }
  }

  /** Every integer survives the trimmed big-endian round trip. */
  lemma UintRoundTrip(n: nat, size: nat)
    requires 1 <= size <= 32 && n < Pow256(size)
    ensures DecodeUint(EncodeUint(n, size), size) == Ok(n)
    ensures DecodeWide(EncodeUint(n, size), size) == Ok(n)
  {
    TrimmedFixedBE(n, size);
    BELength(n, size);
    ValueIsWhole(BE(n));
    DecodesMinimalDigits(EncodeUint(n, size), size, n);
  }

  /** A tree height is decoded twice, so only heights that are their own encoding survive. */
  lemma HeightDecodedTwice(h: nat)
    ensures DecodeUint(BE(h), 4) == Ok(h) <==> 1 <= h <= 127
  {
    var p := BE(h);
    BERoundTrip(h);
    BENonzeroLead(h);
    SmallFromBE(p);
    BELength(h, |p|);
    DecodesMinimalDigits(p, 4, h);
    if |p| > 1 && DecodeValue(p).Ok? {
      assert |DecodeValue(p).value| < |p|;
    }
  }
}
