/** What the readers accept and refuse, canonical or not. */
module RlpRefusal {
  import opened Bytes
  import opened Rlp

  lemma PrefixParts(h: Bytes, v: Bytes, b: Bytes)
    ensures h + v <= b <==> h <= b && |h| + |v| <= |b| && b[|h|..|h| + |v|] == v
  {
    if h + v <= b {
      assert b[..|h| + |v|] == h + v;
      assert b[|h|..|h| + |v|] == (h + v)[|h|..] == v;
      assert b[..|h|] == (h + v)[..|h|] == h;
    }
    if h <= b && |h| + |v| <= |b| && b[|h|..|h| + |v|] == v {
      assert b[..|h| + |v|] == b[..|h|] + b[|h|..|h| + |v|] == h + v;
    }
  }

  lemma FirstOfPrefix(h: Bytes, b: Bytes)
    requires h != [] && b != []
    ensures h <= b ==> h[0] == b[0]
    ensures [b[0]] <= b
  {
    assert b[..1] == [b[0]];
  }

  /** A number of at most 55 has one digit, and a longer one a header of its own. */
  lemma SmallDigits(n: nat)
    requires 0 < n < USIZE_LIMIT
    ensures 1 <= |BE(n)| <= 8 && BE(n)[0] != 0 && FromBE(BE(n)) == n
    ensures n <= 55 ==> BE(n) == [n]
  {
    LengthField(n);
    BERoundTrip(n);
    BELength(n, 1);
    Pow256Values();
  }

  lemma ShortForm(b: Bytes, v: Bytes)
    requires b != [] && b[0] <= 0xb7
    ensures DecodeValue(b) == Ok(v) <==> EncodeValue(v) <= b && |v| <= 55
  {
    FirstOfPrefix(EncodeValue(v), b);
    PrefixParts([b[0]], v, b);
    if DecodeValue(b) == Ok(v) && b[0] > 0x7f {
      assert EncodeValue(v) == [b[0]] + v;
    }
    if EncodeValue(v) <= b && |v| <= 55 {
      assert if b[0] <= 0x7f then v == [b[0]] else EncodeValue(v) == [b[0]] + v;
    }
  }

  /** A length field without a leading zero is the digits of the length. */
  lemma FieldRead(b: Bytes, k: nat, n: nat)
    requires 1 <= k <= 8 && |b| >= 1 + k && 0 < n < USIZE_LIMIT
    ensures b[1] != 0 && FromBE(b[1..1 + k]) == n <==> b[1..1 + k] == BE(n)
  {
    var digits := b[1..1 + k];
    assert digits[0] == b[1];
    SmallDigits(n);
    if b[1] != 0 {
      FromBERoundTrip(digits);
    }
  }

  /** What a long form says of its value. */
  lemma LongParts(b: Bytes, v: Bytes, k: nat)
    requires b != [] && 0xb8 <= b[0] <= 0xbf && k == b[0] - 0xb7 && |b| < USIZE_LIMIT
    ensures DecodeValue(b) == Ok(v) <==>
            && 1 + k + |v| <= |b| && b[1] != 0 && FromBE(b[1..1 + k]) == |v| && b[1 + k..1 + k + |v|] == v
  {
    if |b| > k {
      assert b[1..1 + k][0] == b[1];
    }
  }

  lemma LongForm(b: Bytes, v: Bytes)
    requires b != [] && 0xb8 <= b[0] <= 0xbf && |b| < USIZE_LIMIT
    ensures DecodeValue(b) == Ok(v) <==> v != [] && |BE(|v|)| == b[0] - 0xb7 && [b[0]] + BE(|v|) + v <= b
  {
    var k: nat := b[0] - 0xb7;
    LongParts(b, v, k);
    PrefixParts([b[0]] + BE(|v|), v, b);
    PrefixParts([b[0]], BE(|v|), b);
    FirstOfPrefix([b[0]], b);
    if |b| > k && |v| < USIZE_LIMIT {
      if v != [] {
        FieldRead(b, k, |v|);
      } else if b[1] != 0 {
        assert b[1..1 + k][0] == b[1];
        FromBEPositive(b[1..1 + k]);
      }
    }
  }

  lemma FirstByte(v: Bytes)
    requires |v| < USIZE_LIMIT
    ensures |v| <= 55 ==> EncodeValue(v)[0] <= 0xb7
    ensures |v| > 55 ==> |BE(|v|)| <= 8 && EncodeValue(v) == [0xb7 + |BE(|v|)|] + BE(|v|) + v
  {
    if |v| > 55 {
      LengthField(|v|);
      HeaderForm(0x80, |v|, |BE(|v|)|);
    }
  }

  /** b starts with a string of one to 55 bytes behind a needless length field. */
  predicate Needless(b: Bytes, v: Bytes)
  {
    1 <= |v| <= 55 && |b| >= 2 + |v| && b[0] == 0xb8 && b[1] == |v| && b[2..2 + |v|] == v
  }

  /** A value is read from exactly its canonical encoding, whatever follows, and from that one other form. */
  lemma AcceptsExactly(b: Bytes, v: Bytes)
    requires |b| < USIZE_LIMIT
    ensures DecodeValue(b) == Ok(v) <==> EncodeValue(v) <= b || Needless(b, v)
  {
    if b != [] && |v| < USIZE_LIMIT {
      FirstByte(v);
      FirstOfPrefix(EncodeValue(v), b);
      if b[0] <= 0xb7 {
        ShortForm(b, v);
      } else if b[0] <= 0xbf {
        LongForm(b, v);
        LongFormIs(b, v);
      }
    }
  }

  lemma LongFormIs(b: Bytes, v: Bytes)
    requires b != [] && 0xb8 <= b[0] <= 0xbf && |v| < USIZE_LIMIT
    ensures v != [] && |BE(|v|)| == b[0] - 0xb7 && [b[0]] + BE(|v|) + v <= b <==>
            EncodeValue(v) <= b || Needless(b, v)
  {
    FirstByte(v);
    FirstOfPrefix(EncodeValue(v), b);
    if v != [] {
      SmallDigits(|v|);
      if |v| <= 55 {
        NeedlessIs(b, v);
      }
    }
  }

  lemma NeedlessIs(b: Bytes, v: Bytes)
    requires 1 <= |v| <= 55 && b != [] && 0xb8 <= b[0] <= 0xbf && BE(|v|) == [|v|]
    ensures |BE(|v|)| == b[0] - 0xb7 && [b[0]] + BE(|v|) + v <= b <==> Needless(b, v)
  {
    var n: byte := |v|;
    var h := [b[0]] + [n];
    PrefixParts(h, v, b);
    PrefixParts([b[0]], [n], b);
    FirstOfPrefix([n], b);
    assert h == [b[0]] + BE(|v|);
    if |b| > 1 {
      assert b[1..2] == [b[1]];
    }
  }

  // ---------------------------------------------------------------- extents

  /** The header of a payload of n bytes, canonical or with a needless length field. */
  ghost predicate HeaderFor(b: Bytes, base: byte, h: nat, n: nat)
    requires base == 0x80 || base == 0xc0
  {
    || (h == |Header(base, n)| && Header(base, n) <= b)
    || (h == 2 && 1 <= n <= 55 && |b| >= 2 && b[0] == base + 56 && b[1] == n)
  }

  lemma BigHeader(b: Bytes, base: byte, k: nat, n: nat)
    requires base == 0x80 || base == 0xc0
    requires b != [] && 1 <= k <= 8 && b[0] == base + 55 + k && 55 < n < USIZE_LIMIT
    ensures |Header(base, n)| == 1 + |BE(n)|
    ensures Header(base, n) <= b <==> |b| > k && b[1..1 + k] == BE(n)
  {
    SmallDigits(n);
    var lead: byte := base + 55 + |BE(n)|;
    HeaderForm(base, n, |BE(n)|);
    PrefixParts([lead], BE(n), b);
    FirstOfPrefix([lead], b);
  }

  lemma SmallHeader(b: Bytes, base: byte, k: nat, n: nat)
    requires base == 0x80 || base == 0xc0
    requires b != [] && 1 <= k <= 8 && b[0] == base + 55 + k && 0 < n <= 55
    ensures !(Header(base, n) <= b)
    ensures |b| >= 2 && b[0] == base + 56 && b[1] == n <==> |b| > k && b[1..1 + k] == BE(n)
  {
    SmallDigits(n);
    FirstOfPrefix(Header(base, n), b);
    if |b| > 1 {
      assert b[1..2] == [b[1]];
    }
  }

  lemma HeaderForLong(b: Bytes, base: byte, k: nat, h: nat, n: nat)
    requires base == 0x80 || base == 0xc0
    requires b != [] && 1 <= k <= 8 && b[0] == base + 55 + k && 0 < n < USIZE_LIMIT
    ensures HeaderFor(b, base, h, n) <==> h == 1 + k && |b| > k && b[1..1 + k] == BE(n)
  {
    if n > 55 {
      BigHeader(b, base, k, n);
    } else {
      SmallHeader(b, base, k, n);
      SmallDigits(n);
    }
  }

  lemma LongExtent(b: Bytes, base: byte, k: nat, h: nat, n: nat)
    requires base == 0x80 || base == 0xc0
    requires b != [] && 1 <= k <= 8 && b[0] == base + 55 + k && 0 < n < USIZE_LIMIT
    ensures LongPayloadInfo(b, k) == Ok(PayloadInfo(h, n)) <==> HeaderFor(b, base, h, n)
  {
    HeaderForLong(b, base, k, h, n);
    if |b| > k {
      assert b[1..1 + k][0] == b[1];
      FieldRead(b, k, n);
    }
  }

  lemma NoLongZero(b: Bytes, base: byte, k: nat, h: nat)
    requires base == 0x80 || base == 0xc0
    requires b != [] && 1 <= k <= 8 && b[0] == base + 55 + k
    ensures LongPayloadInfo(b, k) != Ok(PayloadInfo(h, 0)) && !HeaderFor(b, base, h, 0)
  {
    FirstOfPrefix(Header(base, 0), b);
    if |b| > k && b[1] != 0 {
      assert b[1..1 + k][0] == b[1];
      FromBEPositive(b[1..1 + k]);
    }
  }

  /** The extent of a string or list, canonical or not, is accepted exactly for these headers, and only if
      all of it is there. */
  lemma ExtentExactly(b: Bytes, h: nat, n: nat)
    requires b != [] && b[0] >= 0x80 && |b| < USIZE_LIMIT
    ensures ItemInfo(b) == Ok(PayloadInfo(h, n)) <==>
            h + n <= |b| && HeaderFor(b, if b[0] < 0xc0 then 0x80 else 0xc0, h, n)
  {
    var base: byte := if b[0] < 0xc0 then 0x80 else 0xc0;
    if h + n <= |b| {
      FirstOfPrefix(Header(base, n), b);
      if b[0] > base + 55 {
        LongExtentOrNone(b, base, b[0] - base - 55, h, n);
      } else {
        ShortExtent(b, base, h, n);
      }
    }
  }

  lemma ShortExtent(b: Bytes, base: byte, h: nat, n: nat)
    requires base == 0x80 || base == 0xc0
    requires b != [] && base <= b[0] <= base + 55 && n < USIZE_LIMIT
    ensures HeaderInfo(b) == Ok(PayloadInfo(h, n)) <==> HeaderFor(b, base, h, n)
  {
    FirstOfPrefix(Header(base, n), b);
    if n > 55 {
      LengthField(n);
      HeaderForm(base, n, |BE(n)|);
    }
  }

  lemma LongExtentOrNone(b: Bytes, base: byte, k: nat, h: nat, n: nat)
    requires base == 0x80 || base == 0xc0
    requires b != [] && 1 <= k <= 8 && b[0] == base + 55 + k && n < USIZE_LIMIT
    ensures HeaderInfo(b) == Ok(PayloadInfo(h, n)) <==> HeaderFor(b, base, h, n)
  {
    assert HeaderInfo(b) == LongPayloadInfo(b, k);
    if n > 0 {
      LongExtent(b, base, k, h, n);
    } else {
      NoLongZero(b, base, k, h);
    }
  }

  // ---------------------------------------------------------------- what follows a list

  lemma FirstThenRest(rs: seq<Bytes>, tail: Bytes)
    requires rs != [] && Whole(rs[0])
    ensures var p := Concat(rs) + tail;
            && ItemInfo(p) == ItemInfo(rs[0]) && ItemInfo(p).Ok? && ItemInfo(p).value.Total() == |rs[0]|
            && p[..|rs[0]|] == rs[0] && p[|rs[0]|..] == Concat(rs[1..]) + tail
  {
    var rest := Concat(rs[1..]) + tail;
    WholePrefix(rs[0], rest);
    assert Concat(rs) + tail == rs[0] + rest;
  }

  lemma {:induction false} CountGoesOn(rs: seq<Bytes>, tail: Bytes)
    requires AllWhole(rs)
    ensures CountItems(Concat(rs) + tail) == |rs| + CountItems(tail)
    decreases |rs|
  {
    if rs == [] {
      assert Concat(rs) + tail == tail;
    } else {
      FirstThenRest(rs, tail);
      assert forall r <- rs[1..] :: r in rs;
      CountGoesOn(rs[1..], tail);
    }
  }

  lemma {:induction false} WalkGoesOn(rs: seq<Bytes>, tail: Bytes, i: nat)
    requires AllWhole(rs) && i <= |rs|
    ensures ConsumeItems(Concat(rs) + tail, i) == Ok(Concat(rs[i..]) + tail)
    decreases i
  {
    if i == 0 {
      assert rs[0..] == rs;
    } else {
      FirstThenRest(rs, tail);
      assert forall r <- rs[1..] :: r in rs;
      WalkGoesOn(rs[1..], tail, i - 1);
      assert rs[1..][i - 1..] == rs[i..];
    }
  }

  lemma MorePayload(b: Bytes, p: Bytes, tail: Bytes)
    requires Whole(b) && ListPayload(b) == Ok(p)
    ensures ListPayload(b + tail) == Ok(p + tail)
  {
    WholePrefix(b, tail);
    var h := ItemInfo(b).value.headerLen;
    assert (b + tail)[h..] == b[h..] + tail;
  }

  lemma AfterTheHeader(p: Bytes, tail: Bytes)
    requires |EncodeList(p)| < USIZE_LIMIT
    ensures ListPayload(EncodeList(p) + tail) == Ok(p + tail)
  {
    ListIsWhole(p);
    MorePayload(EncodeList(p), p, tail);
  }

  /** A list is read on beyond its own end: whatever bytes follow it are counted and indexed as further
      items, as far as they are readable. */
  lemma TrailingItems(rs: seq<Bytes>, tail: Bytes, i: nat)
    requires AllWhole(rs) && |EncodeList(Concat(rs))| < USIZE_LIMIT && i <= |rs|
    ensures var b := EncodeList(Concat(rs)) + tail;
            && IsList(b) && ItemCount(b) == Ok(|rs| + CountItems(tail))
            && At(b, i) == if i < |rs| then Ok(rs[i]) else FirstItem(tail)
  {
    var p := Concat(rs);
    var b := EncodeList(p) + tail;
    ListIsWhole(p);
    WholePrefix(EncodeList(p), tail);
    AfterTheHeader(p, tail);
    CountGoesOn(rs, tail);
    WalkGoesOn(rs, tail, i);
    if i < |rs| {
      FirstThenRest(rs[i..], tail);
      assert rs[i..][0] == rs[i] && rs[i] in rs;
    } else {
      assert Concat(rs[i..]) + tail == tail;
    }
  }

  // ---------------------------------------------------------------- known encodings

  /** Encodings that the repository's own tests fix. */
  lemma KnownData()
    ensures Encode(Data([])) == [0x80] && Encode(Data([0x0f])) == [0x0f]
    ensures Encode(Data([0x04, 0x00])) == [0x82, 0x04, 0x00]
    ensures Encode(Data([0x63, 0x61, 0x74])) == [0x83, 0x63, 0x61, 0x74]
    ensures Encode(Data([0x64, 0x6f, 0x67])) == [0x83, 0x64, 0x6f, 0x67]
  {
  }

  lemma KnownLists()
    ensures Encode(List([])) == [0xc0]
    ensures Encode(List([Data([0x63, 0x61, 0x74]), Data([0x64, 0x6f, 0x67])]))
         == [0xc8, 0x83, 0x63, 0x61, 0x74, 0x83, 0x64, 0x6f, 0x67]
  {
    KnownData();
    TwoItems(Data([0x63, 0x61, 0x74]), Data([0x64, 0x6f, 0x67]));
  }

  lemma KnownNesting()
    ensures Encode(List([List([]), List([List([])])])) == [0xc3, 0xc0, 0xc1, 0xc0]
  {
    KnownLists();
    OneItem(List([]));
    assert Encode(List([List([])])) == [0xc1, 0xc0];
    TwoItems(List([]), List([List([])]));
  }

  lemma OneItem(t: Item)
    ensures Encode(List([t])) == EncodeList(Encode(t))
  {
    assert [t][0] == t && [t][1..] == [];
    assert EncodeAll([t]) == [Encode(t)] + EncodeAll([]);
    assert [Encode(t)][1..] == [] && Concat([Encode(t)]) == Encode(t) + [];
  }

  lemma TwoItems(t: Item, u: Item)
    ensures Encode(List([t, u])) == EncodeList(Encode(t) + Encode(u))
  {
    assert [t, u][0] == t && [t, u][1..] == [u] && [u][1..] == [];
    assert EncodeAll([u]) == [Encode(u)] + EncodeAll([]);
    assert EncodeAll([t, u]) == [Encode(t)] + EncodeAll([u]) == [Encode(t), Encode(u)];
    assert [Encode(t), Encode(u)][1..] == [Encode(u)] && [Encode(u)][1..] == [];
    assert Concat([Encode(u)]) == Encode(u) + [];
  }
}
