/** Recursive length prefix: the encoding of Appendix B of the Ethereum Yellow Paper,
    and the pure reading functions of the repository's byte-slice view. */
module Rlp {
  import opened Bytes

  datatype Item = Data(bytes: Bytes) | List(items: seq<Item>)

  datatype DecoderError =
    | RlpIsTooBig
    | RlpIsTooShort
    | RlpExpectedToBeList
    | RlpExpectedToBeData
    | RlpDataLenWithZeroPrefix
    | RlpInvalidIndirection
    | RlpInconsistentLengthAndData
    | RlpInvalidLength

  datatype PayloadInfo = PayloadInfo(headerLen: nat, valueLen: nat) {
    function Total(): nat { headerLen + valueLen }
  }

  // ---------------------------------------------------------------- the encoding

  /** Header for a payload of n bytes; base is 0x80 for strings and 0xc0 for lists.
      The Yellow Paper defines it for n below 2^64 only. */
  function Header(base: byte, n: nat): Bytes
    requires base == 0x80 || base == 0xc0
  {
    if n <= 55 then [base + n] else [(base + 55 + |BE(n)|) % 256] + BE(n)
  }

  function EncodeValue(v: Bytes): Bytes
  {
    if |v| == 1 && v[0] < 0x80 then v else Header(0x80, |v|) + v
  }

  function EncodeList(payload: Bytes): Bytes
  {
    Header(0xc0, |payload|) + payload
  }

  function Encode(t: Item): Bytes
  {
    match t
    case Data(v) => EncodeValue(v)
    case List(ts) => EncodeList(Concat(EncodeAll(ts)))
  }

  function EncodeAll(ts: seq<Item>): (r: seq<Bytes>)
    ensures |r| == |ts|
  {
    if ts == [] then [] else [Encode(ts[0])] + EncodeAll(ts[1..])
  }

  lemma {:induction false} EncodeAllAt(ts: seq<Item>, i: nat)
    requires i < |ts|
    ensures EncodeAll(ts)[i] == Encode(ts[i])
  {
    if i > 0 {
      EncodeAllAt(ts[1..], i - 1);
    }
  }

  // ---------------------------------------------------------------- the view

  /** The number a length field stands for. An empty field would index out of range. */
  function DecodeUsize(b: Bytes): Result<nat, DecoderError>
    requires b != []
  {
    if |b| > 8 then Err(RlpIsTooBig)
    else if b[0] == 0 then Err(RlpInvalidIndirection)
    else Ok(FromBE(b))
  }

  function LongPayloadInfo(b: Bytes, lenOfLen: nat): Result<PayloadInfo, DecoderError>
    requires lenOfLen > 0
  {
    if |b| < 2 then Err(RlpIsTooShort)
    else if b[1] == 0 then Err(RlpDataLenWithZeroPrefix)
    else if |b| < 1 + lenOfLen then Err(RlpIsTooShort)
    else
      var n :- DecodeUsize(b[1..1 + lenOfLen]);
      Ok(PayloadInfo(1 + lenOfLen, n))
  }

  function HeaderInfo(b: Bytes): Result<PayloadInfo, DecoderError>
  {
    if b == [] then Err(RlpIsTooShort)
    else
      var l := b[0];
      if l <= 0x7f then Ok(PayloadInfo(0, 1))
      else if l <= 0xb7 then Ok(PayloadInfo(1, l - 0x80))
      else if l <= 0xbf then LongPayloadInfo(b, l - 0xb7)
      else if l <= 0xf7 then Ok(PayloadInfo(1, l - 0xc0))
      else LongPayloadInfo(b, l - 0xf7)
  }

  /** Extent of the first item of b, checked against what b really holds. */
  function ItemInfo(b: Bytes): (r: Result<PayloadInfo, DecoderError>)
    ensures r.Ok? ==> 0 < r.value.Total() <= |b|
  {
    var item :- HeaderInfo(b);
    if item.Total() < USIZE_LIMIT && item.Total() <= |b| then Ok(item) else Err(RlpIsTooShort)
  }

  predicate IsList(b: Bytes) { b != [] && b[0] >= 0xc0 }

  predicate IsData(b: Bytes) { b != [] && b[0] < 0xc0 }

  /** A zero-length string or a zero-length list. */
  predicate IsEmpty(b: Bytes) { b != [] && (b[0] == 0xc0 || b[0] == 0x80) }

  function Size(b: Bytes): nat
  {
    if IsData(b) && ItemInfo(b).Ok? then ItemInfo(b).value.valueLen else 0
  }

  function Payload(b: Bytes): Result<Bytes, DecoderError>
  {
    var i :- ItemInfo(b);
    Ok(b[i.headerLen..i.Total()])
  }

  function Consume(b: Bytes, n: nat): Result<Bytes, DecoderError>
  {
    if |b| >= n then Ok(b[n..]) else Err(RlpIsTooShort)
  }

  /** Everything after the header of the list, trailing bytes included. */
  function ListPayload(b: Bytes): Result<Bytes, DecoderError>
  {
    var i :- ItemInfo(b);
    Consume(b, i.headerLen)
  }

  function ConsumeItems(b: Bytes, n: nat): Result<Bytes, DecoderError>
    decreases n, |b|
  {
    if n == 0 then Ok(b)
    else
      var i :- ItemInfo(b);
      var rest :- Consume(b, i.Total());
      ConsumeItems(rest, n - 1)
  }

  function FirstItem(b: Bytes): Result<Bytes, DecoderError>
  {
    var i :- ItemInfo(b);
    Ok(b[..i.Total()])
  }

  /** The item at the given index, found by walking from the start of the list. */
  function At(b: Bytes, index: nat): Result<Bytes, DecoderError>
  {
    if !IsList(b) then Err(RlpExpectedToBeList)
    else
      var p :- ListPayload(b);
      var rest :- ConsumeItems(p, index);
      FirstItem(rest)
  }

  /** How many items can be read from the front of b. */
  function CountItems(b: Bytes): nat
    decreases |b|
  {
    match ItemInfo(b)
    case Err(_) => 0
    case Ok(i) => 1 + CountItems(b[i.Total()..])
  }

  function ItemCount(b: Bytes): Result<nat, DecoderError>
  {
    if !IsList(b) then Err(RlpExpectedToBeList)
    else match ListPayload(b)
      case Err(_) => Ok(0)
      case Ok(p) => Ok(CountItems(p))
  }

  function DecodeValue(b: Bytes): Result<Bytes, DecoderError>
  {
    if b == [] then Err(RlpIsTooShort)
    else
      var l := b[0];
      if l <= 0x7f then Ok([l])
      else if l <= 0xb7 then
        var end := 1 + l - 0x80;
        if |b| < end then Err(RlpInconsistentLengthAndData)
        else if l == 0x81 && b[1] < 0x80 then Err(RlpInvalidIndirection)
        else Ok(b[1..end])
      else if l <= 0xbf then
        var begin := 1 + l - 0xb7;
        if |b| < begin then Err(RlpInconsistentLengthAndData)
        else
          var n :- DecodeUsize(b[1..begin]);
          if begin + n >= USIZE_LIMIT then Err(RlpInvalidLength)
          else if |b| < begin + n then Err(RlpInconsistentLengthAndData)
          else Ok(b[begin..begin + n])
      else Err(RlpExpectedToBeData)
  }

  // ---------------------------------------------------------------- strings that are one item

  /** b is exactly one item: its header accounts for all of its bytes. */
  predicate Whole(b: Bytes)
  {
    ItemInfo(b).Ok? && ItemInfo(b).value.Total() == |b|
  }

  lemma WholePrefix(b: Bytes, tail: Bytes)
    requires Whole(b)
    ensures ItemInfo(b + tail) == ItemInfo(b)
  {
    assert (b + tail)[0] == b[0];
    if 0xb8 <= b[0] <= 0xbf {
      LongPrefix(b, tail, b[0] - 0xb7);
    } else if b[0] >= 0xf8 {
      LongPrefix(b, tail, b[0] - 0xf7);
    }
  }

  lemma LongPrefix(b: Bytes, tail: Bytes, k: nat)
    requires k > 0 && LongPayloadInfo(b, k).Ok?
    ensures LongPayloadInfo(b + tail, k) == LongPayloadInfo(b, k)
  {
    assert (b + tail)[1..1 + k] == b[1..1 + k] && (b + tail)[1] == b[1];
  }

  lemma LongHeader(base: byte, n: nat, tail: Bytes)
    requires base == 0x80 || base == 0xc0
    requires 55 < n < USIZE_LIMIT
    ensures 1 <= |BE(n)| <= 8 && Header(base, n) == [base + 55 + |BE(n)|] + BE(n)
    ensures HeaderInfo(Header(base, n) + tail) == Ok(PayloadInfo(1 + |BE(n)|, n))
    ensures (Header(base, n) + tail)[1..1 + |BE(n)|] == BE(n)
    ensures DecodeUsize(BE(n)) == Ok(n)
  {
    LengthField(n);
    HeaderForm(base, n, |BE(n)|);
    LongForm(base, BE(n), n, tail);
  }

  lemma HeaderForm(base: byte, n: nat, k: nat)
    requires base == 0x80 || base == 0xc0
    requires n > 55 && k == |BE(n)| <= 8
    ensures Header(base, n) == [base + 55 + k] + BE(n)
  {
    assert (base + 55 + k) % 256 == base + 55 + k;
  }

  lemma LongForm(base: byte, digits: Bytes, n: nat, tail: Bytes)
    requires base == 0x80 || base == 0xc0
    requires 1 <= |digits| <= 8 && digits[0] != 0 && DecodeUsize(digits) == Ok(n)
    ensures var b, k := ([base + 55 + |digits|] + digits) + tail, |digits|;
            b[1..1 + k] == digits && HeaderInfo(b) == Ok(PayloadInfo(1 + k, n))
  {
    var b, k := ([base + 55 + |digits|] + digits) + tail, |digits|;
    assert b[0] == base + 55 + k && b[1] == digits[0] && b[1..1 + k] == digits;
    assert LongPayloadInfo(b, k) == Ok(PayloadInfo(1 + k, n));
  }

  /** A length field of at most eight bytes is read back. */
  lemma LengthField(n: nat)
    requires 0 < n < USIZE_LIMIT
    ensures 1 <= |BE(n)| <= 8 && BE(n)[0] != 0 && DecodeUsize(BE(n)) == Ok(n)
  {
    Pow256Values();
    BELength(n, 8);
    BENonzeroLead(n);
    BERoundTrip(n);
  }

  lemma ListIsWhole(payload: Bytes)
    requires |EncodeList(payload)| < USIZE_LIMIT
    ensures var b := EncodeList(payload);
            Whole(b) && IsList(b) && ListPayload(b) == Ok(payload) && Payload(b) == Ok(payload)
  {
    var b := EncodeList(payload);
    if |payload| > 55 {
      LongHeader(0xc0, |payload|, payload);
    }
    assert b[|Header(0xc0, |payload|)|..] == b[|Header(0xc0, |payload|)|..|b|] == payload;
  }

  lemma HeadedIsWhole(v: Bytes)
    requires !(|v| == 1 && v[0] < 0x80) && |EncodeValue(v)| < USIZE_LIMIT
    ensures var b := EncodeValue(v);
            Whole(b) && IsData(b) && Payload(b) == Ok(v) && DecodeValue(b) == Ok(v) && Size(b) == |v|
  {
    var b := EncodeValue(v);
    if |v| > 55 {
      LongHeader(0x80, |v|, v);
    }
    assert b[|Header(0x80, |v|)|..] == b[|Header(0x80, |v|)|..|b|] == v;
  }

  lemma ValueIsWhole(v: Bytes)
    requires |EncodeValue(v)| < USIZE_LIMIT
    ensures var b := EncodeValue(v);
            Whole(b) && IsData(b) && Payload(b) == Ok(v) && DecodeValue(b) == Ok(v) && Size(b) == |v|
  {
    if |v| == 1 && v[0] < 0x80 {
      assert v == [v[0]] == EncodeValue(v)[0..1];
    } else {
      HeadedIsWhole(v);
    }
  }

  lemma EncodeIsWhole(t: Item)
    requires |Encode(t)| < USIZE_LIMIT
    ensures Whole(Encode(t)) && IsData(Encode(t)) == t.Data? && IsList(Encode(t)) == t.List?
  {
    match t
    case Data(v) => ValueIsWhole(v);
    case List(ts) => ListIsWhole(Concat(EncodeAll(ts)));
  }

  predicate AllWhole(rs: seq<Bytes>)
  {
    forall r <- rs :: Whole(r)
  }

  /** Walking over whole items skips exactly those items. */
  lemma {:induction false} ConsumeWhole(rs: seq<Bytes>, tail: Bytes, n: nat)
    requires AllWhole(rs) && n <= |rs|
    ensures ConsumeItems(Concat(rs) + tail, n) == Ok(Concat(rs[n..]) + tail)
  {
    if n == 0 {
      assert rs[n..] == rs;
    } else {
      var b, rest := Concat(rs) + tail, Concat(rs[1..]) + tail;
      assert b == rs[0] + rest;
      WholePrefix(rs[0], rest);
      assert b[|rs[0]|..] == rest;
      assert forall r <- rs[1..] :: r in rs;
      ConsumeWhole(rs[1..], tail, n - 1);
      assert rs[1..][n - 1..] == rs[n..];
    }
  }

  lemma {:induction false} CountWhole(rs: seq<Bytes>)
    requires AllWhole(rs)
    ensures CountItems(Concat(rs)) == |rs|
  {
    if rs != [] {
      WholePrefix(rs[0], Concat(rs[1..]));
      assert Concat(rs)[|rs[0]|..] == Concat(rs[1..]);
      assert forall r <- rs[1..] :: r in rs;
      CountWhole(rs[1..]);
    }
  }

  /** A list built from whole items reads back as those items. */
  lemma ListReadsBack(rs: seq<Bytes>)
    requires AllWhole(rs) && |EncodeList(Concat(rs))| < USIZE_LIMIT
    ensures var b := EncodeList(Concat(rs));
            IsList(b) && ItemCount(b) == Ok(|rs|) && forall i | 0 <= i < |rs| :: At(b, i) == Ok(rs[i])
  {
    var b := EncodeList(Concat(rs));
    ListIsWhole(Concat(rs));
    CountWhole(rs);
    forall i | 0 <= i < |rs|
      ensures At(b, i) == Ok(rs[i])
    {
      ConsumeWhole(rs, [], i);
      assert Concat(rs) + [] == Concat(rs) && Concat(rs[i..]) + [] == Concat(rs[i..]);
      var tail := Concat(rs[i..][1..]);
      assert Concat(rs[i..]) == rs[i] + tail;
      WholePrefix(rs[i], tail);
      assert (rs[i] + tail)[..|rs[i]|] == rs[i];
    }
  }

  // ---------------------------------------------------------------- decoding undoes encoding

  /** What a reader learns from b through is_data, decode_value, item_count and at is the tree t. */
  ghost predicate Reads(b: Bytes, t: Item)
    decreases t
  {
    match t
    case Data(v) => IsData(b) && DecodeValue(b) == Ok(v)
    case List(ts) =>
      && IsList(b)
      && ItemCount(b) == Ok(|ts|)
      && forall i | 0 <= i < |ts| :: At(b, i).Ok? && Reads(At(b, i).value, ts[i])
  }

  lemma {:induction false} ConcatPartLength(rs: seq<Bytes>, i: nat)
    requires i < |rs|
    ensures |rs[i]| <= |Concat(rs)|
  {
    if i > 0 {
      ConcatPartLength(rs[1..], i - 1);
    }
  }

  lemma ChildrenFit(ts: seq<Item>)
    requires |Encode(List(ts))| < USIZE_LIMIT
    ensures forall i | 0 <= i < |ts| :: |Encode(ts[i])| < USIZE_LIMIT && EncodeAll(ts)[i] == Encode(ts[i])
  {
    forall i | 0 <= i < |ts|
      ensures |Encode(ts[i])| < USIZE_LIMIT && EncodeAll(ts)[i] == Encode(ts[i])
    {
      EncodeAllAt(ts, i);
      ConcatPartLength(EncodeAll(ts), i);
    }
  }

  /** Decoding undoes encoding, on every nested tree that fits the address space. */
  lemma {:induction false} DecodingUndoesEncoding(t: Item)
    requires |Encode(t)| < USIZE_LIMIT
    ensures Reads(Encode(t), t)
    decreases t
  {
    match t
    case Data(v) => ValueIsWhole(v);
    case List(ts) =>
      ChildrenFit(ts);
      forall i | 0 <= i < |ts|
        ensures Whole(EncodeAll(ts)[i]) && Reads(EncodeAll(ts)[i], ts[i])
      {
        EncodeIsWhole(ts[i]);
        DecodingUndoesEncoding(ts[i]);
      }
      ListReadsBack(EncodeAll(ts));
  }

  /** A reader cannot see two different trees in the same bytes. */
  lemma {:induction false} ReadsIsFunctional(b: Bytes, t: Item, u: Item)
    requires Reads(b, t) && Reads(b, u)
    ensures t == u
    decreases t
  {
    if t.List? && u.List? {
      forall i | 0 <= i < |t.items|
        ensures t.items[i] == u.items[i]
      {
        ReadsIsFunctional(At(b, i).value, t.items[i], u.items[i]);
      }
    }
  }

  lemma EncodeInjective(t: Item, u: Item)
    requires Encode(t) == Encode(u) && |Encode(t)| < USIZE_LIMIT
    ensures t == u
  {
    DecodingUndoesEncoding(t);
    DecodingUndoesEncoding(u);
    ReadsIsFunctional(Encode(t), t, u);
  }
}
