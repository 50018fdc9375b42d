/** The byte-slice view with its offset and count caches. Whatever calls were made before,
    it answers like the cacheless functions of module Rlp. */
module RlpView {
  import opened Bytes
  import opened Rlp

  const USIZE_MAX: nat := USIZE_LIMIT - 1

  /** Accumulates a length field byte by byte, most significant first. */
  method ReadUsize(b: Bytes) returns (r: Result<nat, DecoderError>)
    requires b != []
    ensures r == DecodeUsize(b)
  {
    if |b| > 8 {
      return Err(RlpIsTooBig);
    }
    if b[0] == 0 {
      return Err(RlpInvalidIndirection);
    }
    var res := 0;
    for i := 0 to |b|
      invariant res == FromBE(b[..i]) * Pow256(|b| - i)
    {
      res := res + b[i] * Pow256(|b| - 1 - i);
      ShiftInByte(b, i);
    }
    assert b[..|b|] == b;
    return Ok(res);
  }

  lemma ShiftInByte(b: Bytes, i: nat)
    requires i < |b|
    ensures FromBE(b[..i]) * Pow256(|b| - i) + b[i] * Pow256(|b| - 1 - i) ==
            FromBE(b[..i + 1]) * Pow256(|b| - 1 - i)
  {
    var x, w := FromBE(b[..i]), Pow256(|b| - 1 - i);
    assert b[..i + 1][..i] == b[..i];
    assert FromBE(b[..i + 1]) == x * 256 + b[i];
    assert Pow256(|b| - i) == 256 * w;
    assert x * (256 * w) + b[i] * w == (x * 256 + b[i]) * w;
  }

  lemma {:induction false} ConsumeItemsSplit(b: Bytes, m: nat, n: nat)
    requires ConsumeItems(b, m).Ok?
    ensures ConsumeItems(b, m + n) == ConsumeItems(ConsumeItems(b, m).value, n)
    decreases m
  {
    if m != 0 {
      ConsumeItemsSplit(Consume(b, ItemInfo(b).value.Total()).value, m - 1, n);
    }
  }

  /** Every item uses up at least one byte. */
  lemma {:induction false} ConsumeItemsShrinks(b: Bytes, n: nat)
    requires ConsumeItems(b, n).Ok?
    ensures |ConsumeItems(b, n).value| + n <= |b|
    ensures ConsumeItems(b, n).value == b[|b| - |ConsumeItems(b, n).value|..]
    decreases n
  {
    if n != 0 {
      var total := ItemInfo(b).value.Total();
      ConsumeItemsShrinks(b[total..], n - 1);
    }
  }

  lemma {:induction false} CountByWalking(b: Bytes, n: nat)
    requires ConsumeItems(b, n).Ok? && ItemInfo(ConsumeItems(b, n).value).Err?
    ensures CountItems(b) == n
    decreases n
  {
    if n != 0 {
      CountByWalking(b[ItemInfo(b).value.Total()..], n - 1);
    }
  }

  /** Loops over n items. */
  method SkipItems(b: Bytes, n: nat) returns (r: Result<Bytes, DecoderError>)
    ensures r == ConsumeItems(b, n)
  {
    var result := b;
    for i := 0 to n
      invariant ConsumeItems(b, i) == Ok(result)
    {
      ConsumeItemsSplit(b, i, n - i);
      ConsumeItemsSplit(b, i, 1);
      var info := ItemInfo(result);
      if info.Err? {
        return Err(info.error);
      }
      var rest := Consume(result, info.value.Total());
      assert ConsumeItems(result, 1) == rest;
      result := rest.value;
    }
    return Ok(result);
  }

  /** Walking from a suffix of b ends at a suffix of b. */
  lemma SuffixReached(b: Bytes, start: Bytes, n: nat)
    requires |start| <= |b| && start == b[|b| - |start|..]
    requires ConsumeItems(start, n).Ok?
    ensures var end := ConsumeItems(start, n).value;
            |end| <= |b| && end == b[|b| - |end|..]
  {
    ConsumeItemsShrinks(start, n);
  }

  function WalkFrom(start: Result<Bytes, DecoderError>, n: nat): Result<Bytes, DecoderError>
  {
    var b :- start;
    ConsumeItems(b, n)
  }

  class UntrustedRlp {
    const bytes: Bytes
    var cachedIndex: nat
    var cachedOffset: nat
    var countCache: Option<nat>

    /** The cache still is the one of a new view. */
    predicate FreshCache()
      reads this
    {
      cachedIndex == USIZE_MAX && cachedOffset == 0
    }

    /** The cache points at the start of an item of the list. */
    ghost predicate CachePointsAtItem()
      reads this
    {
      && IsList(bytes) && ListPayload(bytes).Ok?
      && cachedOffset <= |bytes|
      && ConsumeItems(ListPayload(bytes).value, cachedIndex) == Ok(bytes[cachedOffset..])
    }

    ghost predicate Valid()
      reads this
    {
      && |bytes| < USIZE_MAX
      && (FreshCache() || CachePointsAtItem())
      && (countCache.Some? ==> ItemCount(bytes) == Ok(countCache.value))
    }

    constructor (bytes: Bytes)
      requires |bytes| < USIZE_MAX
      ensures Valid() && this.bytes == bytes && FreshCache()
    {
      this.bytes := bytes;
      cachedIndex, cachedOffset, countCache := USIZE_MAX, 0, None;
    }

    /** The item at index, resumed from the cached position when that is not past it.
        The largest index is mistaken for the mark of an unused cache. */
    method ItemAt(index: nat) returns (r: Result<Bytes, DecoderError>)
      requires Valid() && index < USIZE_LIMIT
      modifies this`cachedIndex, this`cachedOffset
      ensures Valid()
      ensures index < USIZE_MAX || !old(FreshCache()) ==> r == At(bytes, index)
      ensures index == USIZE_MAX && old(FreshCache()) ==> r == AtUnusedMark(bytes) && FreshCache()
    {
      if !IsList(bytes) {
        return Err(RlpExpectedToBeList);
      }
      ghost var unmarked := FreshCache() && index == USIZE_MAX;
      var start, toSkip := StartOfWalk(index);
      if start.Err? {
        return Err(start.error);
      }
      var found := SkipItems(start.value, toSkip);
      if found.Err? {
        return Err(found.error);
      }
      SuffixReached(bytes, start.value, toSkip);
      cachedIndex, cachedOffset := index, |bytes| - |found.value|;
      r := FirstItem(found.value);
    }

    /** The cached position if its index is not past the one wanted, otherwise the start of the list. */
    method StartOfWalk(index: nat) returns (start: Result<Bytes, DecoderError>, toSkip: nat)
      requires Valid() && IsList(bytes) && index < USIZE_LIMIT
      ensures start.Ok? ==> |start.value| <= |bytes| && start.value == bytes[|bytes| - |start.value|..]
      ensures FreshCache() && index == USIZE_MAX ==> start == Ok(bytes) && toSkip == 0
      ensures !(FreshCache() && index == USIZE_MAX) ==> WalkFrom(start, toSkip) == WalkFrom(ListPayload(bytes), index)
    {
      if cachedIndex <= index {
        start, toSkip := Consume(bytes, cachedOffset), index - cachedIndex;
        if CachePointsAtItem() {
          ConsumeItemsSplit(ListPayload(bytes).value, cachedIndex, toSkip);
        }
      } else {
        start, toSkip := ListPayload(bytes), index;
      }
    }

    /** Counts by asking for one item after the other until that fails. */
    method CountCached() returns (r: Result<nat, DecoderError>)
      requires Valid()
      modifies this
      ensures Valid() && r == ItemCount(bytes)
    {
      if !IsList(bytes) {
        return Err(RlpExpectedToBeList);
      }
      if countCache.Some? {
        return Ok(countCache.value);
      }
      var c := 0;
      var item := ItemAt(0);
      while item.Ok?
        invariant Valid() && countCache == None && c <= |bytes|
        invariant item == At(bytes, c)
        invariant c > 0 ==> ListPayload(bytes).Ok? && ConsumeItems(ListPayload(bytes).value, c).Ok?
        decreases |bytes| - c, item.Ok?
      {
        NextReachable(bytes, c);
        c := c + 1;
        item := ItemAt(c);
      }
      if ListPayload(bytes).Ok? {
        CountByWalking(ListPayload(bytes).value, c);
      }
      countCache := Some(c);
      return Ok(c);
    }
  }

  lemma ConsumeOne(b: Bytes)
    requires ItemInfo(b).Ok?
    ensures ConsumeItems(b, 1) == Ok(b[ItemInfo(b).value.Total()..])
  {
    assert ConsumeItems(b[ItemInfo(b).value.Total()..], 0).Ok?;
  }

  lemma NextReachable(b: Bytes, c: nat)
    requires At(b, c).Ok?
    ensures ListPayload(b).Ok? && ConsumeItems(ListPayload(b).value, c + 1).Ok? && c + 1 <= |b|
  {
    var p := ListPayload(b).value;
    var rest := ConsumeItems(p, c).value;
    assert ItemInfo(rest).Ok?;
    ConsumeOne(rest);
    ConsumeItemsSplit(p, c, 1);
    ConsumeItemsShrinks(p, c + 1);
  }

  /** What a new view answers for the largest index: its own first item, the list itself. */
  function AtUnusedMark(b: Bytes): Result<Bytes, DecoderError>
  {
    if IsList(b) then FirstItem(b) else Err(RlpExpectedToBeList)
  }

  /** That answer is wrong for every list whose header can be read, and only for those. */
  lemma UnusedMarkIsWrong(b: Bytes)
    requires |b| < USIZE_MAX
    ensures AtUnusedMark(b) == At(b, USIZE_MAX) <==> !(IsList(b) && ItemInfo(b).Ok?)
  {
    if IsList(b) && ItemInfo(b).Ok? && At(b, USIZE_MAX).Ok? {
      NextReachable(b, USIZE_MAX);
    }
  }

  lemma UnusedMarkExample()
    ensures AtUnusedMark([0xc0]) == Ok([0xc0]) && At([0xc0], USIZE_MAX).Err?
  {
    UnusedMarkIsWrong([0xc0]);
    assert [0xc0][..1] == [0xc0];
  }

  /** Iterator over the items of a list. */
  class UntrustedRlpIterator {
    const rlp: UntrustedRlp
    var index: nat

    constructor (rlp: UntrustedRlp)
      ensures this.rlp == rlp && index == 0
    {
      this.rlp := rlp;
      index := 0;
    }

    /** Yields the item at the current position, and nothing from the end of the list on. */
    method Next() returns (r: Option<Bytes>)
      requires rlp.Valid() && index < USIZE_MAX
      modifies this, rlp
      ensures rlp.Valid() && index == old(index) + 1
      ensures r.Some? <==> ItemCount(rlp.bytes).Ok? && old(index) < ItemCount(rlp.bytes).value
      ensures r.Some? ==> At(rlp.bytes, old(index)) == Ok(r.value)
    {
      var result := rlp.ItemAt(index);
      AtBelowCount(rlp.bytes, index);
      index := index + 1;
      r := if result.Ok? then Some(result.value) else None;
    }
  }

  /** at succeeds exactly below the item count, so counting and iterating agree. */
  lemma AtBelowCount(b: Bytes, i: nat)
    ensures At(b, i).Ok? <==> ItemCount(b).Ok? && i < ItemCount(b).value
  {
    if IsList(b) && ListPayload(b).Ok? {
      WalkBelowCount(ListPayload(b).value, i);
    }
  }

  lemma {:induction false} WalkBelowCount(p: Bytes, i: nat)
    ensures ConsumeItems(p, i).Ok? && FirstItem(ConsumeItems(p, i).value).Ok? <==> i < CountItems(p)
    decreases i
  {
    if i != 0 && ItemInfo(p).Ok? {
      WalkBelowCount(p[ItemInfo(p).value.Total()..], i - 1);
    }
  }
}
