/** What compression does at every place of a tree, however deep. */
module CompressionReach {
  import opened Bytes
  import opened Rlp
  import opened RlpView
  import opened Compression

  /** Following a path of indexes into nested lists. */
  function Reach(b: Bytes, path: seq<nat>): Result<Bytes, DecoderError>
    decreases |path|
  {
    if path == [] then Ok(b)
    else match At(b, path[0])
      case Err(e) => Err(e)
      case Ok(r) => Reach(r, path[1..])
  }

  /** What stands where d stood: data that has a replacement is replaced, other data is not, and a list
      stays a list. */
  ghost predicate StandsFor(s: Swapper, d: Bytes, e: Bytes)
  {
    if IsData(d) then IsData(e) && e == (if d in s.validToInvalid then s.validToInvalid[d] else d) else IsList(e)
  }

  /** Compression keeps the shape of the tree and treats each place by itself. */
  ghost predicate SamePlaces(s: Swapper, b: Bytes, c: Bytes, path: seq<nat>)
  {
    match Reach(b, path)
    case Ok(d) => Reach(c, path).Ok? && StandsFor(s, d, Reach(c, path).value)
    case Err(_) => Reach(c, path).Err?
  }

  lemma InvalidIsData(b: Bytes)
    requires IsInvalid(b)
    ensures IsData(b) && !IsList(b)
  {
  }

  lemma NoPathIntoData(b: Bytes, path: seq<nat>)
    requires IsData(b) && path != []
    ensures Reach(b, path).Err?
  {
  }

  lemma DataInPlace(v: Bytes, s: Swapper, path: seq<nat>)
    requires Sound(s) && |EncodeValue(v)| < U32_LIMIT
    ensures SamePlaces(s, EncodeValue(v), SimpleCompress(EncodeValue(v), s), path)
  {
    var b := EncodeValue(v);
    ValueIsWhole(v);
    var c := SimpleCompress(b, s);
    assert c == if b in s.validToInvalid then s.validToInvalid[b] else b;
    if b in s.validToInvalid {
      InvalidIsData(c);
    }
    if path != [] {
      NoPathIntoData(b, path);
      NoPathIntoData(c, path);
    }
  }

  lemma ListInPlace(rs: seq<Bytes>, cs: seq<Bytes>, s: Swapper, path: seq<nat>)
    requires AllWhole(rs) && |EncodeList(Concat(rs))| < U32_LIMIT && AllRestored(cs, rs, s)
    requires path != [] && path[0] < |rs| ==> SamePlaces(s, rs[path[0]], cs[path[0]], path[1..])
    ensures SamePlaces(s, EncodeList(Concat(rs)), EncodeList(Concat(cs)), path)
  {
    var b, c := EncodeList(Concat(rs)), EncodeList(Concat(cs));
    RestoredParts(cs, rs, s);
    ListShrinks(Concat(cs), Concat(rs));
    ListReadsBack(rs);
    ListReadsBack(cs);
    ListIsWhole(Concat(rs));
    ListIsWhole(Concat(cs));
    if path != [] && path[0] >= |rs| {
      AtBelowCount(b, path[0]);
      AtBelowCount(c, path[0]);
    }
  }

  /** At every place of a canonical tree stands, after compression, what the swapper makes of it. */
  lemma {:induction false} CompressedInPlace(t: Item, s: Swapper, path: seq<nat>)
    requires Sound(s) && |Encode(t)| < U32_LIMIT
    ensures SamePlaces(s, Encode(t), SimpleCompress(Encode(t), s), path)
    decreases t
  {
    match t
    case Data(v) => DataInPlace(v, s, path);
    case List(ts) =>
      var rs, cs := ListCompressed(ts, s);
      if path != [] && path[0] < |ts| {
        ConcatPartLength(rs, path[0]);
        CompressedInPlace(ts[path[0]], s, path[1..]);
      }
      ListInPlace(rs, cs, s, path);
  }

  /** A list is compressed item by item. */
  lemma ListCompressed(ts: seq<Item>, s: Swapper) returns (rs: seq<Bytes>, cs: seq<Bytes>)
    requires Sound(s) && |Encode(List(ts))| < U32_LIMIT
    ensures rs == EncodeAll(ts) && |cs| == |rs| == |ts| && AllWhole(rs) && AllRestored(cs, rs, s)
    ensures forall i | 0 <= i < |ts| :: rs[i] == Encode(ts[i]) && cs[i] == SimpleCompress(rs[i], s)
    ensures SimpleCompress(Encode(List(ts)), s) == EncodeList(Concat(cs))
  {
    rs := EncodeAll(ts);
    var all := rs;
    cs := seq(|all|, i requires 0 <= i < |all| => SimpleCompress(all[i], s));
    ChildrenFit(ts);
    forall i | 0 <= i < |ts|
      ensures Whole(rs[i]) && Restored(cs[i], rs[i], s)
    {
      ConcatPartLength(rs, i);
      EncodeIsWhole(ts[i]);
      TreeRestored(ts[i], s);
    }
    RestoredParts(cs, rs, s);
    RestoredMaps(cs, rs, s, EncodeList(Concat(rs)), EncodeList(Concat(cs)));
    ListShrinks(Concat(cs), Concat(rs));
    CompressList(rs, cs, s);
  }

  /** The strings that are swapped are exactly those of the table. */
  lemma {:induction false} SwapsTheTable(table: seq<Bytes>, k: nat, b: Bytes)
    requires k <= |table| <= 0x7e
    ensures b in SwapperOf(table, InvalidRlps(), k).validToInvalid <==> b in table[..k]
  {
    if k > 0 {
      SwapsTheTable(table, k - 1, b);
      assert table[..k] == table[..k - 1] + [table[k - 1]];
    }
  }

  /** And the string of index j becomes the two bytes 0x81 and j, unless it comes again later. */
  lemma {:induction false} SwappedForIndex(table: seq<Bytes>, k: nat, j: nat)
    requires j < k <= |table| <= 0x7e && forall i | j < i < k :: table[i] != table[j]
    ensures table[j] in SwapperOf(table, InvalidRlps(), k).validToInvalid
    ensures SwapperOf(table, InvalidRlps(), k).validToInvalid[table[j]] == [0x81, j]
  {
    if j < k - 1 {
      SwappedForIndex(table, k - 1, j);
    }
  }

  /** No string of the table is left anywhere in the compressed tree. */
  lemma NoTableStringLeft(r: Item, t: RlpType, common: seq<Bytes>, empty: seq<Bytes>, path: seq<nat>)
    requires |common| <= 0x7e && |empty| <= 0x7e
    requires (forall b <- common :: |b| >= 2 && !IsInvalid(b)) && (forall b <- empty :: |b| >= 2 && !IsInvalid(b))
    requires |Encode(r)| < U32_LIMIT
    ensures var c := Compress(Encode(r), t, Swappers(TableSwapper(common), TableSwapper(empty)));
            var table := if t.Blocks? then common else empty;
            Reach(c, path).Ok? && IsData(Reach(c, path).value) ==> Reach(c, path).value !in table
  {
    var table := if t.Blocks? then common else empty;
    var s := TableSwapper(table);
    TableIsSound(table, |table|);
    CompressedInPlace(r, s, path);
    var d := Reach(Encode(r), path);
    if d.Ok? {
      assert table[..|table|] == table;
      SwapsTheTable(table, |table|, d.value);
    }
  }

  lemma OneItemFits(v: Bytes)
    requires |Encode(List([Data(v)]))| < U32_LIMIT
    ensures |EncodeValue(v)| < U32_LIMIT
  {
    ChildrenFit([Data(v)]);
    ConcatPartLength(EncodeAll([Data(v)]), 0);
  }

  lemma DataSwapped(v: Bytes, s: Swapper)
    requires |EncodeValue(v)| < U32_LIMIT && EncodeValue(v) in s.validToInvalid
    ensures SimpleCompress(EncodeValue(v), s) == s.validToInvalid[EncodeValue(v)]
  {
    ValueIsWhole(v);
  }

  /** A list of one string of the table, as the program compresses it. */
  lemma OneStringSwapped(table: seq<Bytes>, j: nat, v: Bytes)
    requires |table| <= 0x7e && forall b <- table :: |b| >= 2
    requires j < |table| && table[j] == EncodeValue(v) && forall i | j < i < |table| :: table[i] != table[j]
    requires |Encode(List([Data(v)]))| < U32_LIMIT
    ensures SimpleCompress(Encode(List([Data(v)])), TableSwapper(table)) == [0xc2, 0x81, j]
  {
    var s := TableSwapper(table);
    TableIsSound(table, |table|);
    SwappedForIndex(table, |table|, j);
    OneItemFits(v);
    DataSwapped(v, s);
    OneDataCompressed(v, s);
  }

  lemma OneDataCompressed(v: Bytes, s: Swapper)
    requires Sound(s) && |Encode(List([Data(v)]))| < U32_LIMIT && |SimpleCompress(EncodeValue(v), s)| == 2
    ensures SimpleCompress(Encode(List([Data(v)])), s) == [0xc2] + SimpleCompress(EncodeValue(v), s)
  {
    var rs, cs := ListCompressed([Data(v)], s);
    assert [Data(v)][0] == Data(v);
    ConcatOne(cs);
  }

  lemma ConcatOne(cs: seq<Bytes>)
    requires |cs| == 1
    ensures Concat(cs) == cs[0]
  {
    assert cs[1..] == [] && Concat(cs) == cs[0] + Concat(cs[1..]);
  }
}
