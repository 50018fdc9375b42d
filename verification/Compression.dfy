/** Compression of RLP by swapping common strings for short invalid encodings. */
module Compression {
  import opened Bytes
  import opened Rlp
  import opened RlpStream
  import opened RlpView

  // ---------------------------------------------------------------- the swapper

  datatype Swapper = Swapper(invalidToValid: map<Bytes, Bytes>, validToInvalid: map<Bytes, Bytes>)

  function Lookup(m: map<Bytes, Bytes>, b: Bytes): Option<Bytes>
  {
    if b in m then Some(m[b]) else None
  }

  /** The swapper for the first k pairs; a later pair replaces an earlier one with the same key. */
  function SwapperOf(rlps: seq<Bytes>, invalid: seq<Bytes>, k: nat): Swapper
    requires k <= |rlps| && k <= |invalid|
  {
    if k == 0 then Swapper(map[], map[])
    else
      var s := SwapperOf(rlps, invalid, k - 1);
      Swapper(s.invalidToValid[invalid[k - 1] := rlps[k - 1]], s.validToInvalid[rlps[k - 1] := invalid[k - 1]])
  }

  /** More than 126 strings panic. */
  method New(rlpsToSwap: seq<Bytes>, invalidRlps: seq<Bytes>) returns (s: Swapper)
    requires |rlpsToSwap| <= 0x7e
    ensures s == SwapperOf(rlpsToSwap, invalidRlps,
                           if |rlpsToSwap| <= |invalidRlps| then |rlpsToSwap| else |invalidRlps|)
  {
    var invalidToValid: map<Bytes, Bytes>, validToInvalid: map<Bytes, Bytes> := map[], map[];
    var i := 0;
    while i < |rlpsToSwap| && i < |invalidRlps|
      invariant i <= |rlpsToSwap| && i <= |invalidRlps|
      invariant Swapper(invalidToValid, validToInvalid) == SwapperOf(rlpsToSwap, invalidRlps, i)
    {
      invalidToValid := invalidToValid[invalidRlps[i] := rlpsToSwap[i]];
      validToInvalid := validToInvalid[rlpsToSwap[i] := invalidRlps[i]];
      i := i + 1;
    }
    return Swapper(invalidToValid, validToInvalid);
  }

  /** A single byte below 0x7f written with a needless header, which no encoder does. */
  predicate IsInvalid(b: Bytes) { |b| == 2 && b[0] == 0x81 && b[1] <= 0x7e }

  function InvalidRlps(): (r: seq<Bytes>)
    ensures |r| == 0x7f && forall i | 0 <= i < |r| :: r[i] == [0x81, i]
  {
    seq(0x7f, i requires 0 <= i < 0x7f => [0x81, i])
  }

  /** What a string is swapped for is invalid, and is swapped back to that string. */
  predicate Sound(s: Swapper)
  {
    && (forall v <- s.validToInvalid ::
          |v| >= 2 && IsInvalid(s.validToInvalid[v]) && Lookup(s.invalidToValid, s.validToInvalid[v]) == Some(v))
    && (forall x <- s.invalidToValid :: IsInvalid(x))
  }

  /** Every table of at most 126 strings of two bytes or more, repetitions included, is sound. */
  lemma {:induction false} TableIsSound(rlps: seq<Bytes>, k: nat)
    requires k <= |rlps| <= 0x7e && forall r <- rlps :: |r| >= 2
    ensures Sound(SwapperOf(rlps, InvalidRlps(), k))
    ensures forall x <- SwapperOf(rlps, InvalidRlps(), k).invalidToValid :: |x| == 2 && x[1] < k
    ensures forall v <- SwapperOf(rlps, InvalidRlps(), k).validToInvalid ::
              var x := SwapperOf(rlps, InvalidRlps(), k).validToInvalid[v]; |x| == 2 && x[1] < k
  {
    if k > 0 {
      TableIsSound(rlps, k - 1);
      assert rlps[k - 1] in rlps;
    }
  }

  // ---------------------------------------------------------------- items of a list

  /** The items read one after the other from the front of p, as far as they are readable. */
  function ItemsOf(p: Bytes): (r: seq<Bytes>)
    ensures forall b <- r :: |b| <= |p|
    decreases |p|
  {
    match ItemInfo(p)
    case Err(_) => []
    case Ok(i) => [p[..i.Total()]] + ItemsOf(p[i.Total()..])
  }

  /** What iterating over the view yields: items until the first that cannot be read. */
  function Items(b: Bytes): (r: seq<Bytes>)
    ensures forall c <- r :: |c| < |b|
  {
    if IsList(b) && ListPayload(b).Ok? then ItemsOf(ListPayload(b).value) else []
  }

  lemma {:induction false} ItemsOfByWalking(p: Bytes, i: nat)
    requires i <= |ItemsOf(p)|
    ensures |ItemsOf(p)| == CountItems(p)
    ensures ConsumeItems(p, i).Ok?
    ensures var first := FirstItem(ConsumeItems(p, i).value);
            if i < |ItemsOf(p)| then first == Ok(ItemsOf(p)[i]) else first.Err?
    decreases |p|
  {
    match ItemInfo(p)
    case Err(_) =>
    case Ok(info) => ItemsOfByWalking(p[info.Total()..], if i == 0 then 0 else i - 1);
  }

  /** Iterating is asking for each index in turn until an error, and the count agrees with it. */
  lemma ItemsByIndex(b: Bytes, i: nat)
    requires i <= |Items(b)|
    ensures if i < |Items(b)| then At(b, i) == Ok(Items(b)[i]) else At(b, i).Err?
    ensures IsList(b) ==> ItemCount(b) == Ok(|Items(b)|)
  {
    if IsList(b) && ListPayload(b).Ok? {
      ItemsOfByWalking(ListPayload(b).value, i);
    }
  }

  lemma {:induction false} ItemsOfWhole(rs: seq<Bytes>)
    requires AllWhole(rs)
    ensures ItemsOf(Concat(rs)) == rs
  {
    if rs != [] {
      WholePrefix(rs[0], Concat(rs[1..]));
      assert Concat(rs)[|rs[0]|..] == Concat(rs[1..]) && Concat(rs)[..|rs[0]|] == rs[0];
      assert forall r <- rs[1..] :: r in rs;
      ItemsOfWhole(rs[1..]);
    }
  }

  // ---------------------------------------------------------------- the transformations

  function OrElse(o: Option<Bytes>, b: Bytes): Bytes
  {
    match o
    case Some(v) => v
    case None => b
  }

  /** The items with f applied where it gives something, and whether it ever does. */
  function Fold(items: seq<Bytes>, f: Bytes --> Option<Bytes>): (r: (bool, seq<Bytes>))
    requires forall r <- items :: f.requires(r)
    ensures |r.1| == |items|
  {
    if items == [] then (false, [])
    else
      var rest := Fold(items[1..], f);
      (f(items[0]).Some? || rest.0, [OrElse(f(items[0]), items[0])] + rest.1)
  }

  function MapRlp(b: Bytes, f: Bytes --> Option<Bytes>): Option<Bytes>
    requires forall r <- Items(b) :: f.requires(r)
  {
    var r := Fold(Items(b), f);
    if r.0 then Some(StreamList(Concat(r.1))) else None
  }

  /** Appending encoded items one by one. */
  function RawCalls(parts: seq<Bytes>): seq<Op>
  {
    if parts == [] then [] else [AddRaw(parts[0], 1)] + RawCalls(parts[1..])
  }

  lemma {:induction false} RawCallsFillList(outer: Model, payload: Bytes, count: nat, parts: seq<Bytes>)
    requires parts != []
    ensures Run(Open(outer, payload, count, Some(count + |parts|)), RawCalls(parts))
            == outer.Note(StreamList(payload + Concat(parts)), 1)
    decreases |parts|
  {
    var started := Open(outer, payload, count, Some(count + |parts|));
    var rest := parts[1..];
    var next := Step(started, AddRaw(parts[0], 1));
    assert RawCalls(parts) == [AddRaw(parts[0], 1)] + RawCalls(rest);
    assert Run(started, RawCalls(parts)) == Run(next, RawCalls(rest));
    assert payload + Concat(parts) == (payload + parts[0]) + Concat(rest);
    if rest == [] {
      assert Concat(rest) == [] && RawCalls(rest) == [];
      assert payload + Concat(parts) == payload + parts[0];
    } else {
      RawCallsFillList(outer, payload + parts[0], count + 1, rest);
    }
  }

  /** What the fold drives a stream through, a list of as many items as counted and one raw item
      after the other, appends the list of the items. */
  lemma StreamOfParts(m: Model, parts: seq<Bytes>)
    ensures Run(Step(m, OpenList(|parts|)), RawCalls(parts)) == m.Note(StreamList(Concat(parts)), 1)
  {
    if parts != [] {
      RawCallsFillList(m, [], 0, parts);
      assert [] + Concat(parts) == Concat(parts);
    }
  }

  function SimpleCompress(b: Bytes, s: Swapper): Bytes
    decreases |b|, 1
  {
    if IsData(b) then OrElse(Lookup(s.validToInvalid, b), b)
    else OrElse(MapRlp(b, Compressing(|b|, s)), b)
  }

  /** The step for items of fewer than n bytes. */
  function Compressing(n: nat, s: Swapper): Bytes --> Option<Bytes>
    decreases n, 0
  {
    r requires |r| < n => Some(SimpleCompress(r, s))
  }

  function SimpleDecompress(b: Bytes, s: Swapper): Bytes
    decreases |b|, 1
  {
    if IsData(b) then OrElse(Lookup(s.invalidToValid, b), b)
    else OrElse(MapRlp(b, Decompressing(|b|, s)), b)
  }

  function Decompressing(n: nat, s: Swapper): Bytes --> Option<Bytes>
    decreases n, 0
  {
    r requires |r| < n => Some(SimpleDecompress(r, s))
  }

  /** In front of the second item of a pair it says that the item is compressed data. */
  const MARKER: Bytes := [0x81, 0x7f]

  /** Nothing if there is nothing to decompress. */
  function DeepDecompress(b: Bytes, s: Swapper): Option<Bytes>
    decreases |b|, 1
  {
    if IsData(b) then Lookup(s.invalidToValid, b)
    else if ItemCount(b) == Ok(2) && At(b, 0) == Ok(MARKER) then
      match At(b, 1)
      case Err(_) => Lookup(s.invalidToValid, b)
      case Ok(r) =>
        PartIsShorter(b, 1);
        match DeepDecompress(r, s)
        case None => None
        case Some(d) => Some(StreamValue(d))
    else MapRlp(b, DeepDecompressing(|b|, s))
  }

  function DeepDecompressing(n: nat, s: Swapper): Bytes --> Option<Bytes>
    decreases n, 0
  {
    r requires |r| < n => DeepDecompress(r, s)
  }

  lemma PayloadIsShorter(b: Bytes)
    requires IsList(b) && ListPayload(b).Ok?
    ensures |ListPayload(b).value| < |b|
  {
  }

  lemma PartIsShorter(b: Bytes, i: nat)
    requires At(b, i).Ok?
    ensures |At(b, i).value| < |b|
  {
    PayloadIsShorter(b);
    var p := ListPayload(b).value;
    ConsumeItemsShrinks(p, i);
    FirstIsWithin(ConsumeItems(p, i).value);
  }

  lemma FirstIsWithin(b: Bytes)
    requires FirstItem(b).Ok?
    ensures |FirstItem(b).value| <= |b|
  {
  }

  /** The database the bytes come from; each has a swapper of its own. */
  datatype RlpType = Blocks | Snapshot
  datatype Swappers = Swappers(blocks: Swapper, snapshot: Swapper)

  function Compress(b: Bytes, t: RlpType, ss: Swappers): Bytes
  {
    match t
    case Snapshot => SimpleCompress(b, ss.snapshot)
    case Blocks => SimpleCompress(b, ss.blocks)
  }

  function Decompress(b: Bytes, t: RlpType, ss: Swappers): Bytes
  {
    match t
    case Snapshot => SimpleDecompress(b, ss.snapshot)
    case Blocks => OrElse(DeepDecompress(b, ss.blocks), b)
  }

  // ---------------------------------------------------------------- mapping over a list

  /** f takes b to c, where having no image means staying the same. */
  ghost predicate Takes(f: Bytes --> Option<Bytes>, b: Bytes, c: Bytes)
  {
    f.requires(b) && c == OrElse(f(b), b)
  }

  ghost predicate Maps(items: seq<Bytes>, f: Bytes --> Option<Bytes>, out: seq<Bytes>)
  {
    && |out| == |items|
    && forall i | 0 <= i < |items| :: Takes(f, items[i], out[i])
  }

  lemma {:induction false} FoldMaps(items: seq<Bytes>, f: Bytes --> Option<Bytes>, out: seq<Bytes>)
    requires Maps(items, f, out) && forall r <- items :: f.requires(r)
    ensures Fold(items, f).1 == out
    ensures !Fold(items, f).0 ==> out == items
    ensures (forall i | 0 <= i < |items| :: f(items[i]).None?) ==> !Fold(items, f).0
  {
    if items != [] {
      assert forall i | 0 <= i < |items| - 1 :: items[1..][i] == items[i + 1];
      FoldMaps(items[1..], f, out[1..]);
      assert out == [out[0]] + out[1..];
    }
  }

  /** Mapping over a list of whole items gives the list of their images, or nothing if no item
      has one. */
  lemma MapList(rs: seq<Bytes>, f: Bytes --> Option<Bytes>, out: seq<Bytes>)
    requires AllWhole(rs) && |EncodeList(Concat(rs))| < U32_LIMIT && Maps(rs, f, out)
    requires |EncodeList(Concat(out))| < U32_LIMIT
    ensures var b := EncodeList(Concat(rs));
            && Items(b) == rs && (forall r <- rs :: f.requires(r))
            && (MapRlp(b, f) == Some(EncodeList(Concat(out))) || (MapRlp(b, f).None? && out == rs))
            && ((forall i | 0 <= i < |rs| :: f(rs[i]).None?) ==> MapRlp(b, f).None?)
  {
    ListIsWhole(Concat(rs));
    ItemsOfWhole(rs);
    FoldMaps(rs, f, out);
    StreamHeaderIsCanonical(0xc0, |Concat(out)|);
  }

  // ---------------------------------------------------------------- decompression undoes compression

  lemma {:induction false} ConcatShrinks(out: seq<Bytes>, rs: seq<Bytes>)
    requires |out| == |rs| && forall i | 0 <= i < |rs| :: |out[i]| <= |rs[i]|
    ensures |Concat(out)| <= |Concat(rs)|
  {
    if rs != [] {
      assert forall i | 0 <= i < |rs| - 1 :: out[1..][i] == out[i + 1] && rs[1..][i] == rs[i + 1];
      ConcatShrinks(out[1..], rs[1..]);
    }
  }

  lemma ListShrinks(out: Bytes, p: Bytes)
    requires |out| <= |p| && |EncodeList(p)| < U32_LIMIT
    ensures |EncodeList(out)| <= |EncodeList(p)|
  {
    if |out| > 55 {
      LongHeader(0xc0, |out|, []);
      LongHeader(0xc0, |p|, []);
      BELength(|p|, |BE(|p|)|);
      BELength(|out|, |BE(|p|)|);
    }
  }

  /** No canonical encoding is an invalid one, nor the marker. */
  lemma CanonicalIsValid(t: Item)
    requires |Encode(t)| < U32_LIMIT
    ensures !IsInvalid(Encode(t)) && Encode(t) != MARKER
  {
    match t
    case Data(v) =>
      if |v| > 55 {
        LongHeader(0x80, |v|, v);
      }
    case List(ts) =>
      ListIsWhole(Concat(EncodeAll(ts)));
  }

  /** c is b compressed, and both decompressions bring b back; the deep one gives nothing exactly
      if there was nothing to do. */
  ghost predicate Restored(c: Bytes, b: Bytes, s: Swapper)
  {
    && c == SimpleCompress(b, s)
    && Whole(c) && |c| <= |b| && c != MARKER
    && SimpleDecompress(c, s) == b
    && DeepDecompress(c, s) == if c == b then None else Some(b)
  }

  lemma DataRestored(v: Bytes, s: Swapper)
    requires Sound(s) && |EncodeValue(v)| < U32_LIMIT
    ensures Restored(SimpleCompress(EncodeValue(v), s), EncodeValue(v), s)
  {
    ValueIsWhole(v);
    CanonicalIsValid(Data(v));
  }

  lemma CompressList(rs: seq<Bytes>, cs: seq<Bytes>, s: Swapper)
    requires AllWhole(rs) && |EncodeList(Concat(rs))| < U32_LIMIT && |EncodeList(Concat(cs))| < U32_LIMIT
    requires Maps(rs, Compressing(|EncodeList(Concat(rs))|, s), cs)
    ensures SimpleCompress(EncodeList(Concat(rs)), s) == EncodeList(Concat(cs))
  {
    var b := EncodeList(Concat(rs));
    ListIsWhole(Concat(rs));
    MapList(rs, Compressing(|b|, s), cs);
  }

  lemma DecompressList(cs: seq<Bytes>, rs: seq<Bytes>, s: Swapper)
    requires AllWhole(cs) && |EncodeList(Concat(cs))| < U32_LIMIT && |EncodeList(Concat(rs))| < U32_LIMIT
    requires Maps(cs, Decompressing(|EncodeList(Concat(cs))|, s), rs)
    ensures SimpleDecompress(EncodeList(Concat(cs)), s) == EncodeList(Concat(rs))
  {
    var c := EncodeList(Concat(cs));
    ListIsWhole(Concat(cs));
    MapList(cs, Decompressing(|c|, s), rs);
  }

  lemma DeepDecompressList(cs: seq<Bytes>, rs: seq<Bytes>, s: Swapper)
    requires AllWhole(cs) && AllWhole(rs)
    requires |EncodeList(Concat(cs))| < U32_LIMIT && |EncodeList(Concat(rs))| < U32_LIMIT
    requires Maps(cs, DeepDecompressing(|EncodeList(Concat(cs))|, s), rs)
    requires forall i | 0 <= i < |cs| :: DeepDecompress(cs[i], s).None? <==> cs[i] == rs[i]
    requires |cs| == 2 ==> cs[0] != MARKER
    ensures var c, b := EncodeList(Concat(cs)), EncodeList(Concat(rs));
            DeepDecompress(c, s) == if c == b then None else Some(b)
  {
    var c := EncodeList(Concat(cs));
    ListIsWhole(Concat(cs));
    ListReadsBack(cs);
    var f := DeepDecompressing(|c|, s);
    MapList(cs, f, rs);
    if c == EncodeList(Concat(rs)) {
      ItemsOfWhole(cs);
      ItemsOfWhole(rs);
      ListIsWhole(Concat(rs));
      assert rs == Items(c) == cs;
      assert forall i | 0 <= i < |cs| :: f(cs[i]).None?;
    }
  }

  ghost predicate AllRestored(cs: seq<Bytes>, rs: seq<Bytes>, s: Swapper)
  {
    |cs| == |rs| && forall i | 0 <= i < |rs| :: Restored(cs[i], rs[i], s)
  }

  lemma RestoredParts(cs: seq<Bytes>, rs: seq<Bytes>, s: Swapper)
    requires AllRestored(cs, rs, s)
    ensures AllWhole(cs) && (|cs| == 2 ==> cs[0] != MARKER)
    ensures |Concat(cs)| <= |Concat(rs)|
  {
    ConcatShrinks(cs, rs);
  }

  lemma RestoredTakes(c: Bytes, b: Bytes, s: Swapper, n: nat, m: nat)
    requires Restored(c, b, s) && |b| < n && |c| < m
    ensures Takes(Compressing(n, s), b, c)
    ensures Takes(Decompressing(m, s), c, b) && Takes(DeepDecompressing(m, s), c, b)
  {
  }

  lemma RestoredMaps(cs: seq<Bytes>, rs: seq<Bytes>, s: Swapper, b: Bytes, c: Bytes)
    requires AllRestored(cs, rs, s) && b == EncodeList(Concat(rs)) && c == EncodeList(Concat(cs))
    ensures Maps(rs, Compressing(|b|, s), cs)
    ensures Maps(cs, Decompressing(|c|, s), rs) && Maps(cs, DeepDecompressing(|c|, s), rs)
  {
    PartsAreShorter(rs);
    PartsAreShorter(cs);
    forall i | 0 <= i < |rs|
      ensures Takes(Compressing(|b|, s), rs[i], cs[i])
      ensures Takes(Decompressing(|c|, s), cs[i], rs[i]) && Takes(DeepDecompressing(|c|, s), cs[i], rs[i])
    {
      RestoredTakes(cs[i], rs[i], s, |b|, |c|);
    }
  }

  lemma PartsAreShorter(rs: seq<Bytes>)
    ensures forall i | 0 <= i < |rs| :: |rs[i]| < |EncodeList(Concat(rs))|
  {
    forall i | 0 <= i < |rs|
      ensures |rs[i]| < |EncodeList(Concat(rs))|
    {
      ConcatPartLength(rs, i);
    }
  }

  lemma ListRestored(cs: seq<Bytes>, rs: seq<Bytes>, s: Swapper)
    requires AllWhole(rs) && |EncodeList(Concat(rs))| < U32_LIMIT
    requires AllRestored(cs, rs, s)
    ensures Restored(EncodeList(Concat(cs)), EncodeList(Concat(rs)), s)
  {
    RestoredParts(cs, rs, s);
    RestoredMaps(cs, rs, s, EncodeList(Concat(rs)), EncodeList(Concat(cs)));
    ListShrinks(Concat(cs), Concat(rs));
    ListIsWhole(Concat(cs));
    CompressList(rs, cs, s);
    DecompressList(cs, rs, s);
    DeepDecompressList(cs, rs, s);
  }

  /** Compressing and decompressing gives every canonical tree back, in either way. */
  lemma {:induction false} TreeRestored(t: Item, s: Swapper)
    requires Sound(s) && |Encode(t)| < U32_LIMIT
    ensures Restored(SimpleCompress(Encode(t), s), Encode(t), s)
    decreases t
  {
    match t
    case Data(v) => DataRestored(v, s);
    case List(ts) =>
      var rs := EncodeAll(ts);
      var cs := seq(|rs|, i requires 0 <= i < |rs| => SimpleCompress(rs[i], s));
      ChildrenFit(ts);
      forall i | 0 <= i < |ts|
        ensures Whole(rs[i]) && Restored(cs[i], rs[i], s)
      {
        ConcatPartLength(rs, i);
        EncodeIsWhole(ts[i]);
        TreeRestored(ts[i], s);
      }
      ListRestored(cs, rs, s);
  }

  /** The swapper made from a table of common strings. */
  function TableSwapper(rlps: seq<Bytes>): Swapper
    requires |rlps| <= 0x7e
  {
    SwapperOf(rlps, InvalidRlps(), |rlps|)
  }

  /** What was compressed for a database is decompressed for it, and takes no more room, whatever the
      tables of strings of two bytes or more. */
  lemma RoundTrip(r: Item, t: RlpType, common: seq<Bytes>, empty: seq<Bytes>)
    requires |common| <= 0x7e && |empty| <= 0x7e
    requires (forall b <- common :: |b| >= 2) && (forall b <- empty :: |b| >= 2)
    requires |Encode(r)| < U32_LIMIT
    ensures var ss := Swappers(TableSwapper(common), TableSwapper(empty));
            && Decompress(Compress(Encode(r), t, ss), t, ss) == Encode(r)
            && |Compress(Encode(r), t, ss)| <= |Encode(r)|
  {
    TableIsSound(common, |common|);
    TableIsSound(empty, |empty|);
    TreeRestored(r, if t.Blocks? then TableSwapper(common) else TableSwapper(empty));
  }

  /** Decompression leaves canonical data that was never compressed as it is. */
  lemma {:induction false} TreeUntouched(t: Item, s: Swapper)
    requires Sound(s) && |Encode(t)| < U32_LIMIT
    ensures DeepDecompress(Encode(t), s).None?
    decreases t
  {
    CanonicalIsValid(t);
    match t
    case Data(v) => ValueIsWhole(v);
    case List(ts) =>
      var rs := EncodeAll(ts);
      ChildrenFit(ts);
      forall i | 0 <= i < |ts|
        ensures Whole(rs[i]) && DeepDecompress(rs[i], s).None? && rs[i] != MARKER
      {
        ConcatPartLength(rs, i);
        EncodeIsWhole(ts[i]);
        TreeUntouched(ts[i], s);
        CanonicalIsValid(ts[i]);
      }
      PartsAreShorter(rs);
      DeepDecompressList(rs, rs, s);
  }

  /** So a reader that cannot tell whether data was compressed decompresses it in any case. */
  lemma RawComesBack(r: Item, common: seq<Bytes>, empty: seq<Bytes>)
    requires |common| <= 0x7e && |empty| <= 0x7e
    requires (forall b <- common :: |b| >= 2) && (forall b <- empty :: |b| >= 2)
    requires |Encode(r)| < U32_LIMIT
    ensures var ss := Swappers(TableSwapper(common), TableSwapper(empty));
            Decompress(Encode(r), Blocks, ss) == Encode(r)
  {
    TableIsSound(common, |common|);
    TreeUntouched(r, TableSwapper(common));
  }

  lemma HeaderFits(base: byte, n: nat)
    requires base == 0x80 || base == 0xc0
    requires n < USIZE_LIMIT
    ensures |Header(base, n)| <= 9
  {
    Pow256Values();
    BELength(n, 8);
  }

  lemma MarkedPair(c: Bytes, s: Swapper)
    requires Whole(c) && |c| < U32_LIMIT
    ensures var marked := EncodeList(MARKER + c);
            && marked[0] >= 0xc0
            && DeepDecompress(marked, s) == match DeepDecompress(c, s)
                                            case None => None
                                            case Some(d) => Some(StreamValue(d))
  {
    HeaderFits(0xc0, |MARKER + c|);
    var cs := [MARKER, c];
    ConcatSnoc([MARKER], c);
    assert [MARKER] + [c] == cs && Concat([MARKER]) == MARKER + Concat([MARKER][1..]) == MARKER;
    ListReadsBack(cs);
    ListIsWhole(MARKER + c);
  }

  /** Compressed data behind the marker comes back as the data, exactly if the compression changed
      anything. */
  lemma MarkedDataRestored(r: Item, s: Swapper)
    requires Sound(s) && |Encode(r)| < U32_LIMIT
    ensures var b := Encode(r);
            var c := SimpleCompress(b, s);
            var marked := EncodeList(MARKER + c);
            OrElse(DeepDecompress(marked, s), marked) == EncodeValue(b) <==> c != b
  {
    var b := Encode(r);
    TreeRestored(r, s);
    MarkedPair(SimpleCompress(b, s), s);
    StreamHeaderIsCanonical(0x80, |b|);
    HeaderFits(0x80, |b|);
    ValueIsWhole(b);
  }
}
