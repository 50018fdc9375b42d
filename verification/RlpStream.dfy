/** The appendable encoder: list headers are patched into the middle of the buffer once
    a list is complete, while outer lists may still be open. */
module RlpStream {
  import opened Bytes
  import opened Rlp

  // ---------------------------------------------------------------- what is inserted

  /** The length bytes the encoder writes: the size is cast to 32 bits first. */
  function SizeBytes(n: nat): (b: Bytes)
    ensures |b| <= 4
  {
    Pow256Values();
    BELength(n % U32_LIMIT, 4);
    BE(n % U32_LIMIT)
  }

  function StreamHeader(base: byte, n: nat): Bytes
    requires base == 0x80 || base == 0xc0
  {
    if n <= 55 then [base + n] else [base + 55 + |SizeBytes(n)|] + SizeBytes(n)
  }

  function StreamValue(v: Bytes): Bytes
  {
    if |v| == 1 && v[0] < 0x80 then v else StreamHeader(0x80, |v|) + v
  }

  function StreamList(payload: Bytes): Bytes
  {
    StreamHeader(0xc0, |payload|) + payload
  }

  function StreamEncode(t: Item): Bytes
  {
    match t
    case Data(v) => StreamValue(v)
    case List(ts) => StreamList(Concat(StreamEncodeAll(ts)))
  }

  function StreamEncodeAll(ts: seq<Item>): (r: seq<Bytes>)
    ensures |r| == |ts|
  {
    if ts == [] then [] else [StreamEncode(ts[0])] + StreamEncodeAll(ts[1..])
  }

  lemma {:induction false} StreamEncodeAllAppend(a: seq<Item>, b: seq<Item>)
    ensures StreamEncodeAll(a + b) == StreamEncodeAll(a) + StreamEncodeAll(b)
  {
    if a == [] {
      assert a + b == b;
    } else {
      assert (a + b)[1..] == a[1..] + b;
      StreamEncodeAllAppend(a[1..], b);
    }
  }

  function Joined(items: seq<Item>): Bytes { Concat(StreamEncodeAll(items)) }

  lemma JoinedOne(t: Item)
    ensures Joined([t]) == StreamEncode(t)
  {
    assert StreamEncodeAll([t]) == [StreamEncode(t)];
    assert Concat([StreamEncode(t)]) == StreamEncode(t) + [];
  }

  lemma JoinedAppend(a: seq<Item>, b: seq<Item>)
    ensures Joined(a + b) == Joined(a) + Joined(b)
  {
    StreamEncodeAllAppend(a, b);
    ConcatAppend(StreamEncodeAll(a), StreamEncodeAll(b));
  }

  /** The 32-bit cast is harmless exactly below 2^32: from there on the header is wrong. */
  lemma StreamHeaderIsCanonical(base: byte, n: nat)
    requires base == 0x80 || base == 0xc0
    requires n < USIZE_LIMIT
    ensures StreamHeader(base, n) == Header(base, n) <==> n < U32_LIMIT
  {
    Pow256Values();
    BELength(n, 4);
    BELength(n % U32_LIMIT, 4);
    BELength(n, 8);
    if n >= U32_LIMIT {
      assert |StreamHeader(base, n)| < |Header(base, n)|;
    }
  }

  /** Below 2^32 bytes the stream's encoding is the canonical one. */
  lemma {:induction false} StreamEncodeIsCanonical(t: Item)
    requires |Encode(t)| < U32_LIMIT
    ensures StreamEncode(t) == Encode(t)
    decreases t, 0
  {
    match t
    case Data(v) => StreamHeaderIsCanonical(0x80, |v|);
    case List(ts) =>
      StreamEncodeAllIsCanonical(ts);
      StreamHeaderIsCanonical(0xc0, |Concat(EncodeAll(ts))|);
  }

  lemma {:induction false} StreamEncodeAllIsCanonical(ts: seq<Item>)
    requires |Concat(EncodeAll(ts))| < U32_LIMIT
    ensures StreamEncodeAll(ts) == EncodeAll(ts)
    decreases ts, 1
  {
    if ts != [] {
      StreamEncodeIsCanonical(ts[0]);
      StreamEncodeAllIsCanonical(ts[1..]);
    }
  }

  // ---------------------------------------------------------------- abstract stream

  /** The finished output, or an open list inside an outer stream: its payload so far, the items
      counted, and the items announced. */
  datatype Model = Done(root: Bytes) | Open(outer: Model, payload: Bytes, count: nat, max: Option<nat>) {

    /** Appends bytes to the innermost payload without counting an item. */
    function Put(b: Bytes): Model
    {
      match this
      case Done(r) => Done(r + b)
      case Open(o, p, c, m) => Open(o, p + b, c, m)
    }

    /** Appends bytes holding n items and closes every list this completes. */
    function Note(b: Bytes, n: nat): Model
    {
      match this
      case Done(r) => Done(r + b)
      case Open(o, p, c, m) => if m == Some(c + n) then o.Note(StreamList(p + b), 1) else Open(o, p + b, c + n, m)
    }

    /** Counts n items whose bytes are already there. */
    function Tick(n: nat): Model
    {
      match this
      case Done(_) => this
      case Open(o, p, c, m) => if m == Some(c + n) then o.Note(StreamList(p), 1) else Open(o, p, c + n, m)
    }

    /** Room for n more items; without it the program panics. */
    predicate Room(n: nat)
    {
      Open? && max.Some? ==> count + n <= max.value
    }

    predicate Completes(n: nat)
    {
      Open? && max == Some(count + n)
    }

    /** The buffer: one reserved byte in front of each open payload. */
    function Flat(): Bytes
    {
      match this
      case Done(r) => r
      case Open(o, p, _, _) => o.Flat() + [0] + p
    }

    /** Every open list still misses items. */
    predicate Proper()
    {
      Open? ==> outer.Proper() && (max.Some? ==> count < max.value)
    }
  }

  lemma {:induction false} NoteKeepsProper(m: Model, b: Bytes, n: nat)
    requires m.Proper() && m.Room(n)
    ensures m.Note(b, n).Proper()
  {
    if m.Completes(n) {
      NoteKeepsProper(m.outer, StreamList(m.payload + b), 1);
    }
  }

  lemma TickIsNote(m: Model, n: nat)
    ensures m.Tick(n) == m.Note([], n)
  {
    if m.Done? {
      assert m.root + [] == m.root;
    } else {
      assert m.payload + [] == m.payload;
    }
  }

  lemma NothingNoted(m: Model)
    requires m.Proper()
    ensures m.Note([], 0) == m
  {
    TickIsNote(m, 0);
  }

  // ---------------------------------------------------------------- the stream object

  datatype ListInfo = ListInfo(position: nat, current: nat, max: Option<nat>)

  /** The stack of open lists matches the model, each list starting right behind its reserved byte. */
  ghost predicate Layout(m: Model, lists: seq<ListInfo>)
  {
    match m
    case Done(_) => lists == []
    case Open(o, _, c, max) =>
      var back := |lists| - 1;
      && lists != []
      && lists[back] == ListInfo(|o.Flat()| + 1, c, max)
      && Layout(o, lists[..back])
  }

  lemma PutExtendsFlat(m: Model, b: Bytes, lists: seq<ListInfo>)
    requires m.Proper() && Layout(m, lists)
    ensures m.Put(b).Flat() == m.Flat() + b
    ensures m.Put(b).Proper() && Layout(m.Put(b), lists)
  {
    if m.Open? {
      assert m.outer.Flat() + [0] + (m.payload + b) == m.Flat() + b;
    }
  }

  class RlpStream {
    var unfinishedLists: seq<ListInfo>
    var buffer: Bytes
    var finishedList: bool
    ghost var model: Model

    ghost predicate Valid()
      reads this
    {
      model.Proper() && buffer == model.Flat() && Layout(model, unfinishedLists)
    }

    constructor ()
      ensures Valid() && model == Done([]) && !finishedList
    {
      unfinishedLists, buffer, finishedList := [], [], false;
      model := Done([]);
    }

    predicate IsFinished()
      requires Valid()
      reads this
      ensures IsFinished() <==> model.Done?
    {
      |unfinishedLists| == 0
    }

    /** The finished encoding. Asking an unfinished stream for it panics. */
    method Out() returns (r: Bytes)
      requires Valid() && IsFinished()
      ensures r == model.root
    {
      r := buffer;
    }

    method Clear()
      requires Valid()
      modifies this
      ensures Valid() && model == Done([])
    {
      buffer, unfinishedLists := [], [];
      model := Done([]);
    }

    method PushBytes(b: Bytes)
      requires Valid()
      modifies this`buffer, this`model
      ensures Valid() && model == old(model).Put(b)
    {
      buffer := buffer + b;
      model := model.Put(b);
      PutExtendsFlat(old(model), b, unfinishedLists);
    }

    /** Writes the length bytes of size into the buffer at position. */
    method InsertSize(size: nat, position: nat) returns (sizeBytes: nat)
      requires position <= |buffer|
      modifies this`buffer
      ensures buffer == old(buffer)[..position] + SizeBytes(size) + old(buffer)[position..]
      ensures sizeBytes == |SizeBytes(size)|
    {
      Pow256Values();
      var size32 := size % U32_LIMIT;
      var leading := LeadingEmptyBytes(size32, 4);
      sizeBytes := 4 - leading;
      var digits := FixedBE(size32, 4);
      buffer := buffer[..position] + digits[leading..] + buffer[position..];
      TrimmedFixedBE(size32, 4);
    }

    /** Turns the reserved byte before pos into the header of the list payload behind it. */
    method InsertListPayload(len: nat, pos: nat)
      requires 1 <= pos && pos + len == |buffer|
      modifies this`buffer
      ensures buffer == old(buffer)[..pos - 1] + StreamList(old(buffer)[pos..])
    {
      if len <= 55 {
        buffer := buffer[pos - 1 := 0xc0 + len];
      } else {
        var inserted := InsertSize(len, pos);
        buffer := buffer[pos - 1 := 0xf7 + inserted];
      }
    }

    /** Pushes an encoded byte string to the end of the buffer. */
    method WriteValue(v: Bytes)
      modifies this`buffer
      ensures buffer == old(buffer) + StreamValue(v)
    {
      if |v| == 0 {
        buffer := buffer + [0x80];
      } else if |v| == 1 && v[0] < 0x80 {
        assert v == [v[0]];
        buffer := buffer + [v[0]];
      } else if |v| <= 55 {
        buffer := buffer + [0x80 + |v|];
        buffer := buffer + v;
      } else {
        buffer := buffer + [0];
        var position := |buffer|;
        var inserted := InsertSize(|v|, position);
        buffer := buffer[position - 1 := 0xb7 + inserted];
        assert buffer == old(buffer) + StreamHeader(0x80, |v|);
        buffer := buffer + v;
      }
    }

    /** Appends the encoding of a byte string without counting an item. */
    method EncodeValue(v: Bytes)
      requires Valid()
      modifies this`buffer, this`model
      ensures Valid() && model == old(model).Put(StreamValue(v))
    {
      WriteValue(v);
      model := model.Put(StreamValue(v));
      PutExtendsFlat(old(model), StreamValue(v), unfinishedLists);
    }

    /** Closes the innermost list: its reserved byte becomes the header of its payload. */
    method CloseTop()
      requires Valid() && model.Open?
      modifies this`buffer, this`unfinishedLists, this`model
      ensures Valid() && model == old(model).outer.Put(StreamList(old(model).payload))
      ensures |unfinishedLists| < |old(unfinishedLists)|
    {
      var back := |unfinishedLists| - 1;
      var x := unfinishedLists[back];
      unfinishedLists := unfinishedLists[..back];
      assert buffer[..x.position - 1] == model.outer.Flat();
      assert buffer[x.position..] == model.payload;
      InsertListPayload(|buffer| - x.position, x.position);
      model := model.outer.Put(StreamList(model.payload));
      PutExtendsFlat(old(model).outer, StreamList(old(model).payload), unfinishedLists);
    }

    /** Counts appended items and closes every list that is now complete. */
    method NoteAppended(n: nat)
      requires Valid() && model.Room(n)
      modifies this
      ensures Valid() && model == old(model).Tick(n)
      ensures finishedList == if old(model).Done? then old(finishedList) else old(model).Completes(n)
      decreases |unfinishedLists|
    {
      if |unfinishedLists| == 0 {
        return;
      }
      var back := |unfinishedLists| - 1;
      var x := unfinishedLists[back].(current := unfinishedLists[back].current + n);
      var shouldFinish := x.max == Some(x.current);
      if shouldFinish {
        CloseTop();
        NoteAppended(1);
      } else {
        unfinishedLists := unfinishedLists[back := x];
        assert unfinishedLists[..back] == old(unfinishedLists)[..back];
        model := model.Tick(n);
      }
      finishedList := shouldFinish;
    }

    /** Announces a list of len items. */
    method BeginList(len: nat)
      requires Valid()
      modifies this
      ensures Valid() && model == Step(old(model), OpenList(len))
      ensures finishedList == (len == 0)
    {
      finishedList := false;
      if len == 0 {
        PushBytes([0xc0]);
        assert StreamList([]) == [0xc0];
        NoteAppended(1);
        finishedList := true;
      } else {
        OpenFrame(Some(len));
      }
    }

    method BeginUnboundedList()
      requires Valid()
      modifies this
      ensures Valid() && model == Step(old(model), OpenUnbounded) && !finishedList
    {
      finishedList := false;
      OpenFrame(None);
    }

    /** Reserves the header byte of a new list and pushes the list on the stack. */
    method OpenFrame(max: Option<nat>)
      requires Valid() && max != Some(0)
      modifies this`buffer, this`unfinishedLists, this`model
      ensures Valid() && model == Open(old(model), [], 0, max)
    {
      buffer := buffer + [0];
      unfinishedLists := unfinishedLists + [ListInfo(|buffer|, 0, max)];
      model := Open(model, [], 0, max);
      assert unfinishedLists[..|unfinishedLists| - 1] == old(unfinishedLists);
    }

    method CompleteUnboundedList()
      requires Valid() && model.Open? && model.max.None?
      modifies this
      ensures Valid() && model == Step(old(model), CloseUnbounded)
    {
      CloseTop();
      NoteAppended(1);
    }

    method AppendEmptyData()
      requires Valid()
      modifies this
      ensures Valid() && model == Step(old(model), AddValue([]))
    {
      PushBytes([0x80]);
      assert StreamValue([]) == [0x80];
      NoteAppended(1);
    }

    /** Appends bytes that already are the encoding of n items. */
    method AppendRaw(b: Bytes, n: nat)
      requires Valid() && model.Room(n)
      modifies this
      ensures Valid() && model == Step(old(model), AddRaw(b, n))
    {
      PushBytes(b);
      NoteAppended(n);
    }

    /** Appends any encodable value, seen as the tree its rlp_append describes. */
    method Append(t: Item)
      requires Valid()
      modifies this
      ensures Valid() && model == old(model).Note(StreamEncode(t), 1)
      ensures old(model).Completes(1) ==> finishedList
      decreases t, 1
    {
      finishedList := false;
      RlpAppend(t);
      if !finishedList {
        NoteAppended(1);
      }
    }

    /** A string is written without being counted; a list counts itself and says so in finishedList. */
    method RlpAppend(t: Item)
      requires Valid()
      modifies this
      ensures Valid()
      ensures t.Data? ==> model == old(model).Put(StreamEncode(t)) && finishedList == old(finishedList)
      ensures t.List? ==> model == old(model).Note(StreamEncode(t), 1) && finishedList
      decreases t, 0
    {
      match t
      case Data(v) => EncodeValue(v);
      case List(ts) =>
        BeginList(|ts|);
        for i := 0 to |ts|
          invariant Valid()
          invariant i < |ts| ==>
              model == Open(old(model), Joined(ts[..i]), i, Some(|ts|))
          invariant i == |ts| ==> model == old(model).Note(StreamEncode(t), 1) && finishedList
        {
          Append(ts[i]);
          assert ts[..i + 1] == ts[..i] + [ts[i]];
          JoinedAppend(ts[..i], [ts[i]]);
          JoinedOne(ts[i]);
          assert i + 1 == |ts| ==> ts[..i + 1] == ts;
        }
    }
  }

  // ---------------------------------------------------------------- whole runs

  datatype Op =
    | OpenList(len: nat)
    | OpenUnbounded
    | CloseUnbounded
    | AddValue(v: Bytes)
    | AddRaw(raw: Bytes, itemCount: nat)

  /** The effect every method above is proved to have. */
  function Step(m: Model, op: Op): Model
  {
    match op
    case OpenList(len) => if len == 0 then m.Note(StreamList([]), 1) else Open(m, [], 0, Some(len))
    case OpenUnbounded => Open(m, [], 0, None)
    case CloseUnbounded => if m.Done? then m else m.outer.Note(StreamList(m.payload), 1)
    case AddValue(v) => m.Note(StreamValue(v), 1)
    case AddRaw(b, n) => m.Note(b, n)
  }

  function Run(m: Model, ops: seq<Op>): Model
    decreases |ops|
  {
    if ops == [] then m else Run(Step(m, ops[0]), ops[1..])
  }

  lemma {:induction false} RunAppend(m: Model, a: seq<Op>, b: seq<Op>)
    ensures Run(m, a + b) == Run(Run(m, a), b)
    decreases |a|
  {
    if a == [] {
      assert a + b == b;
    } else {
      assert (a + b)[1..] == a[1..] + b;
      RunAppend(Step(m, a[0]), a[1..], b);
    }
  }

  /** A nested use of the stream: values, already encoded items, and lists of either kind. */
  datatype Script =
    | PutValue(bytes: Bytes)
    | PutRaw(ready: seq<Item>)
    | PutList(parts: seq<Script>)
    | PutUnbounded(parts: seq<Script>)

  /** The items a script describes. */
  function Items(s: Script): seq<Item>
  {
    match s
    case PutValue(v) => [Data(v)]
    case PutRaw(ready) => ready
    case PutList(parts) => [List(AllItems(parts))]
    case PutUnbounded(parts) => [List(AllItems(parts))]
  }

  function AllItems(ss: seq<Script>): seq<Item>
  {
    if ss == [] then [] else Items(ss[0]) + AllItems(ss[1..])
  }

  /** The calls it makes. */
  function Calls(s: Script): seq<Op>
  {
    match s
    case PutValue(v) => [AddValue(v)]
    case PutRaw(ready) => [AddRaw(Concat(StreamEncodeAll(ready)), |ready|)]
    case PutList(parts) => [OpenList(|AllItems(parts)|)] + AllCalls(parts)
    case PutUnbounded(parts) => [OpenUnbounded] + AllCalls(parts) + [CloseUnbounded]
  }

  function AllCalls(ss: seq<Script>): seq<Op>
  {
    if ss == [] then [] else Calls(ss[0]) + AllCalls(ss[1..])
  }

  /** Noting some items and then more is noting them together, unless the first already close the list. */
  lemma NoteTwice(m: Model, a: Bytes, i: nat, b: Bytes, j: nat)
    requires !m.Completes(i)
    ensures m.Note(a, i).Note(b, j) == m.Note(a + b, i + j)
  {
    if m.Done? {
      assert m.root + a + b == m.root + (a + b);
    } else {
      assert m.payload + a + b == m.payload + (a + b);
    }
  }

  lemma NotesCompose(m: Model, a: seq<Item>, b: seq<Item>)
    requires m.Proper() && m.Room(|a + b|)
    ensures var mid := m.Note(Joined(a), |a|);
            mid.Proper() && mid.Room(|b|) && mid.Note(Joined(b), |b|) == m.Note(Joined(a + b), |a + b|)
  {
    NoteKeepsProper(m, Joined(a), |a|);
    if m.Completes(|a|) {
      assert b == [] && a + b == a;
      NothingNoted(m.Note(Joined(a), |a|));
    } else {
      JoinedAppend(a, b);
      NoteTwice(m, Joined(a), |a|, Joined(b), |b|);
    }
  }

  /** A bounded list, once its parts are known to be notes, is a note itself. */
  lemma BoundedListIsNote(m: Model, parts: seq<Script>)
    requires m.Proper() && m.Room(1)
    requires var items := AllItems(parts); var started := Step(m, OpenList(|items|));
             Run(started, AllCalls(parts)) == started.Note(Joined(items), |items|)
    ensures Run(m, Calls(PutList(parts))) == m.Note(Joined([List(AllItems(parts))]), 1)
  {
    var items := AllItems(parts);
    var started := Step(m, OpenList(|items|));
    assert Calls(PutList(parts))[1..] == AllCalls(parts);
    assert Run(m, Calls(PutList(parts))) == Run(started, AllCalls(parts));
    JoinedOne(List(items));
    if items == [] {
      NoteKeepsProper(m, StreamList([]), 1);
      NothingNoted(started);
    } else {
      assert [] + Joined(items) == Joined(items);
    }
  }

  /** So is an unbounded list. */
  lemma UnboundedListIsNote(m: Model, parts: seq<Script>)
    requires var items := AllItems(parts); var started := Open(m, [], 0, None);
             Run(started, AllCalls(parts)) == started.Note(Joined(items), |items|)
    ensures Run(m, Calls(PutUnbounded(parts))) == m.Note(Joined([List(AllItems(parts))]), 1)
  {
    var items := AllItems(parts);
    var started := Open(m, [], 0, None);
    var done := started.Note(Joined(items), |items|);
    RunAppend(m, [OpenUnbounded] + AllCalls(parts), [CloseUnbounded]);
    assert ([OpenUnbounded] + AllCalls(parts))[1..] == AllCalls(parts);
    assert Run(started, AllCalls(parts)) == Run(m, [OpenUnbounded] + AllCalls(parts));
    assert [] + Joined(items) == Joined(items);
    assert done == Open(m, Joined(items), |items|, None);
    JoinedOne(List(items));
    RunOne(done, CloseUnbounded);
  }

  lemma RunOne(m: Model, op: Op)
    ensures Run(m, [op]) == Step(m, op)
  {
    assert Run(Step(m, op), [op][1..]) == Step(m, op);
  }

  /** A script leaves the stream as if its items had been appended already encoded. */
  lemma {:induction false} ScriptIsNote(m: Model, s: Script)
    requires m.Proper() && m.Room(|Items(s)|)
    ensures Run(m, Calls(s)) == m.Note(Joined(Items(s)), |Items(s)|)
    decreases s, 0
  {
    match s
    case PutValue(v) =>
      JoinedOne(Data(v));
      RunOne(m, AddValue(v));
    case PutRaw(ready) =>
      RunOne(m, AddRaw(Joined(ready), |ready|));
    case PutList(parts) =>
      var n := |AllItems(parts)|;
      if n == 0 {
        NoteKeepsProper(m, StreamList([]), 1);
      }
      ScriptsAreNotes(Step(m, OpenList(n)), parts);
      BoundedListIsNote(m, parts);
    case PutUnbounded(parts) =>
      ScriptsAreNotes(Open(m, [], 0, None), parts);
      UnboundedListIsNote(m, parts);
  }

  lemma {:induction false} ScriptsAreNotes(m: Model, ss: seq<Script>)
    requires m.Proper() && m.Room(|AllItems(ss)|)
    ensures Run(m, AllCalls(ss)) == m.Note(Joined(AllItems(ss)), |AllItems(ss)|)
    decreases ss, 1
  {
    if ss == [] {
      NothingNoted(m);
    } else {
      var a, b := Items(ss[0]), AllItems(ss[1..]);
      NotesCompose(m, a, b);
      ScriptIsNote(m, ss[0]);
      RunAppend(m, Calls(ss[0]), AllCalls(ss[1..]));
      ScriptsAreNotes(m.Note(Joined(a), |a|), ss[1..]);
    }
  }

  /** Whatever nesting of lists, values and raw items a fresh stream is given, it ends finished,
      and below 2^32 bytes its buffer is the canonical encoding of the items described. */
  lemma FinishedStreamIsCanonical(s: Script)
    ensures var m := Run(Done([]), Calls(s));
            m == Done(Joined(Items(s)))
    ensures |Concat(EncodeAll(Items(s)))| < U32_LIMIT ==>
              Run(Done([]), Calls(s)).Flat() == Concat(EncodeAll(Items(s)))
  {
    ScriptIsNote(Done([]), s);
    assert [] + Joined(Items(s)) == Joined(Items(s));
    if |Concat(EncodeAll(Items(s)))| < U32_LIMIT {
      StreamEncodeAllIsCanonical(Items(s));
    }
  }

  // ---------------------------------------------------------------- calls in any order

  /** A stream seen as the items given to it, in the lists that are open. */
  datatype Given = AllGiven(items: seq<Item>) | Within(outer: Given, items: seq<Item>, max: Option<nat>) {

    /** Adds items, which may complete the list, and that the list around it. */
    function Add(more: seq<Item>): Given
    {
      match this
      case AllGiven(ts) => AllGiven(ts + more)
      case Within(o, ts, m) =>
        if m == Some(|ts| + |more|) then o.Add([List(ts + more)]) else Within(o, ts + more, m)
    }

    /** The bytes this amounts to. */
    function Encoded(): Model
    {
      match this
      case AllGiven(ts) => Done(Joined(ts))
      case Within(o, ts, m) => Open(o.Encoded(), Joined(ts), |ts|, m)
    }
  }

  /** A call; raw bytes are given as the items they encode. */
  datatype Call = CallList(len: nat) | CallUnbounded | CallClose | CallValue(bytes: Bytes) | CallRaw(items: seq<Item>)

  function OpOf(c: Call): Op
  {
    match c
    case CallList(len) => OpenList(len)
    case CallUnbounded => OpenUnbounded
    case CallClose => CloseUnbounded
    case CallValue(v) => AddValue(v)
    case CallRaw(ts) => AddRaw(Joined(ts), |ts|)
  }

  function OpsOf(cs: seq<Call>): seq<Op>
  {
    if cs == [] then [] else [OpOf(cs[0])] + OpsOf(cs[1..])
  }

  function Give(g: Given, c: Call): Given
  {
    match c
    case CallList(len) => if len == 0 then g.Add([List([])]) else Within(g, [], Some(len))
    case CallUnbounded => Within(g, [], None)
    case CallClose => if g.AllGiven? then g else g.outer.Add([List(g.items)])
    case CallValue(v) => g.Add([Data(v)])
    case CallRaw(ts) => g.Add(ts)
  }

  function GiveAll(g: Given, cs: seq<Call>): Given
    decreases |cs|
  {
    if cs == [] then g else GiveAll(Give(g, cs[0]), cs[1..])
  }

  lemma {:induction false} AddIsNote(g: Given, more: seq<Item>)
    ensures g.Add(more).Encoded() == g.Encoded().Note(Joined(more), |more|)
    decreases g
  {
    JoinedAppend(g.items, more);
    if g.Within? && g.max == Some(|g.items| + |more|) {
      var whole := List(g.items + more);
      AddIsNote(g.outer, [whole]);
      JoinedOne(whole);
    }
  }

  lemma GiveIsStep(g: Given, c: Call)
    ensures Give(g, c).Encoded() == Step(g.Encoded(), OpOf(c))
  {
    match c
    case CallList(len) =>
      if len == 0 {
        AddIsNote(g, [List([])]);
        JoinedOne(List([]));
      }
    case CallUnbounded =>
    case CallClose =>
      if g.Within? {
        AddIsNote(g.outer, [List(g.items)]);
        JoinedOne(List(g.items));
      }
    case CallValue(v) =>
      AddIsNote(g, [Data(v)]);
      JoinedOne(Data(v));
    case CallRaw(ts) => AddIsNote(g, ts);
  }

  lemma {:induction false} GiveAllIsRun(g: Given, cs: seq<Call>)
    ensures GiveAll(g, cs).Encoded() == Run(g.Encoded(), OpsOf(cs))
    decreases |cs|
  {
    if cs != [] {
      GiveIsStep(g, cs[0]);
      GiveAllIsRun(Give(g, cs[0]), cs[1..]);
      assert OpsOf(cs)[1..] == OpsOf(cs[1..]);
    }
  }

  /** Calls in any order whatever: if in the end no list is open, a fresh stream holds exactly the
      canonical encoding of the items given to it. */
  lemma AnyCallsAreCanonical(cs: seq<Call>)
    ensures var g := GiveAll(AllGiven([]), cs);
            && (g.AllGiven? <==> Run(Done([]), OpsOf(cs)).Done?)
            && (g.AllGiven? ==> Run(Done([]), OpsOf(cs)) == Done(Joined(g.items)))
            && (g.AllGiven? && |Concat(EncodeAll(g.items))| < U32_LIMIT ==>
                  Run(Done([]), OpsOf(cs)).Flat() == Concat(EncodeAll(g.items)))
  {
    var start, g := AllGiven([]), GiveAll(AllGiven([]), cs);
    GiveAllIsRun(start, cs);
    assert start.Encoded() == Done([]);
    if g.AllGiven? && |Concat(EncodeAll(g.items))| < U32_LIMIT {
      StreamEncodeAllIsCanonical(g.items);
    }
  }
}
