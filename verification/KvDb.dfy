/** The key-value database: writes go to an overlay, which a flush swaps with a second buffer, writes
    to the backing store, and clears, while others keep reading and writing. */
module KvDb {
  import opened Bytes

  import Compression
  import Rlp

  datatype KeyState = Insert(value: Bytes) | InsertCompressed(value: Bytes) | Delete
  datatype DBOp =
    | InsertOp(col: Option<nat>, key: Bytes, value: Bytes)
    | InsertCompressedOp(col: Option<nat>, key: Bytes, value: Bytes)
    | DeleteOp(col: Option<nat>, key: Bytes)

  /** A value as it was given, and whether it is one to be compressed on the way to the store. */
  datatype Value = Plain(bytes: Bytes) | Packable(bytes: Bytes)

  type Buffer = map<Bytes, KeyState>
  type Store = map<Bytes, Value>
  type Packer = Bytes -> Bytes

  /** The first column is the default one, for no column at all. */
  function ToOverlayColumn(col: Option<nat>): nat
  {
    match col
    case None => 0
    case Some(c) => c + 1
  }

  function Get(m: Store, key: Bytes): Option<Value>
  {
    if key in m then Some(m[key]) else None
  }

  /** The bytes that the store keeps for a value: the default column has no compression. */
  function OnDisk(pack: Packer, c: nat, v: Value): Bytes
  {
    if v.Packable? && c > 0 then pack(v.bytes) else v.bytes
  }

  /** The answer to a read is the value as it was given, or, outside the default column, packed. */
  predicate Gives(pack: Packer, col: Option<nat>, v: Option<Value>, answer: Option<Bytes>)
  {
    match v
    case None => answer == None
    case Some(w) => answer == Some(w.bytes) || (w.Packable? && col.Some? && answer == Some(pack(w.bytes)))
  }

  // ---------------------------------------------------------------- layers

  function Held(state: KeyState): Value
    requires !state.Delete?
  {
    match state
    case Insert(v) => Plain(v)
    case InsertCompressed(v) => Packable(v)
  }

  /** What is seen through a buffer laid over a store. */
  function Layer(over: Buffer, under: Store): Store
  {
    map k | k in over.Keys + under.Keys && !(k in over && over[k].Delete?) ::
      if k in over then Held(over[k]) else under[k]
  }

  function Change(b: Buffer, op: DBOp): Buffer
  {
    b[op.key := match op
                case InsertOp(_, _, v) => Insert(v)
                case InsertCompressedOp(_, _, v) => InsertCompressed(v)
                case DeleteOp(_, _) => Delete]
  }

  /** The same change to a plain map. */
  function Effect(m: Store, op: DBOp): Store
  {
    match op
    case InsertOp(_, k, v) => m[k := Plain(v)]
    case InsertCompressedOp(_, k, v) => m[k := Packable(v)]
    case DeleteOp(_, k) => m - {k}
  }

  lemma LayerChange(over: Buffer, under: Store, op: DBOp)
    ensures Layer(Change(over, op), under) == Effect(Layer(over, under), op)
  {
  }

  lemma LayerTwice(over: Buffer, under: Store)
    ensures Layer(over, Layer(over, under)) == Layer(over, under)
    ensures Layer(map[], under) == under
  {
  }

  predicate InRange(n: nat, ops: seq<DBOp>)
  {
    forall op <- ops :: ToOverlayColumn(op.col) < n
  }

  function Buffered(overlay: seq<Buffer>, ops: seq<DBOp>): (r: seq<Buffer>)
    requires InRange(|overlay|, ops)
    ensures |r| == |overlay|
    decreases |ops|
  {
    if ops == [] then overlay
    else
      var c := ToOverlayColumn(ops[0].col);
      Buffered(overlay[c := Change(overlay[c], ops[0])], ops[1..])
  }

  /** A transaction applied to plain maps. */
  function Applied(m: seq<Store>, ops: seq<DBOp>): (r: seq<Store>)
    requires InRange(|m|, ops)
    ensures |r| == |m|
    decreases |ops|
  {
    if ops == [] then m
    else
      var c := ToOverlayColumn(ops[0].col);
      Applied(m[c := Effect(m[c], ops[0])], ops[1..])
  }

  function Layers(over: seq<Buffer>, under: seq<Store>): (r: seq<Store>)
    requires |over| == |under|
    ensures |r| == |over|
  {
    seq(|over|, c requires 0 <= c < |over| => Layer(over[c], under[c]))
  }

  /** Buffering a transaction changes what is seen exactly as the transaction says. */
  lemma {:induction false} BufferedIsApplied(overlay: seq<Buffer>, under: seq<Store>, ops: seq<DBOp>)
    requires |overlay| == |under| && InRange(|overlay|, ops)
    ensures Layers(Buffered(overlay, ops), under) == Applied(Layers(overlay, under), ops)
    decreases |ops|
  {
    if ops != [] {
      var c := ToOverlayColumn(ops[0].col);
      var next := overlay[c := Change(overlay[c], ops[0])];
      LayerChange(overlay[c], under[c], ops[0]);
      assert Layers(next, under) == Layers(overlay, under)[c := Effect(Layers(overlay, under)[c], ops[0])];
      BufferedIsApplied(next, under, ops[1..]);
    }
  }

  ghost predicate AllEmpty(buffers: seq<Buffer>)
  {
    forall c | 0 <= c < |buffers| :: buffers[c] == map[]
  }

  lemma LayersTwice(over: seq<Buffer>, under: seq<Store>)
    requires |over| == |under|
    ensures Layers(over, Layers(over, under)) == Layers(over, under)
    ensures AllEmpty(over) ==> Layers(over, under) == under
  {
    forall c | 0 <= c < |over|
      ensures Layer(over[c], Layer(over[c], under[c])) == Layer(over[c], under[c])
      ensures over[c] == map[] ==> Layer(over[c], under[c]) == under[c]
    {
      LayerTwice(over[c], under[c]);
    }
  }

  // ---------------------------------------------------------------- interleaved steps

  /** A reader holds the overlay lock from its first step to its last, and the lock on the flushing
      buffer in the second stage. */
  datatype Stage = HoldsOverlay | HoldsBoth
  datatype Reader = Reader(col: Option<nat>, key: Bytes, stage: Stage)

  /** Where the one thread that may flush stands. */
  datatype Phase = Idle | Swapped | Written

  datatype State = State(overlay: seq<Buffer>, flushing: seq<Buffer>, backend: seq<Store>, phase: Phase,
                         readers: map<nat, Reader>, pack: Packer)

  datatype Step =
    | WriteBuffered(ops: seq<DBOp>)
    | Swap
    | WriteBatch
    | FailBatch
    | Clear
    | ReadOverlay(id: nat, col: Option<nat>, key: Bytes)
    | ReadFlushing(id: nat)
    | ReadBackend(id: nat)

  /** The locks: writing the overlay waits for every reader, clearing for those that look at the
      flushing buffer. */
  predicate Enabled(s: State, step: Step)
  {
    match step
    case WriteBuffered(ops) => s.readers == map[] && InRange(|s.overlay|, ops)
    case Swap => s.readers == map[] && s.phase == Idle
    case WriteBatch => s.phase == Swapped && |s.flushing| == |s.backend|
    case FailBatch => s.phase == Swapped
    case Clear => s.phase == Written && forall id <- s.readers :: s.readers[id].stage == HoldsOverlay
    case ReadOverlay(id, col, key) => id !in s.readers && ToOverlayColumn(col) < |s.overlay|
    case ReadFlushing(id) =>
      id in s.readers && s.readers[id].stage == HoldsOverlay && ToOverlayColumn(s.readers[id].col) < |s.flushing|
    case ReadBackend(id) =>
      id in s.readers && s.readers[id].stage == HoldsBoth && ToOverlayColumn(s.readers[id].col) < |s.backend|
  }

  datatype Outcome = NoAnswer | Answer(value: Option<Bytes>)

  function Found(state: KeyState): Outcome
  {
    match state
    case Insert(v) => Answer(Some(v))
    case InsertCompressed(v) => Answer(Some(v))
    case Delete => Answer(None)
  }

  function Next(s: State, step: Step): (State, Outcome)
    requires Enabled(s, step)
  {
    match step
    case WriteBuffered(ops) => (s.(overlay := Buffered(s.overlay, ops)), NoAnswer)
    case Swap => (s.(overlay := s.flushing, flushing := s.overlay, phase := Swapped), NoAnswer)
    case WriteBatch => (s.(backend := Layers(s.flushing, s.backend), phase := Written), NoAnswer)
    case FailBatch => (s.(phase := Idle), NoAnswer)
    case Clear => (s.(flushing := seq(|s.flushing|, _ => map[]), phase := Idle), NoAnswer)
    case ReadOverlay(id, col, key) =>
      var c := ToOverlayColumn(col);
      if key in s.overlay[c] then (s, Found(s.overlay[c][key]))
      else (s.(readers := s.readers[id := Reader(col, key, HoldsOverlay)]), NoAnswer)
    case ReadFlushing(id) =>
      var r := s.readers[id];
      var c := ToOverlayColumn(r.col);
      if r.key in s.flushing[c] then (s.(readers := s.readers - {id}), Found(s.flushing[c][r.key]))
      else (s.(readers := s.readers[id := r.(stage := HoldsBoth)]), NoAnswer)
    case ReadBackend(id) =>
      var r := s.readers[id];
      var c := ToOverlayColumn(r.col);
      (s.(readers := s.readers - {id}), Answer(Kept(s.pack, c, s.backend[c], r.key)))
  }

  /** What the store has for a key. */
  function Kept(pack: Packer, c: nat, m: Store, key: Bytes): Option<Bytes>
  {
    if key in m then Some(OnDisk(pack, c, m[key])) else None
  }

  /** What a reader should see. */
  function View(s: State): seq<Store>
    requires |s.overlay| == |s.flushing| == |s.backend|
  {
    Layers(s.overlay, Layers(s.flushing, s.backend))
  }

  /** What a reader should see of a key. */
  function Seen(s: State, col: Option<nat>, key: Bytes): Option<Value>
    requires |s.overlay| == |s.flushing| == |s.backend| && ToOverlayColumn(col) < |s.overlay|
  {
    Get(View(s)[ToOverlayColumn(col)], key)
  }

  ghost predicate Valid(s: State)
  {
    && |s.overlay| == |s.flushing| == |s.backend|
    && (s.phase == Written ==> Layers(s.flushing, s.backend) == s.backend)
    && forall id <- s.readers :: ReaderOk(s, s.readers[id])
  }

  ghost predicate ReaderOk(s: State, r: Reader)
    requires |s.overlay| == |s.flushing| == |s.backend|
  {
    var c := ToOverlayColumn(r.col);
    && c < |s.overlay| && r.key !in s.overlay[c]
    && (r.stage == HoldsBoth ==> r.key !in s.flushing[c])
  }

  /** What the step asks for. */
  function Asked(s: State, step: Step): Option<(Option<nat>, Bytes)>
    requires Enabled(s, step)
  {
    match step
    case ReadOverlay(_, col, key) => Some((col, key))
    case ReadFlushing(id) => Some((s.readers[id].col, s.readers[id].key))
    case ReadBackend(id) => Some((s.readers[id].col, s.readers[id].key))
    case _ => None
  }

  /** The step as seen by plain maps: only transactions change them. */
  function SimpleNext(m: seq<Store>, step: Step): (r: seq<Store>)
    requires step.WriteBuffered? ==> InRange(|m|, step.ops)
    ensures |r| == |m|
  {
    if step.WriteBuffered? then Applied(m, step.ops) else m
  }

  /** A key that waits in both buffers waits for the same change. */
  ghost predicate Agree(a: Buffer, b: Buffer)
  {
    forall k <- a :: k in b ==> a[k] == b[k]
  }

  ghost predicate AllAgree(a: seq<Buffer>, b: seq<Buffer>)
    requires |a| == |b|
  {
    forall c | 0 <= c < |a| :: Agree(a[c], b[c])
  }

  lemma LayersCommute(a: Buffer, b: Buffer, under: Store)
    ensures Layer(a, Layer(b, under)) == Layer(b, Layer(a, under)) <==> Agree(a, b)
  {
    var m, n := Layer(a, Layer(b, under)), Layer(b, Layer(a, under));
    if m == n {
      forall k | k in a && k in b
        ensures a[k] == b[k]
      {
        assert a[k].Delete? <==> k !in m;
        assert b[k].Delete? <==> k !in n;
      }
    }
  }

  /** After a failed write the next flush swaps the buffers all the same, which lays the older changes
      over the newer ones. Nothing seen changes exactly when no key waits for different changes in
      the two. */
  lemma SwapKeepsView(s: State)
    requires Valid(s) && Enabled(s, Swap)
    ensures Valid(Next(s, Swap).0)
    ensures View(Next(s, Swap).0) == View(s) <==> AllAgree(s.overlay, s.flushing)
  {
    var v, w := View(s), View(Next(s, Swap).0);
    forall c | 0 <= c < |s.overlay|
      ensures v[c] == w[c] <==> Agree(s.overlay[c], s.flushing[c])
    {
      LayersCommute(s.overlay[c], s.flushing[c], s.backend[c]);
    }
  }

  /** The step does not bring older changes up. */
  ghost predicate Harmless(s: State, step: Step)
    requires Valid(s)
  {
    step == Swap ==> AllAgree(s.overlay, s.flushing)
  }

  lemma ReadIsRight(s: State, step: Step)
    requires Valid(s) && Enabled(s, step) && (step.ReadOverlay? || step.ReadFlushing? || step.ReadBackend?)
    ensures var (s', outcome) := Next(s, step);
            && Valid(s') && View(s') == View(s)
            && (outcome.Answer? ==> var q := Asked(s, step);
                                    && q.Some? && ToOverlayColumn(q.value.0) < |s.overlay|
                                    && Gives(s.pack, q.value.0, Seen(s, q.value.0, q.value.1), outcome.value))
  {
  }

  /** Every step keeps the invariant and answers as plain maps would; it changes what is seen as on
      plain maps exactly when it is harmless. */
  lemma StepRefines(s: State, step: Step)
    requires Valid(s) && Enabled(s, step)
    ensures var (s', outcome) := Next(s, step);
            && Valid(s') && s'.pack == s.pack && (View(s') == SimpleNext(View(s), step) <==> Harmless(s, step))
            && (outcome.Answer? ==> var q := Asked(s, step);
                                    && q.Some? && ToOverlayColumn(q.value.0) < |s.overlay|
                                    && Gives(s.pack, q.value.0, Seen(s, q.value.0, q.value.1), outcome.value))
  {
    match step
    case WriteBuffered(ops) => BufferedIsApplied(s.overlay, Layers(s.flushing, s.backend), ops);
    case Swap => SwapKeepsView(s);
    case WriteBatch => LayersTwice(s.flushing, s.backend);
    case FailBatch =>
    case Clear => LayersTwice(seq(|s.flushing|, _ => map[]), s.backend);
    case _ => ReadIsRight(s, step);
  }

  // ---------------------------------------------------------------- runs

  ghost predicate Runs(s: State, steps: seq<Step>)
    decreases |steps|
  {
    steps == [] || (Enabled(s, steps[0]) && Runs(Next(s, steps[0]).0, steps[1..]))
  }

  function After(s: State, steps: seq<Step>): State
    requires Runs(s, steps)
    decreases |steps|
  {
    if steps == [] then s else After(Next(s, steps[0]).0, steps[1..])
  }

  /** The plain maps after the transactions of the run. */
  function SimpleAfter(m: seq<Store>, steps: seq<Step>): (r: seq<Store>)
    requires forall step <- steps | step.WriteBuffered? :: InRange(|m|, step.ops)
    ensures |r| == |m|
    decreases |steps|
  {
    if steps == [] then m else SimpleAfter(SimpleNext(m, steps[0]), steps[1..])
  }

  /** Every step of the run is harmless. */
  ghost predicate AllHarmless(s: State, steps: seq<Step>)
    requires Valid(s) && Runs(s, steps)
    decreases |steps|
  {
    steps == [] || (StepRefines(s, steps[0]); Harmless(s, steps[0]) && AllHarmless(Next(s, steps[0]).0, steps[1..]))
  }

  /** At every point of the run what is seen is what plain maps hold after the transactions so far. */
  ghost predicate Refines(s: State, steps: seq<Step>, m: seq<Store>)
    requires Valid(s) && Runs(s, steps)
    decreases |steps|
  {
    View(s) == m &&
    (steps == [] || (StepRefines(s, steps[0]); Refines(Next(s, steps[0]).0, steps[1..], SimpleNext(m, steps[0]))))
  }

  /** Every interleaving refines the plain maps exactly as long as no flush that follows a failed one
      finds a key changed again. */
  lemma {:induction false} RunRefines(s: State, steps: seq<Step>)
    requires Valid(s) && Runs(s, steps)
    ensures Refines(s, steps, View(s)) <==> AllHarmless(s, steps)
    decreases |steps|
  {
    if steps != [] {
      StepRefines(s, steps[0]);
      if Harmless(s, steps[0]) {
        RunRefines(Next(s, steps[0]).0, steps[1..]);
      }
    }
  }

  /** The end of such a run. */
  lemma {:induction false} RunEnds(s: State, steps: seq<Step>)
    requires Valid(s) && Runs(s, steps)
    ensures Valid(After(s, steps)) && After(s, steps).pack == s.pack
    ensures forall step <- steps | step.WriteBuffered? :: InRange(|s.overlay|, step.ops)
    ensures AllHarmless(s, steps) ==> View(After(s, steps)) == SimpleAfter(View(s), steps)
    decreases |steps|
  {
    if steps != [] {
      StepRefines(s, steps[0]);
      RunEnds(Next(s, steps[0]).0, steps[1..]);
      forall step <- steps | step.WriteBuffered?
        ensures InRange(|s.overlay|, step.ops)
      {
        assert step == steps[0] || step in steps[1..];
      }
    }
  }

  /** Between flushes the second buffer is empty. */
  ghost predicate Settled(s: State) { s.phase == Idle ==> AllEmpty(s.flushing) }

  lemma StaysSettled(s: State, step: Step)
    requires Valid(s) && Settled(s) && Enabled(s, step) && step != FailBatch
    ensures Settled(Next(s, step).0) && Harmless(s, step)
  {
  }

  /** A run in which no write fails is harmless. */
  lemma {:induction false} NoFailureIsHarmless(s: State, steps: seq<Step>)
    requires Valid(s) && Settled(s) && Runs(s, steps) && FailBatch !in steps
    ensures AllHarmless(s, steps)
    decreases |steps|
  {
    if steps != [] {
      assert steps[0] in steps && forall t <- steps[1..] :: t in steps;
      StepRefines(s, steps[0]);
      StaysSettled(s, steps[0]);
      NoFailureIsHarmless(Next(s, steps[0]).0, steps[1..]);
    }
  }

  /** The state right after opening. */
  function Opened(backend: seq<Store>, pack: Packer): State
  {
    var empty := seq(|backend|, _ => map[]);
    State(empty, empty, backend, Idle, map[], pack)
  }

  lemma OpenedShows(backend: seq<Store>, pack: Packer)
    ensures var s := Opened(backend, pack); Valid(s) && Settled(s) && View(s) == backend
  {
    var s := Opened(backend, pack);
    LayersTwice(s.flushing, s.backend);
    LayersTwice(s.overlay, Layers(s.flushing, s.backend));
  }

  /** What the operations leave for a key of a column: what the last of them on just that key of just that
      column says, and v if there is none. */
  function LatestOf(ops: seq<DBOp>, col: Option<nat>, key: Bytes, v: Option<Value>): Option<Value>
    decreases |ops|
  {
    if ops == [] then v
    else
      var op := ops[0];
      var w := match op
               case InsertOp(_, _, x) => Some(Plain(x))
               case InsertCompressedOp(_, _, x) => Some(Packable(x))
               case DeleteOp(_, _) => None;
      LatestOf(ops[1..], col, key, if op.col == col && op.key == key then w else v)
  }

  /** The same over the transactions of a run. */
  function LatestIn(steps: seq<Step>, col: Option<nat>, key: Bytes, v: Option<Value>): Option<Value>
    decreases |steps|
  {
    if steps == [] then v
    else LatestIn(steps[1..], col, key, if steps[0].WriteBuffered? then LatestOf(steps[0].ops, col, key, v) else v)
  }

  lemma {:induction false} AppliedIsLatest(m: seq<Store>, ops: seq<DBOp>, col: Option<nat>, key: Bytes)
    requires InRange(|m|, ops) && ToOverlayColumn(col) < |m|
    ensures Get(Applied(m, ops)[ToOverlayColumn(col)], key)
         == LatestOf(ops, col, key, Get(m[ToOverlayColumn(col)], key))
    decreases |ops|
  {
    if ops != [] {
      var c := ToOverlayColumn(ops[0].col);
      AppliedIsLatest(m[c := Effect(m[c], ops[0])], ops[1..], col, key);
    }
  }

  lemma {:induction false} SimpleIsLatest(m: seq<Store>, steps: seq<Step>, col: Option<nat>, key: Bytes)
    requires forall step <- steps | step.WriteBuffered? :: InRange(|m|, step.ops)
    requires ToOverlayColumn(col) < |m|
    ensures Get(SimpleAfter(m, steps)[ToOverlayColumn(col)], key)
         == LatestIn(steps, col, key, Get(m[ToOverlayColumn(col)], key))
    decreases |steps|
  {
    if steps != [] {
      assert steps[0] in steps && forall t <- steps[1..] :: t in steps;
      SimpleIsLatest(SimpleNext(m, steps[0]), steps[1..], col, key);
      if steps[0].WriteBuffered? {
        AppliedIsLatest(m, steps[0].ops, col, key);
      }
    }
  }

  /** A transaction changes what is seen of exactly the keys it names, in exactly the columns it names. */
  lemma WriteIsSeen(s: State, ops: seq<DBOp>, col: Option<nat>, key: Bytes)
    requires Valid(s) && Enabled(s, WriteBuffered(ops)) && ToOverlayColumn(col) < |s.overlay|
    ensures var t := Next(s, WriteBuffered(ops)).0;
            Valid(t) && |t.overlay| == |s.overlay| && Seen(t, col, key) == LatestOf(ops, col, key, Seen(s, col, key))
  {
    StepRefines(s, WriteBuffered(ops));
    AppliedIsLatest(View(s), ops, col, key);
  }

  /** In every harmless run, and so in every run without a failed write, whatever a read answers is
      what the transactions so far leave for that key of that column, or what the store had at first. */
  lemma ReadsSeeEveryWrite(backend: seq<Store>, pack: Packer, steps: seq<Step>, step: Step)
    requires var start := Opened(backend, pack);
             Runs(start, steps) && Enabled(After(start, steps), step) && Next(After(start, steps), step).1.Answer?
    ensures var start := Opened(backend, pack);
            Valid(start) && (FailBatch !in steps ==> AllHarmless(start, steps))
    ensures AllHarmless(Opened(backend, pack), steps) ==>
              var s := After(Opened(backend, pack), steps);
              var q := Asked(s, step);
              && q.Some? && ToOverlayColumn(q.value.0) < |backend|
              && var (col, key) := q.value;
                 Gives(pack, col, LatestIn(steps, col, key, Get(backend[ToOverlayColumn(col)], key)),
                       Next(s, step).1.value)
  {
    var s := Opened(backend, pack);
    OpenedShows(backend, pack);
    if FailBatch !in steps {
      NoFailureIsHarmless(s, steps);
    }
    RunEnds(s, steps);
    StepRefines(After(s, steps), step);
    if AllHarmless(s, steps) {
      var (col, key) := Asked(After(s, steps), step).value;
      SimpleIsLatest(backend, steps, col, key);
    }
  }

  /** A read can always go on to its answer. */
  lemma ReadCompletes(s: State, id: nat, col: Option<nat>, key: Bytes) returns (steps: seq<Step>, last: Step)
    requires Valid(s) && id !in s.readers && ToOverlayColumn(col) < |s.overlay|
    ensures Runs(s, steps) && Enabled(After(s, steps), last) && Next(After(s, steps), last).1.Answer?
    ensures Asked(After(s, steps), last) == Some((col, key)) && After(s, steps).readers - {id} == s.readers
  {
    var c := ToOverlayColumn(col);
    var s1 := Next(s, ReadOverlay(id, col, key)).0;
    if key in s.overlay[c] {
      steps, last := [], ReadOverlay(id, col, key);
    } else if key in s.flushing[c] {
      steps, last := [ReadOverlay(id, col, key)], ReadFlushing(id);
      OneStep(s, ReadOverlay(id, col, key), []);
    } else {
      var s2 := Next(s1, ReadFlushing(id)).0;
      steps, last := [ReadOverlay(id, col, key)] + [ReadFlushing(id)], ReadBackend(id);
      OneStep(s1, ReadFlushing(id), []);
      OneStep(s, ReadOverlay(id, col, key), [ReadFlushing(id)]);
    }
  }

  lemma BufferedOne(overlay: seq<Buffer>, op: DBOp)
    requires ToOverlayColumn(op.col) < |overlay|
    ensures var c := ToOverlayColumn(op.col); Buffered(overlay, [op]) == overlay[c := Change(overlay[c], op)]
  {
    var c := ToOverlayColumn(op.col);
    assert Buffered(overlay, [op]) == Buffered(overlay[c := Change(overlay[c], op)], [op][1..]);
    assert [op][1..] == [];
  }

  lemma OneStep(s: State, step: Step, rest: seq<Step>)
    requires Enabled(s, step) && Runs(Next(s, step).0, rest)
    ensures Runs(s, [step] + rest) && After(s, [step] + rest) == After(Next(s, step).0, rest)
  {
    assert ([step] + rest)[1..] == rest;
  }

  lemma FlushSteps(s: State)
    requires Valid(s) && s.phase == Idle && s.readers == map[]
    ensures Runs(s, [Swap, WriteBatch, Clear])
    ensures After(s, [Swap, WriteBatch, Clear]) ==
            State(s.flushing, seq(|s.overlay|, _ => map[]), Layers(s.overlay, s.backend), Idle, map[], s.pack)
  {
    var s1 := Next(s, Swap).0;
    var s2 := Next(s1, WriteBatch).0;
    OneStep(s2, Clear, []);
    OneStep(s1, WriteBatch, [Clear]);
    OneStep(s, Swap, [WriteBatch, Clear]);
  }

  lemma FailingFlushSteps(s: State)
    requires Valid(s) && s.phase == Idle && s.readers == map[]
    ensures Runs(s, [Swap, FailBatch])
    ensures After(s, [Swap, FailBatch]) == s.(overlay := s.flushing, flushing := s.overlay)
  {
    var s1 := Next(s, Swap).0;
    OneStep(s1, FailBatch, []);
    OneStep(s, Swap, [FailBatch]);
  }

  lemma LastFlush(s: State, key: Bytes, older: Bytes, newer: Bytes)
    requires s == State([map[key := Insert(newer)]], [map[key := Insert(older)]], [map[]], Idle, map[], s.pack)
    ensures Runs(s, [Swap, WriteBatch, Clear])
    ensures var t := After(s, [Swap, WriteBatch, Clear]);
            Valid(t) && View(t) == [map[key := Plain(older)]] && t.backend == [map[key := Plain(newer)]]
  {
    FlushSteps(s);
    var t := State([map[key := Insert(older)]], [map[]], [map[key := Plain(newer)]], Idle, map[], s.pack);
    var none: Buffer := map[];
    assert seq(1, _ => none) == [none];
    assert Layer(map[key := Insert(newer)], map[]) == map[key := Plain(newer)];
    assert Layers(s.overlay, s.backend) == [map[key := Plain(newer)]];
    assert After(s, [Swap, WriteBatch, Clear]) == t;
    LayerTwice(map[], map[key := Plain(newer)]);
    assert Layers(t.flushing, t.backend) == [map[key := Plain(newer)]];
    assert Layer(map[key := Insert(older)], map[key := Plain(newer)]) == map[key := Plain(older)];
    assert View(t) == [map[key := Plain(older)]];
  }

  /** A key set to one value, a failed flush, the key set to another value, and a flush: the first value
      is read from then on, although the store has the second. */
  lemma FailedFlushExample(key: Bytes, older: Bytes, newer: Bytes, pack: Packer) returns (s: State)
    requires older != newer
    ensures var first, second := [InsertOp(None, key, older)], [InsertOp(None, key, newer)];
            var steps := [WriteBuffered(first), Swap, FailBatch, WriteBuffered(second), Swap, WriteBatch, Clear];
            Runs(Opened([map[]], pack), steps) && s == After(Opened([map[]], pack), steps)
    ensures Valid(s) && View(s) == [map[key := Plain(older)]] && s.backend == [map[key := Plain(newer)]]
  {
    var first, second := WriteBuffered([InsertOp(None, key, older)]), WriteBuffered([InsertOp(None, key, newer)]);
    var start := Opened([map[]], pack);
    var none: Buffer := map[];
    assert start.overlay == [none] && start.flushing == [none];
    var s1 := State([map[key := Insert(older)]], [map[]], [map[]], Idle, map[], pack);
    BufferedOne([map[]], InsertOp(None, key, older));
    assert Next(start, first).0 == s1;
    var s3 := State([map[]], [map[key := Insert(older)]], [map[]], Idle, map[], pack);
    var s4 := State([map[key := Insert(newer)]], [map[key := Insert(older)]], [map[]], Idle, map[], pack);
    BufferedOne([map[]], InsertOp(None, key, newer));
    assert Next(s3, second).0 == s4;
    LastFlush(s4, key, older, newer);
    OneStep(s3, second, [Swap, WriteBatch, Clear]);
    OneStep(s3.(phase := Swapped), FailBatch, [second] + [Swap, WriteBatch, Clear]);
    OneStep(s1, Swap, [FailBatch] + ([second] + [Swap, WriteBatch, Clear]));
    OneStep(start, first, [Swap] + ([FailBatch] + ([second] + [Swap, WriteBatch, Clear])));
    assert [first] + ([Swap] + ([FailBatch] + ([second] + [Swap, WriteBatch, Clear])))
        == [first, Swap, FailBatch, second, Swap, WriteBatch, Clear];
    s := After(s4, [Swap, WriteBatch, Clear]);
  }

  /** A reader under way keeps out writers and the start of a flush, and stays until its own next step. */
  lemma ReadersBlock(s: State, step: Step, id: nat)
    requires Enabled(s, step) && id in s.readers
    ensures !step.WriteBuffered? && !step.Swap?
    ensures step != ReadFlushing(id) && step != ReadBackend(id) ==> id in Next(s, step).0.readers
  {
    assert s.readers != map[];
  }

  lemma ReaderStays(s: State, step: Step, id: nat)
    requires Valid(s) && Enabled(s, step) && id in s.readers
    requires step != ReadFlushing(id) && step != ReadBackend(id)
    ensures var s' := Next(s, step).0;
            Valid(s') && id in s'.readers && View(s') == View(s)
  {
    ReadersBlock(s, step, id);
    StepRefines(s, step);
  }

  /** While a reader is under way nothing it could see changes, so its answer is also what the map
      held when it started. */
  lemma {:induction false} NothingChangesWhileReading(s: State, steps: seq<Step>, id: nat)
    requires Valid(s) && Runs(s, steps) && id in s.readers
    requires ReadFlushing(id) !in steps && ReadBackend(id) !in steps
    ensures Valid(After(s, steps)) && id in After(s, steps).readers && View(After(s, steps)) == View(s)
    decreases |steps|
  {
    if steps != [] {
      assert steps[0] in steps && forall t <- steps[1..] :: t in steps;
      ReaderStays(s, steps[0], id);
      NothingChangesWhileReading(Next(s, steps[0]).0, steps[1..], id);
    }
  }

  // ---------------------------------------------------------------- the program

  type Files = seq<map<Bytes, Bytes>>

  datatype Write = Put(column: nat, key: Bytes, bytes: Bytes) | Erase(column: nat, key: Bytes)

  function WriteOne(m: map<Bytes, Bytes>, w: Write): map<Bytes, Bytes>
  {
    match w
    case Put(_, k, b) => m[k := b]
    case Erase(_, k) => m - {k}
  }

  /** The backing store after a batch. */
  function WriteAll(files: Files, batch: seq<Write>): (r: Files)
    requires forall w <- batch :: w.column < |files|
    ensures |r| == |files|
    decreases |batch|
  {
    if batch == [] then files
    else WriteAll(files[batch[0].column := WriteOne(files[batch[0].column], batch[0])], batch[1..])
  }

  lemma {:induction false} OneMoreWrite(files: Files, batch: seq<Write>, w: Write)
    requires (forall v <- batch :: v.column < |files|) && w.column < |files|
    ensures forall v <- batch + [w] :: v.column < |files|
    ensures var r := WriteAll(files, batch);
            WriteAll(files, batch + [w]) == r[w.column := WriteOne(r[w.column], w)]
    decreases |batch|
  {
    if batch == [] {
      assert ([] + [w])[1..] == [];
      var one := files[w.column := WriteOne(files[w.column], w)];
      assert WriteAll(one, []) == one;
      assert batch + [w] == [w];
    } else {
      assert (batch + [w])[1..] == batch[1..] + [w];
      OneMoreWrite(files[batch[0].column := WriteOne(files[batch[0].column], batch[0])], batch[1..], w);
    }
  }

  /** One column as the backing store has it. */
  function DiskColumn(pack: Packer, c: nat, m: Store): map<Bytes, Bytes>
  {
    map k | k in m :: OnDisk(pack, c, m[k])
  }

  function Disk(pack: Packer, backend: seq<Store>): (r: Files)
    ensures |r| == |backend|
  {
    seq(|backend|, c requires 0 <= c < |backend| => DiskColumn(pack, c, backend[c]))
  }

  /** What the flush writes for a key of a column. */
  function BatchWrite(pack: Packer, c: nat, key: Bytes, state: KeyState): Write
  {
    match state
    case Delete => Erase(c, key)
    case Insert(v) => Put(c, key, v)
    case InsertCompressed(v) => if c > 0 then Put(c, key, pack(v)) else Put(c, key, v)
  }

  lemma WriteMatches(pack: Packer, c: nat, part: Buffer, under: Store, key: Bytes, state: KeyState)
    ensures DiskColumn(pack, c, Layer(part[key := state], under))
         == WriteOne(DiskColumn(pack, c, Layer(part, under)), BatchWrite(pack, c, key, state))
  {
  }

  /** The first c columns written out, of the next those keys that are in part. */
  ghost predicate WrittenOut(pack: Packer, flushing: seq<Buffer>, backend: seq<Store>, c: nat, part: Buffer, r: Files)
    requires |flushing| == |backend| && c <= |flushing|
  {
    && |r| == |backend|
    && (forall i | 0 <= i < c :: r[i] == DiskColumn(pack, i, Layer(flushing[i], backend[i])))
    && (forall i | c <= i < |r| ::
          r[i] == DiskColumn(pack, i, if i == c then Layer(part, backend[i]) else backend[i]))
  }

  lemma OneMoreKey(pack: Packer, flushing: seq<Buffer>, backend: seq<Store>, c: nat, part: Buffer,
                   key: Bytes, state: KeyState, r: Files)
    requires |flushing| == |backend| && c < |flushing| && WrittenOut(pack, flushing, backend, c, part, r)
    ensures WrittenOut(pack, flushing, backend, c, part[key := state],
                       r[c := WriteOne(r[c], BatchWrite(pack, c, key, state))])
  {
    WriteMatches(pack, c, part, backend[c], key, state);
  }

  lemma ColumnIsWritten(pack: Packer, flushing: seq<Buffer>, backend: seq<Store>, c: nat, r: Files)
    requires |flushing| == |backend| && c < |flushing| && WrittenOut(pack, flushing, backend, c, flushing[c], r)
    ensures WrittenOut(pack, flushing, backend, c + 1, map[], r)
  {
    NothingOver(backend);
  }

  lemma NothingOver(backend: seq<Store>)
    ensures forall i | 0 <= i < |backend| :: Layer(map[], backend[i]) == backend[i]
  {
    forall i | 0 <= i < |backend|
      ensures Layer(map[], backend[i]) == backend[i]
    {
      LayerTwice(map[], backend[i]);
    }
  }

  /** Collects one column; the keys come in any order. */
  method BatchColumn(pack: Packer, flushing: seq<Buffer>, ghost backend: seq<Store>, c: nat, start: seq<Write>)
    returns (batch: seq<Write>)
    requires |flushing| == |backend| && c < |flushing| && forall w <- start :: w.column < |backend|
    requires WrittenOut(pack, flushing, backend, c, map[], WriteAll(Disk(pack, backend), start))
    ensures forall w <- batch :: w.column < |backend|
    ensures WrittenOut(pack, flushing, backend, c + 1, map[], WriteAll(Disk(pack, backend), batch))
  {
    batch := start;
    var rest := flushing[c].Keys;
    ghost var part: Buffer := map[];
    ghost var files := Disk(pack, backend);
    while rest != {}
      invariant (forall w <- batch :: w.column < |backend|) && rest <= flushing[c].Keys
      invariant part.Keys == flushing[c].Keys - rest && forall k <- part :: part[k] == flushing[c][k]
      invariant WrittenOut(pack, flushing, backend, c, part, WriteAll(files, batch))
      decreases rest
    {
      var key :| key in rest;
      var state := flushing[c][key];
      var w := BatchWrite(pack, c, key, state);
      OneMoreWrite(files, batch, w);
      OneMoreKey(pack, flushing, backend, c, part, key, state, WriteAll(files, batch));
      batch := batch + [w];
      rest := rest - {key};
      part := part[key := state];
    }
    assert part == flushing[c];
    ColumnIsWritten(pack, flushing, backend, c, WriteAll(files, batch));
  }

  /** The batch of a flush, for a store that keeps the given values. */
  method BuildBatch(pack: Packer, flushing: seq<Buffer>, ghost backend: seq<Store>) returns (batch: seq<Write>)
    requires |flushing| == |backend|
    ensures forall w <- batch :: w.column < |backend|
    ensures WriteAll(Disk(pack, backend), batch) == Disk(pack, Layers(flushing, backend))
  {
    batch := [];
    NothingOver(backend);
    for c := 0 to |flushing|
      invariant forall w <- batch :: w.column < |backend|
      invariant WrittenOut(pack, flushing, backend, c, map[], WriteAll(Disk(pack, backend), batch))
    {
      batch := BatchColumn(pack, flushing, backend, c, batch);
    }
  }

  datatype FlushError = DatabaseIsClosed | DatabaseWriteFailure | BackendFailure

  /** The steps of a flush. */
  function FlushRun(started: bool, accepted: bool): seq<Step>
  {
    if !started then [] else if accepted then [Swap, WriteBatch, Clear] else [Swap, FailBatch]
  }

  class Database {
    const pack: Packer
    var files: Files
    var overlay: seq<Buffer>
    var flushing: seq<Buffer>
    var isOpen: bool
    /** Set while a flush is in progress; it stays set when the flushing thread is terminated. */
    var inProgress: bool
    /** The values that the store was given for what it keeps. */
    ghost var backend: seq<Store>

    constructor (stored: Files, pack: Packer)
      ensures Valid(Now()) && Sane() && this.pack == pack && isOpen && !inProgress
      ensures files == stored && Now() == Opened(backend, pack)
      ensures forall c | 0 <= c < |backend| :: forall k <- backend[c] :: backend[c][k].Plain?
    {
      this.pack, files := pack, stored;
      overlay := seq(|stored|, _ => map[]);
      flushing := seq(|stored|, _ => map[]);
      isOpen, inProgress := true, false;
      backend := seq(|stored|, c requires 0 <= c < |stored| => map k | k in stored[c] :: Plain(stored[c][k]));
      new;
      OpenedShows(backend, pack);
      forall c | 0 <= c < |files|
        ensures files[c] == DiskColumn(pack, c, backend[c])
      {
      }
    }

    /** The state between calls, when no other thread holds a lock. */
    ghost function Now(): State
      reads this
    {
      State(overlay, flushing, backend, Idle, map[], pack)
    }

    /** The store keeps what it was given, packed where it should be. */
    ghost predicate Sane()
      reads this
    {
      files == Disk(pack, backend)
    }

    method WriteTransaction(ops: seq<DBOp>)
      requires InRange(|overlay|, ops)
      modifies `overlay
      ensures Now() == Next(old(Now()), WriteBuffered(ops)).0
      ensures old(Valid(Now())) ==>
                && Valid(Now())
                && forall col: Option<nat>, key: Bytes {:trigger Seen(Now(), col, key)} |
                     ToOverlayColumn(col) < |overlay| ::
                     Seen(Now(), col, key) == LatestOf(ops, col, key, old(Seen(Now(), col, key)))
    {
      ghost var before := Now();
      for i := 0 to |ops|
        invariant |overlay| == |old(overlay)|
        invariant Buffered(overlay, ops[i..]) == Buffered(old(overlay), ops)
      {
        assert ops[i..][0] == ops[i] && ops[i..][1..] == ops[i + 1..];
        var c := ToOverlayColumn(ops[i].col);
        match ops[i]
        case InsertOp(_, key, value) => overlay := overlay[c := overlay[c][key := Insert(value)]];
        case InsertCompressedOp(_, key, value) => overlay := overlay[c := overlay[c][key := InsertCompressed(value)]];
        case DeleteOp(_, key) => overlay := overlay[c := overlay[c][key := Delete]];
      }
      if Valid(before) {
        forall col: Option<nat>, key: Bytes | ToOverlayColumn(col) < |overlay|
          ensures Valid(Now()) && Seen(Now(), col, key) == LatestOf(ops, col, key, Seen(before, col, key))
        {
          WriteIsSeen(before, ops, col, key);
        }
        StepRefines(before, WriteBuffered(ops));
      }
    }

    /** A flush goes through the steps that other threads can come between. The backing store may refuse
        the batch. */
    method WriteFlushingWithLock(accepted: bool) returns (r: Result<(), FlushError>)
      requires Valid(Now()) && Sane()
      modifies `overlay, `flushing, `files, `backend
      ensures r == if !isOpen then Err(DatabaseIsClosed) else if !accepted then Err(BackendFailure) else Ok(())
      ensures Sane() && Runs(old(Now()), FlushRun(isOpen, accepted))
      ensures Now() == After(old(Now()), FlushRun(isOpen, accepted))
      ensures r.Ok? ==>
                && files == Disk(pack, Layers(old(overlay), old(backend)))
                && overlay == old(flushing) && AllEmpty(flushing) && |flushing| == |overlay|
      ensures r == Err(BackendFailure) ==>
                files == old(files) && overlay == old(flushing) && flushing == old(overlay)
      ensures r == Err(DatabaseIsClosed) ==> Now() == old(Now()) && files == old(files)
    {
      if !isOpen {
        return Err(DatabaseIsClosed);
      }
      FlushSteps(Now());
      FailingFlushSteps(Now());
      overlay, flushing := flushing, overlay;
      var batch := BuildBatch(pack, flushing, backend);
      if !accepted {
        return Err(BackendFailure);
      }
      files, backend := WriteAll(files, batch), Layers(flushing, backend);
      ghost var before := Now();
      for c := 0 to |flushing|
        invariant |flushing| == |before.flushing| && overlay == before.overlay && backend == before.backend && Sane()
        invariant forall i | 0 <= i < c :: flushing[i] == map[]
      {
        flushing := flushing[c := map[]];
      }
      assert flushing == seq(|old(overlay)|, _ => map[]);
      return Ok(());
    }

    method Flush(accepted: bool) returns (r: Result<(), FlushError>)
      requires Valid(Now()) && Sane()
      modifies `overlay, `flushing, `files, `backend, `inProgress
      ensures r == if old(inProgress) then Err(DatabaseWriteFailure)
                   else if !isOpen then Err(DatabaseIsClosed)
                   else if !accepted then Err(BackendFailure) else Ok(())
      ensures inProgress == old(inProgress) && Sane()
      ensures var steps := FlushRun(isOpen && !inProgress, accepted);
              Runs(old(Now()), steps) && Now() == After(old(Now()), steps)
      ensures r.Ok? ==>
                && files == Disk(pack, Layers(old(overlay), old(backend)))
                && overlay == old(flushing) && AllEmpty(flushing) && |flushing| == |overlay|
      ensures r == Err(BackendFailure) ==>
                files == old(files) && overlay == old(flushing) && flushing == old(overlay)
      ensures r.Err? && r.error != BackendFailure ==> Now() == old(Now()) && files == old(files)
    {
      if inProgress {
        return Err(DatabaseWriteFailure);
      }
      inProgress := true;
      r := WriteFlushingWithLock(accepted);
      inProgress := false;
    }

    /** A read that nothing comes between, at any stage of a flush: the value as it was given while it is
        buffered, and as the store keeps it afterwards. A closed database has no values. */
    method Read(col: Option<nat>, key: Bytes) returns (r: Option<Bytes>)
      requires |overlay| == |flushing| == |backend| && Sane() && ToOverlayColumn(col) < |overlay|
      ensures isOpen ==> Gives(pack, col, Seen(Now(), col, key), r)
      ensures !isOpen ==> r == None
      ensures isOpen ==>
                var c := ToOverlayColumn(col);
                var v := Get(View(Now())[c], key);
                r == if key !in overlay[c] && key !in flushing[c] then Kept(pack, c, backend[c], key)
                     else match v case None => None case Some(w) => Some(w.bytes)
    {
      if !isOpen {
        return None;
      }
      var c := ToOverlayColumn(col);
      if key in overlay[c] {
        match overlay[c][key]
        case Insert(value) => return Some(value);
        case InsertCompressed(value) => return Some(value);
        case Delete => return None;
      }
      if key in flushing[c] {
        match flushing[c][key]
        case Insert(value) => return Some(value);
        case InsertCompressed(value) => return Some(value);
        case Delete => return None;
      }
      return if key in files[c] then Some(files[c][key]) else None;
    }
  }

  /** A flush can change what is read for a key: exactly when its value is one to be packed, not in the
      default column, and packing makes other bytes of it. */
  lemma FlushChangesReads(s: State, c: nat, key: Bytes)
    requires Valid(s) && s.phase == Idle && s.readers == map[] && c < |s.overlay|
    requires key in s.overlay[c] && !s.overlay[c][key].Delete? && key !in s.flushing[c]
    ensures Runs(s, [Swap, WriteBatch, Clear])
    ensures var t, v := After(s, [Swap, WriteBatch, Clear]), Held(s.overlay[c][key]);
            && key !in t.overlay[c] && key !in t.flushing[c]
            && (Kept(t.pack, c, t.backend[c], key) == Some(v.bytes) <==>
                  !(v.Packable? && c > 0 && s.pack(v.bytes) != v.bytes))
  {
    FlushSteps(s);
  }

  function Tables(common: seq<Bytes>, empty: seq<Bytes>): Compression.Swappers
    requires |common| <= 0x7e && |empty| <= 0x7e
  {
    Compression.Swappers(Compression.TableSwapper(common), Compression.TableSwapper(empty))
  }

  /** What the database compresses with. */
  function BlockPacker(common: seq<Bytes>, empty: seq<Bytes>): Packer
    requires |common| <= 0x7e && |empty| <= 0x7e
  {
    var tables := Tables(common, empty);
    b => Compression.Compress(b, Compression.Blocks, tables)
  }

  /** Whatever of the two is read, decompressing it gives the value back, if that is canonical data. */
  lemma ReadsUnpack(r: Rlp.Item, common: seq<Bytes>, empty: seq<Bytes>, col: Option<nat>, answer: Bytes)
    requires |common| <= 0x7e && |empty| <= 0x7e
    requires (forall b <- common :: |b| >= 2) && (forall b <- empty :: |b| >= 2)
    requires |Rlp.Encode(r)| < U32_LIMIT
    requires Gives(BlockPacker(common, empty), col, Some(Packable(Rlp.Encode(r))), Some(answer))
    ensures Compression.Decompress(answer, Compression.Blocks, Tables(common, empty)) == Rlp.Encode(r)
  {
    Compression.RoundTrip(r, Compression.Blocks, common, empty);
    Compression.RawComesBack(r, common, empty);
  }
}
