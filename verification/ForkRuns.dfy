/** Runs of insertions: how long the walks stay right, and runs after which they do not. */
module ForkRuns {
  import opened Bytes
  import opened HashDb
  import opened ForkWalk
  import opened ForkSwitch

  // ---------------------------------------------------------------- whole runs

  datatype Insertion = Insertion(hash: H256, header: Header, body: seq<H256>)

  ghost predicate Runs(s: State, steps: seq<Insertion>)
    decreases |steps|
  {
    steps == [] ||
    (var i := steps[0]; Enabled(s, i.hash, i.header, i.body)
                        && Runs(Inserted(s, i.hash, i.header, i.body), steps[1..]))
  }

  ghost predicate AlwaysTracks(s: State, steps: seq<Insertion>)
    requires Runs(s, steps)
    decreases |steps|
  {
    Tracks(s) && (steps == [] || (var i := steps[0]; AlwaysTracks(Inserted(s, i.hash, i.header, i.body), steps[1..])))
  }

  /** Every block that becomes the head has its parent on the index. */
  ghost predicate NeverSwitches(s: State, steps: seq<Insertion>)
    requires Runs(s, steps)
    decreases |steps|
  {
    steps == [] ||
    (var i := steps[0];
     && (Adopts(s, i.header) ==> OnTheChain(s, i.header))
     && NeverSwitches(Inserted(s, i.hash, i.header, i.body), steps[1..]))
  }

  /** Window, index and head stay in step through a run exactly when it never switches branches. */
  lemma {:induction false} RunTracksIff(s: State, steps: seq<Insertion>)
    requires Tracks(s) && Runs(s, steps)
    ensures AlwaysTracks(s, steps) <==> NeverSwitches(s, steps)
    decreases |steps|
  {
    if steps != [] {
      var i := steps[0];
      var next := Inserted(s, i.hash, i.header, i.body);
      InsertionTracksIff(s, i.hash, i.header, i.body);
      if Tracks(next) {
        RunTracksIff(next, steps[1..]);
      }
    }
  }

  // ---------------------------------------------------------------- checks before an insertion

  /** The height of the ancestor that the proof of a block of height h refers to. */
  function AncHeight(epochLength: nat, h: nat): nat
    requires epochLength > 0
  {
    var a := h / epochLength;
    if a > 0 then (a - 1) * epochLength else 0
  }

  lemma AncHeightBounds(epochLength: nat, h: nat)
    requires epochLength > 0 && h > 0
    ensures AncHeight(epochLength, h) < h
    ensures h < epochLength ==> AncHeight(epochLength, h) == 0
    ensures h >= epochLength ==> AncHeight(epochLength, h) <= h - epochLength < AncHeight(epochLength, h) + epochLength
    ensures exists n: nat :: AncHeight(epochLength, h) == n * epochLength
    ensures h >= 2 * epochLength ==> AncHeight(epochLength, h) > 0
  {
    var a := h / epochLength;
    assert h == a * epochLength + h % epochLength;
    if a > 0 {
      assert (a - 1) * epochLength == a * epochLength - epochLength;
    }
    if h >= 2 * epochLength {
      assert (a - 1) * epochLength > 0;
    }
  }

  /** anc_hash gives something: the walk to that height ends at a stored header. */
  ghost predicate AncestorFound(s: State, epochLength: nat, header: Header)
    requires HasWindow(s.numbers) && epochLength > 0 && header.height > 0
  {
    var anc := AncHeight(epochLength, header.height);
    var r := ForkHash(s.headers, s.numbers, anc, header.height - 1, header.parent);
    r.Some? && r.value in s.headers
  }

  /** How many parents there are above the first block. */
  lemma AncestorIsStored(hs: Headers, bodies: Bodies, genesis: H256, hash: H256, n: nat)
    requires Linked(hs, bodies, genesis) && Rootless(hs, genesis) && hash in hs
    ensures var r := Ancestor(hs, hash, n); (r.Some? && r.value in hs) <==> n <= hs[hash].height
  {
    var h := hs[hash].height;
    if n <= h {
      AncestorHeight(hs, bodies, genesis, hash, n);
    } else {
      GenesisStays(hs, bodies, genesis, hash, h);
      AncestorOfAncestor(hs, hash, h, n - h);
      assert Ancestor(hs, genesis, n - h) == Ancestor(hs, hs[genesis].parent, n - h - 1);
    }
  }

  /** The check only asks that the height claimed is not further above the parent's than the ancestor
      looked for is above the first block; a block one above its parent always passes. */
  lemma AncestorCheckIff(s: State, epochLength: nat, header: Header)
    requires Sound(s) && Rootless(s.headers, s.numbers.index[0])
    requires header.parent in s.headers && header.height > 0 && epochLength > 0
    ensures AncestorFound(s, epochLength, header) <==>
            header.height - 1 - AncHeight(epochLength, header.height) <= s.headers[header.parent].height
    ensures Above(s, header) ==> AncestorFound(s, epochLength, header)
  {
    AncHeightBounds(epochLength, header.height);
    TrackingWalks(s);
    var n: nat := header.height - 1 - AncHeight(epochLength, header.height);
    AncestorIsStored(s.headers, s.bodies, s.numbers.index[0], header.parent, n);
  }

  /** The checks let the block through as a verified one. */
  ghost predicate Passes(s: State, epochLength: nat, bufferSize: nat, header: Header)
  {
    && HasWindow(s.numbers) && epochLength > 0 && header.height > 0 && AncestorFound(s, epochLength, header)
    && Known(s.headers, s.bodies, s.numbers, header.height - 1, header.parent)
    && Verifiable(s, bufferSize, header.height - 1, header.parent)
  }

  /** The program takes the block, without transactions, from s to t. */
  ghost predicate Takes(s: State, epochLength: nat, bufferSize: nat, hash: H256, header: Header, t: State)
  {
    && Passes(s, epochLength, bufferSize, header)
    && Enabled(s, hash, header, []) && t == Inserted(s, hash, header, [])
  }

  // ---------------------------------------------------------------- two examples

  /** What the examples keep: a sound state with a first block that has no stored parent. */
  ghost predicate Begun(s: State, g: H256)
  {
    Sound(s) && s.numbers.index[0] == g && Rootless(s.headers, g)
  }

  lemma StoresSoundly(s: State, hash: H256, header: Header)
    requires Sound(s) && hash !in s.headers && header.parent in s.headers && header.height > 0 && header.verified
    requires Above(s, header)
    ensures Enabled(s, hash, header, []) && Sound(Stored(s, hash, header, []))
  {
    StaysLinked(s.headers, s.bodies, s.numbers.index[0], hash, header, []);
    AncestryKept(s.headers, s.headers[hash := header], s.numbers.index, s.head, s.height);
    LinkedIsWalkable(Stored(s, hash, header, []), hash);
  }

  /** A block whose parent is on the index passes, if it is not too far back. */
  lemma PassesOnTheChain(s: State, epochLength: nat, bufferSize: nat, header: Header)
    requires Sound(s) && Rootless(s.headers, s.numbers.index[0]) && epochLength > 0
    requires header.parent in s.headers && header.height > 0 && Above(s, header) && OnTheChain(s, header)
    requires bufferSize > 0 && s.height < header.height + bufferSize < USIZE_LIMIT
    ensures Passes(s, epochLength, bufferSize, header)
  {
    AncestorCheckIff(s, epochLength, header);
    AlignedAgrees(s.numbers, s.height);
    assert Read(s.numbers, header.height - 1) == At(s.numbers.index, header.height - 1);
  }

  /** Inserting a block whose parent is on the index. */
  lemma InsertsSoundly(s: State, g: H256, hash: H256, header: Header, epochLength: nat, bufferSize: nat)
    returns (t: State)
    requires Begun(s, g) && hash !in s.headers && hash != s.headers[g].parent && epochLength > 0
    requires header.parent in s.headers && header.height > 0 && header.verified
    requires Above(s, header) && OnTheChain(s, header)
    requires bufferSize > 0 && s.height < header.height + bufferSize < USIZE_LIMIT
    ensures Takes(s, epochLength, bufferSize, hash, header, t) && Begun(t, g)
    ensures t.headers == s.headers[hash := header] && |t.numbers.window| == |s.numbers.window|
    ensures Adopts(s, header) ==> t.height == header.height && t.head == hash
    ensures !Adopts(s, header) ==> t.height == s.height && t.head == s.head
  {
    PassesOnTheChain(s, epochLength, bufferSize, header);
    StoresSoundly(s, hash, header);
    t := Inserted(s, hash, header, []);
    InsertionIsSound(s, hash, header, []);
    FirstStays(s, g, hash, header);
  }

  lemma FirstStays(s: State, g: H256, hash: H256, header: Header)
    requires Begun(s, g) && Enabled(s, hash, header, []) && hash != s.headers[g].parent
    ensures At(Inserted(s, hash, header, []).numbers.index, 0) == Some(g)
  {
    if Adopts(s, header) {
      FirstEntryStays(s, hash, header, []);
    }
  }

  /** The index below the head, as the headers have it. */
  lemma IndexAt(s: State, n: nat, b: H256)
    requires Sound(s) && n <= s.height && Ancestor(s.headers, s.head, s.height - n) == Some(b)
    ensures At(s.numbers.index, n) == Some(b)
  {
    assert n in s.numbers.index;
  }

  lemma FirstBlock(g: H256, a1: H256, first: Header, epochLength: nat, bufferSize: nat) returns (s0: State, s1: State)
    requires a1 != g && first.height == 0 && first.parent !in {g, a1} && epochLength > 0 && 1 < bufferSize < U32_LIMIT
    ensures s0 == Start(g, first, [], WINDOW_MARGIN + bufferSize)
    ensures Takes(s0, epochLength, bufferSize, a1, Header(g, 1, true), s1)
    ensures Begun(s1, g) && s1.height == 1 && s1.head == a1
    ensures s1.headers == map[g := first, a1 := Header(g, 1, true)]
    ensures |s1.numbers.window| == WINDOW_MARGIN + bufferSize
  {
    StartIsSound(g, first, [], WINDOW_MARGIN + bufferSize);
    s0 := Start(g, first, [], WINDOW_MARGIN + bufferSize);
    s1 := InsertsSoundly(s0, g, a1, Header(g, 1, true), epochLength, bufferSize);
  }

  lemma SecondBlock(s: State, g: H256, a1: H256, a2: H256, epochLength: nat, bufferSize: nat) returns (t: State)
    requires Begun(s, g) && s.height == 1 && s.head == a1 && a1 in s.headers && s.headers[a1].height == 1
    requires a2 !in s.headers && s.headers[g].parent != a2 && epochLength > 0 && 1 < bufferSize < U32_LIMIT
    ensures Takes(s, epochLength, bufferSize, a2, Header(a1, 2, true), t)
    ensures Begun(t, g) && t.height == 2 && t.head == a2 && |t.numbers.window| == |s.numbers.window|
    ensures t.headers == s.headers[a2 := Header(a1, 2, true)]
  {
    IndexAt(s, 1, a1);
    t := InsertsSoundly(s, g, a2, Header(a1, 2, true), epochLength, bufferSize);
  }

  /** On another branch, below the head. */
  lemma ThirdBlock(s: State, g: H256, b1: H256, epochLength: nat, bufferSize: nat) returns (t: State)
    requires Begun(s, g) && s.height == 2 && b1 !in s.headers && s.headers[g].parent != b1
    requires epochLength > 0 && 1 < bufferSize < U32_LIMIT
    ensures Takes(s, epochLength, bufferSize, b1, Header(g, 1, true), t)
    ensures Begun(t, g) && t.height == 2 && t.head == s.head && |t.numbers.window| == |s.numbers.window|
    ensures t.headers == s.headers[b1 := Header(g, 1, true)]
  {
    assert WellPlaced(s.headers, g, g) && s.headers[g].height == 0 by {
      AncestorHeight(s.headers, s.bodies, g, s.head, s.height);
      GenesisStays(s.headers, s.bodies, g, s.head, s.height);
    }
    t := InsertsSoundly(s, g, b1, Header(g, 1, true), epochLength, bufferSize);
  }

  /** Blocks a1 and a2 on one branch, then b1 and b2 on another, all of which the program takes as
      verified: after that, the walk from b2 down to the first block of all comes back with b2. */
  lemma SwitchExample(g: H256, a1: H256, a2: H256, b1: H256, b2: H256, first: Header, epochLength: nat, bufferSize: nat)
    returns (s0: State, s1: State, s2: State, s3: State, s4: State)
    requires a1 != g && a2 !in {g, a1} && b1 !in {g, a1, a2} && b2 !in {g, a1, a2, b1}
    requires first.height == 0 && first.parent !in {g, a1, a2, b1, b2} && epochLength > 0 && 1 < bufferSize < U32_LIMIT
    ensures s0 == Start(g, first, [], WINDOW_MARGIN + bufferSize)
    ensures Takes(s0, epochLength, bufferSize, a1, Header(g, 1, true), s1)
    ensures Takes(s1, epochLength, bufferSize, a2, Header(a1, 2, true), s2)
    ensures Takes(s2, epochLength, bufferSize, b1, Header(g, 1, true), s3)
    ensures Takes(s3, epochLength, bufferSize, b2, Header(b1, 2, true), s4)
    ensures s4.head == b2 && Ancestor(s4.headers, b2, 2) == Some(g)
    ensures HasWindow(s4.numbers) && ForkHash(s4.headers, s4.numbers, 0, 2, b2) == Some(b2)
  {
    s0, s1 := FirstBlock(g, a1, first, epochLength, bufferSize);
    s2 := SecondBlock(s1, g, a1, a2, epochLength, bufferSize);
    s3 := ThirdBlock(s2, g, b1, epochLength, bufferSize);
    s4 := LastSwitches(s3, g, a1, a2, b1, b2, epochLength, bufferSize);
  }

  /** A branch of one block passes. */
  lemma PassesOnABranch(s: State, b1: H256, epochLength: nat, bufferSize: nat, header: Header)
    requires Sound(s) && Rootless(s.headers, s.numbers.index[0]) && epochLength > 0
    requires header == Header(b1, 2, true) && s.height == 2 && At(s.numbers.index, 1) != Some(b1)
    requires b1 in s.headers && s.headers[b1] == Header(s.numbers.index[0], 1, true)
    requires 1 < bufferSize < U32_LIMIT
    ensures Passes(s, epochLength, bufferSize, header)
    ensures Branch(s.headers, s.bodies, s.numbers, 1, b1) == [b1]
  {
    AncestorCheckIff(s, epochLength, header);
    AlignedAgrees(s.numbers, s.height);
    assert Read(s.numbers, 1) == At(s.numbers.index, 1);
    assert Branch(s.headers, s.bodies, s.numbers, 1, b1)
        == [b1] + Branch(s.headers, s.bodies, s.numbers, 0, s.numbers.index[0]) == [b1];
  }

  lemma LastSwitches(s: State, g: H256, a1: H256, a2: H256, b1: H256, b2: H256, epochLength: nat, bufferSize: nat)
    returns (t: State)
    requires Begun(s, g) && s.height == 2 && s.head == a2 && |s.numbers.window| > 1
    requires {g, a1, a2, b1} <= s.headers.Keys && b2 !in s.headers && b1 != a1
    requires s.headers[a2].parent == a1 && s.headers[b1] == Header(g, 1, true)
    requires epochLength > 0 && 1 < bufferSize < U32_LIMIT
    ensures Takes(s, epochLength, bufferSize, b2, Header(b1, 2, true), t)
    ensures t.head == b2 && Ancestor(t.headers, b2, 2) == Some(g)
    ensures HasWindow(t.numbers) && ForkHash(t.headers, t.numbers, 0, 2, b2) == Some(b2)
  {
    var header := Header(b1, 2, true);
    assert Ancestor(s.headers, a2, 1) == Ancestor(s.headers, a1, 0) == Some(a1);
    IndexAt(s, 1, a1);
    PassesOnABranch(s, b1, epochLength, bufferSize, header);
    StoresSoundly(s, b2, header);
    var u := Stored(s, b2, header, []);
    t := Inserted(s, b2, header, []);
    BranchKept(s, b2, header, [], 1, b1);
    SwitchMisleadsWalk(u, b2);
    assert Ancestor(t.headers, b2, 2) == Ancestor(t.headers, b1, 1) == Ancestor(t.headers, g, 0);
  }

  // ---------------------------------------------------------------- a height that does not fit

  /** In a sound state a number gives a block of that height. */
  lemma ReadHeight(s: State, n: nat)
    requires Sound(s) && Read(s.numbers, n).Some?
    ensures var b := Read(s.numbers, n).value; b in s.headers && s.headers[b].height == n
  {
    TrackingWalks(s);
    if n <= s.height {
      AncestorHeight(s.headers, s.bodies, s.numbers.index[0], s.head, s.height - n);
    }
  }

  /** A walk that starts one too high never meets the numbered chain: its branch is everything down to
      the first block. */
  lemma {:induction false} OneTooHigh(s: State, n: nat, b: H256)
    requires Sound(s) && b in s.headers && n == s.headers[b].height + 1
    ensures Known(s.headers, s.bodies, s.numbers, n, b)
    ensures var c := Branch(s.headers, s.bodies, s.numbers, n, b);
            && |c| == n && c[0] == b
            && forall j | 0 <= j < n :: s.headers[c[j]].height == n - 1 - j
    decreases n
  {
    if Read(s.numbers, n).Some? {
      ReadHeight(s, n);
    }
    assert WellPlaced(s.headers, s.numbers.index[0], b);
    var parent := s.headers[b].parent;
    if n > 1 {
      OneTooHigh(s, n - 1, parent);
    }
    assert Branch(s.headers, s.bodies, s.numbers, n, b) == [b] + Branch(s.headers, s.bodies, s.numbers, n - 1, parent);
  }

  /** The index with a whole branch from just below the head entered, and a block above the head. */
  lemma HeadStaysIndexed(index: Index, blocks: seq<BlockInfo>, n: nat, head: H256, last: H256)
    requires |blocks| == n + 1 && blocks[n].height == n + 1 && blocks[n].hash == last
    requires forall j | 0 <= j < n :: blocks[j].height == n - 1 - j
    requires At(index, n) == Some(head)
    ensures At(Reindexed(index, blocks), n) == Some(head) && At(Reindexed(index, blocks), n + 1) == Some(last)
  {
    ReindexedAt(index, blocks, n);
    ReindexedAt(index, blocks, n + 1);
    assert blocks[n] in blocks;
  }

  /** The blocks that such a block enters. */
  lemma TooHighEnters(s: State, b: H256, p: H256)
    requires Sound(s) && s.height > 0 && p == s.headers[s.head].parent && b !in s.headers
    ensures p in s.headers && s.headers[p].height == s.height - 1
    ensures var u := Stored(s, b, Header(p, s.height + 1, true), []);
            && Walkable(u, b) && |BranchBelow(u, b)| == s.height && BranchBelow(u, b)[0] == p
            && forall j | 0 <= j < s.height :: ForkBlocks(u, b)[j].height == s.height - 1 - j
  {
    assert WellPlaced(s.headers, s.numbers.index[0], s.head);
    OneTooHigh(s, s.height, p);
    BranchKept(s, b, Header(p, s.height + 1, true), [], s.height, p);
  }

  /** The state after a block that stands two above the parent of the head. */
  lemma TooHighIsTaken(s: State, b: H256, p: H256) returns (t: State)
    requires Sound(s) && s.height > 0 && p == s.headers[s.head].parent && b !in s.headers
    ensures p in s.headers && p != s.head
    ensures Enabled(s, b, Header(p, s.height + 1, true), []) && t == Inserted(s, b, Header(p, s.height + 1, true), [])
    ensures t.head == b && t.headers == s.headers[b := Header(p, s.height + 1, true)] && HasWindow(t.numbers)
    ensures Read(t.numbers, s.height + 1) == Some(b) && Read(t.numbers, s.height) == Some(s.head)
  {
    var n := s.height;
    TooHighEnters(s, b, p);
    var u := Stored(s, b, Header(p, n + 1, true), []);
    t := Inserted(s, b, Header(p, n + 1, true), []);
    WindowOfBranch(u, b, 0);
    assert n in s.numbers.index && Ancestor(s.headers, s.head, n - n) == Some(s.numbers.index[n]);
    HeadStaysIndexed(s.numbers.index, ForkBlocks(u, b), n, s.head, b);
    BeyondTheWindow(t.numbers, n - 1, n);
    BeyondTheWindow(t.numbers, n - 1, n + 1);
  }

  /** A block on the parent of the head that claims to be two above it. On a chain of two epochs or more
      the checks pass it as a verified block and it becomes the head, but below it the index keeps the
      old head, which is not its parent, and the walk to that height comes back with it. */
  lemma HeightExample(s: State, b: H256, p: H256, epochLength: nat, bufferSize: nat) returns (t: State)
    requires Sound(s) && Rootless(s.headers, s.numbers.index[0])
    requires s.height > 0 && p == s.headers[s.head].parent && b !in s.headers
    requires epochLength > 0 && s.height + 1 >= 2 * epochLength
    requires s.height < bufferSize && s.height + bufferSize < USIZE_LIMIT
    requires forall h <- s.headers :: s.headers[h].verified
    ensures Takes(s, epochLength, bufferSize, b, Header(p, s.height + 1, true), t) && t.head == b
    ensures Ancestor(t.headers, b, 1) == Some(p) != Some(s.head)
    ensures HasWindow(t.numbers) && ForkHash(t.headers, t.numbers, s.height, s.height + 1, b) == Some(s.head)
  {
    t := TooHighIsTaken(s, b, p);
    var header := Header(p, s.height + 1, true);
    assert WellPlaced(s.headers, s.numbers.index[0], s.head);
    AncHeightBounds(epochLength, header.height);
    AncestorCheckIff(s, epochLength, header);
    OneTooHigh(s, s.height, p);
    assert Ancestor(t.headers, b, 1) == Ancestor(t.headers, p, 0);
  }
}
