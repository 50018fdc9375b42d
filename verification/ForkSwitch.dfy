/** Storing a block and moving the head: what becomes of the stored number index, and of the window of
    recent blocks in front of it. */
module ForkSwitch {
  import opened Bytes
  import opened HashDb
  import opened ForkWalk

  // ---------------------------------------------------------------- coherent indexes

  ghost predicate ParentBelow(hs: Headers, index: Index, n: nat)
    requires n in index
  {
    n > 0 ==> n - 1 in index && index[n] in hs && hs[index[n]].parent == index[n - 1]
  }

  /** Neighbouring entries of the number index are parent and child. */
  ghost predicate Coherent(hs: Headers, index: Index)
  {
    forall n {:trigger ParentBelow(hs, index, n)} | n in index :: ParentBelow(hs, index, n)
  }

  /** Along a coherent index, going back is counting down. */
  lemma {:induction false} IndexIsAncestor(hs: Headers, index: Index, n: nat, m: nat)
    requires Coherent(hs, index) && n in index && m <= n
    ensures m in index && Ancestor(hs, index[n], n - m) == Some(index[m])
    decreases n
  {
    if m < n {
      assert ParentBelow(hs, index, n);
      IndexIsAncestor(hs, index, n - 1, m);
    }
  }

  ghost predicate WellPlaced(hs: Headers, genesis: H256, h: H256)
    requires h in hs
  {
    if hs[h].height == 0 then h == genesis else hs[h].parent in hs && hs[hs[h].parent].height == hs[h].height - 1
  }

  /** Every header but the first has a stored parent one below; this is what makes the walks end on
      the chain. The program does not check the heights of the blocks it is given. */
  ghost predicate Linked(hs: Headers, bodies: Bodies, genesis: H256)
  {
    && bodies.Keys == hs.Keys
    && forall h {:trigger WellPlaced(hs, genesis, h)} | h in hs :: WellPlaced(hs, genesis, h)
  }

  /** Above a linked block the walk meets the numbered chain, and its heights count down. */
  lemma {:induction false} LinkedIsKnown(hs: Headers, bodies: Bodies, v: Numbers, genesis: H256, hash: H256)
    requires HasWindow(v) && Agrees(v) && At(v.index, 0) == Some(genesis)
    requires Linked(hs, bodies, genesis) && hash in hs
    ensures Known(hs, bodies, v, hs[hash].height, hash)
    ensures var b, n := Branch(hs, bodies, v, hs[hash].height, hash), hs[hash].height;
            && At(v.index, n - |b|) == Ancestor(hs, hash, |b|)
            && forall j | 0 <= j < |b| :: hs[b[j]].height == n - j
    decreases hs[hash].height
  {
    var n := hs[hash].height;
    assert Read(v, n) == At(v.index, n);
    assert WellPlaced(hs, genesis, hash);
    if At(v.index, n) != Some(hash) {
      LinkedIsKnown(hs, bodies, v, genesis, hs[hash].parent);
      var c := Branch(hs, bodies, v, n - 1, hs[hash].parent);
      assert Branch(hs, bodies, v, n, hash) == [hash] + c;
      assert Ancestor(hs, hash, 1 + |c|) == Ancestor(hs, hs[hash].parent, |c|);
    }
  }

  // ---------------------------------------------------------------- the stored index

  /** The index with the given blocks, each under its height. */
  function Reindexed(index: Index, blocks: seq<BlockInfo>): Index
    decreases |blocks|
  {
    if blocks == [] then index
    else Reindexed(index[blocks[0].height := blocks[0].hash], blocks[1..])
  }

  /** An index entry after the update: the new block's if there is one at that height. */
  lemma {:induction false} ReindexedAt(index: Index, blocks: seq<BlockInfo>, n: nat)
    requires forall i, j | 0 <= i < j < |blocks| :: blocks[i].height != blocks[j].height
    ensures (forall b <- blocks :: b.height != n) ==> At(Reindexed(index, blocks), n) == At(index, n)
    ensures forall b <- blocks :: b.height == n ==> At(Reindexed(index, blocks), n) == Some(b.hash)
    decreases |blocks|
  {
    if blocks != [] {
      ReindexedAt(index[blocks[0].height := blocks[0].hash], blocks[1..], n);
      assert forall b <- blocks[1..] :: b in blocks;
      assert forall b <- blocks :: b == blocks[0] || b in blocks[1..];
    }
  }

  /** The branch below a block, as it is entered together with the block itself. */
  ghost predicate IsBranchOf(hs: Headers, branch: seq<H256>, hash: H256, blocks: seq<BlockInfo>)
    requires hash in hs
  {
    && |blocks| == |branch| + 1 <= hs[hash].height
    && blocks[|branch|].hash == hash && blocks[|branch|].height == hs[hash].height
    && forall j | 0 <= j < |branch| :: blocks[j].hash == branch[j] && blocks[j].height == hs[hash].height - 1 - j
  }

  /** The branch consists of the ancestors of the block, down to one that is on the index. */
  ghost predicate Joins(hs: Headers, index: Index, hash: H256, branch: seq<H256>)
    requires hash in hs
  {
    && |branch| + 1 <= hs[hash].height
    && (forall j | 0 <= j < |branch| :: Ancestor(hs, hs[hash].parent, j) == Some(branch[j]))
    && At(index, hs[hash].height - 1 - |branch|).Some?
    && Ancestor(hs, hs[hash].parent, |branch|) == At(index, hs[hash].height - 1 - |branch|)
  }

  lemma BelowTheFork(hs: Headers, index: Index, hash: H256, branch: seq<H256>, n: nat)
    requires Coherent(hs, index) && hash in hs && Joins(hs, index, hash, branch)
    requires n <= hs[hash].height - 1 - |branch|
    ensures At(index, n).Some? && At(index, n) == Ancestor(hs, hash, hs[hash].height - n)
  {
    var fork := hs[hash].height - 1 - |branch|;
    IndexIsAncestor(hs, index, fork, n);
    AncestorOfAncestor(hs, hs[hash].parent, |branch|, fork - n);
  }

  /** Once a branch is entered, the index holds the ancestors of its newest block. */
  lemma EntryIsAncestor(hs: Headers, index: Index, hash: H256, branch: seq<H256>, blocks: seq<BlockInfo>, n: nat)
    requires Coherent(hs, index) && hash in hs && Joins(hs, index, hash, branch)
    requires IsBranchOf(hs, branch, hash, blocks) && n <= hs[hash].height
    ensures At(Reindexed(index, blocks), n).Some?
    ensures At(Reindexed(index, blocks), n) == Ancestor(hs, hash, hs[hash].height - n)
  {
    ReindexedAt(index, blocks, n);
    if n < hs[hash].height - |branch| {
      BelowTheFork(hs, index, hash, branch, n);
    } else {
      var b := InTheBranch(hs, index, hash, branch, blocks, n);
    }
  }

  lemma InTheBranch(hs: Headers, index: Index, hash: H256, branch: seq<H256>, blocks: seq<BlockInfo>, n: nat)
    returns (b: BlockInfo)
    requires hash in hs && Joins(hs, index, hash, branch) && IsBranchOf(hs, branch, hash, blocks)
    requires hs[hash].height - |branch| <= n <= hs[hash].height
    ensures b in blocks && b.height == n && Ancestor(hs, hash, hs[hash].height - n) == Some(b.hash)
  {
    var h := hs[hash].height;
    if n == h {
      b := blocks[|branch|];
    } else {
      b := blocks[h - 1 - n];
      assert Ancestor(hs, hs[hash].parent, h - 1 - n) == Some(branch[h - 1 - n]);
    }
  }

  /** The index holds, up to height h, the ancestors of a block, and nothing above. */
  ghost predicate IsAncestry(hs: Headers, index: Index, hash: H256, h: nat)
  {
    && (forall n <- index :: n <= h)
    && forall n: nat | n <= h :: n in index && Ancestor(hs, hash, h - n) == Some(index[n])
  }

  lemma AncestryIsCoherent(hs: Headers, index: Index, hash: H256, h: nat)
    requires IsAncestry(hs, index, hash, h)
    ensures Coherent(hs, index)
  {
    forall n | n in index
      ensures ParentBelow(hs, index, n)
    {
      if n > 0 {
        var m: nat := n - 1;
        assert m in index && Ancestor(hs, hash, h - m) == Some(index[m]);
        AncestorOfAncestor(hs, hash, h - n, 1);
        OneBack(hs, index[n], index[m]);
      }
    }
  }

  lemma OneBack(hs: Headers, hash: H256, parent: H256)
    requires Ancestor(hs, hash, 1) == Some(parent)
    ensures hash in hs && hs[hash].parent == parent
  {
    if hash in hs {
      assert Ancestor(hs, hs[hash].parent, 0) == Some(hs[hash].parent);
    }
  }

  /** Above the block there is nothing, if there was nothing. */
  lemma {:induction false} ReindexedBound(index: Index, blocks: seq<BlockInfo>, h: nat)
    requires forall n <- index :: n <= h
    requires forall b <- blocks :: b.height <= h
    ensures forall n <- Reindexed(index, blocks) :: n <= h
    decreases |blocks|
  {
    if blocks != [] {
      assert forall b <- blocks[1..] :: b in blocks;
      ReindexedBound(index[blocks[0].height := blocks[0].hash], blocks[1..], h);
    }
  }

  /** Entering the branch of a block makes the index the ancestry of that block. */
  lemma NewIndex(hs: Headers, index: Index, hash: H256, branch: seq<H256>, blocks: seq<BlockInfo>)
    requires Coherent(hs, index) && hash in hs && Joins(hs, index, hash, branch)
    requires IsBranchOf(hs, branch, hash, blocks) && forall n <- index :: n <= hs[hash].height
    ensures IsAncestry(hs, Reindexed(index, blocks), hash, hs[hash].height)
  {
    var index', h := Reindexed(index, blocks), hs[hash].height;
    forall n: nat | n <= h
      ensures n in index' && Ancestor(hs, hash, h - n) == Some(index'[n])
    {
      EntryIsAncestor(hs, index, hash, branch, blocks, n);
    }
    ReindexedBound(index, blocks, h);
  }

  /** What the walk from the parent of a stored block finds. */
  lemma BranchJoins(hs: Headers, bodies: Bodies, v: Numbers, hash: H256) returns (branch: seq<H256>)
    requires HasWindow(v) && Agrees(v)
    requires 0 in v.index && Linked(hs, bodies, v.index[0]) && hash in hs && hs[hash].height > 0
    ensures Known(hs, bodies, v, hs[hash].height - 1, hs[hash].parent)
    ensures branch == Branch(hs, bodies, v, hs[hash].height - 1, hs[hash].parent)
    ensures Joins(hs, v.index, hash, branch)
    ensures forall j | 0 <= j < |branch| :: hs[branch[j]].height == hs[hash].height - 1 - j
  {
    var h, parent := hs[hash].height, hs[hash].parent;
    assert WellPlaced(hs, v.index[0], hash);
    LinkedIsKnown(hs, bodies, v, v.index[0], parent);
    BranchMeaning(hs, bodies, v, h - 1, parent);
    branch := Branch(hs, bodies, v, h - 1, parent);
  }

  /** Another header changes no ancestry. */
  lemma {:induction false} AncestorKept(hs: Headers, hs': Headers, hash: H256, n: nat)
    requires Ancestor(hs, hash, n).Some? && forall h <- hs :: h in hs' && hs'[h] == hs[h]
    ensures Ancestor(hs', hash, n) == Ancestor(hs, hash, n)
    decreases n
  {
    if n > 0 {
      AncestorKept(hs, hs', hs[hash].parent, n - 1);
    }
  }

  lemma AncestryKept(hs: Headers, hs': Headers, index: Index, head: H256, h: nat)
    requires IsAncestry(hs, index, head, h) && forall b <- hs :: b in hs' && hs'[b] == hs[b]
    ensures IsAncestry(hs', index, head, h)
  {
    forall n: nat | n <= h
      ensures n in index && Ancestor(hs', head, h - n) == Some(index[n])
    {
      assert n in index && Ancestor(hs, head, h - n) == Some(index[n]);
      AncestorKept(hs, hs', head, h - n);
    }
  }

  lemma StaysLinked(hs: Headers, bodies: Bodies, genesis: H256, hash: H256, header: Header, body: seq<H256>)
    requires Linked(hs, bodies, genesis) && hash !in hs && header.height > 0
    requires header.parent in hs && hs[header.parent].height == header.height - 1
    ensures Linked(hs[hash := header], bodies[hash := body], genesis)
  {
    var hs', bodies' := hs[hash := header], bodies[hash := body];
    assert hs'.Keys == hs.Keys + {hash} == bodies'.Keys;
    forall h | h in hs'
      ensures WellPlaced(hs', genesis, h)
    {
      if h != hash {
        assert WellPlaced(hs, genesis, h);
      }
    }
  }

  /** All stored blocks descend from the first. */
  lemma {:induction false} GenesisStays(hs: Headers, bodies: Bodies, genesis: H256, hash: H256, h: nat)
    requires Linked(hs, bodies, genesis) && hash in hs && hs[hash].height == h
    ensures Ancestor(hs, hash, h) == Some(genesis)
    decreases h
  {
    assert WellPlaced(hs, genesis, hash);
    if h > 0 {
      GenesisStays(hs, bodies, genesis, hs[hash].parent, h - 1);
    }
  }

  /** All that is stored is linked, and the index is exactly the ancestry of the head. */
  ghost predicate Follows(hs: Headers, bodies: Bodies, index: Index, head: H256, h: nat)
  {
    && 0 in index && Linked(hs, bodies, index[0])
    && head in hs && hs[head].height == h
    && IsAncestry(hs, index, head, h)
  }

  lemma HeadIsMoved(hs: Headers, bodies: Bodies, index: Index, head: H256, h: nat, index': Index, hash: H256)
    requires Follows(hs, bodies, index, head, h)
    requires hash in hs && IsAncestry(hs, index', hash, hs[hash].height)
    ensures Follows(hs, bodies, index', hash, hs[hash].height)
  {
    GenesisStays(hs, bodies, index[0], hash, hs[hash].height);
    var n: nat := 0;
    assert n in index' && Ancestor(hs, hash, hs[hash].height - n) == Some(index'[n]);
  }

  // ---------------------------------------------------------------- inserting a block

  /** The window holds so many blocks more than the buffer. */
  const WINDOW_MARGIN := 101

  datatype State = State(headers: Headers, bodies: Bodies, numbers: Numbers, height: nat, head: H256)

  function InfoOf(hs: Headers, bodies: Bodies, b: H256): BlockInfo
    requires b in hs && b in bodies
  {
    BlockInfo(b, hs[b].height, bodies[b])
  }

  function Infos(hs: Headers, bodies: Bodies, blocks: seq<H256>): (r: seq<BlockInfo>)
    requires forall b <- blocks :: b in hs && b in bodies
    ensures |r| == |blocks|
  {
    seq(|blocks|, j requires 0 <= j < |blocks| => InfoOf(hs, bodies, blocks[j]))
  }

  /** The walk from the parent of the block panics on no missing header. */
  predicate Walkable(s: State, hash: H256)
  {
    && HasWindow(s.numbers) && hash in s.headers && hash in s.bodies
    && var header := s.headers[hash];
       header.height > 0 ==> Known(s.headers, s.bodies, s.numbers, header.height - 1, header.parent)
  }

  function BranchBelow(s: State, hash: H256): (r: seq<H256>)
    requires Walkable(s, hash)
    ensures forall b <- r :: b in s.headers && b in s.bodies
  {
    var header := s.headers[hash];
    if header.height > 0 then Branch(s.headers, s.bodies, s.numbers, header.height - 1, header.parent) else []
  }

  /** The blocks entered: the branch, newest first, and the block itself after them. */
  function ForkBlocks(s: State, hash: H256): (r: seq<BlockInfo>)
    requires Walkable(s, hash)
    ensures |r| == |BranchBelow(s, hash)| + 1
  {
    Infos(s.headers, s.bodies, BranchBelow(s, hash)) + [InfoOf(s.headers, s.bodies, hash)]
  }

  /** The window moved on by one block; the oldest entry waits at the back to be replaced. */
  function Rotated(window: seq<BlockInfo>): (r: seq<BlockInfo>)
    requires window != []
    ensures |r| == |window|
  {
    window[1..] + [window[0]]
  }

  /** The window filled with the blocks from the back to the front, as far as it reaches. */
  function Refilled(window: seq<BlockInfo>, blocks: seq<BlockInfo>): (r: seq<BlockInfo>)
    ensures |r| == |window|
  {
    seq(|window|, p requires 0 <= p < |window| =>
      if |window| - 1 - p < |blocks| then blocks[|window| - 1 - p] else window[p])
  }

  function Adjusted(s: State, hash: H256): (v: Numbers)
    requires Walkable(s, hash)
    ensures |v.window| == |s.numbers.window|
  {
    var blocks := ForkBlocks(s, hash);
    var window := s.numbers.window;
    Numbers(Refilled(if s.height < s.headers[hash].height then Rotated(window) else window, blocks),
            Reindexed(s.numbers.index, blocks))
  }

  function Stored(s: State, hash: H256, header: Header, body: seq<H256>): State
  {
    s.(headers := s.headers[hash := header], bodies := s.bodies[hash := body])
  }

  /** A block becomes the head if it is one higher than the head or as high: the random choice
      between equals is a choice from one. */
  predicate Adopts(s: State, header: Header)
  {
    header.height == s.height + 1 || header.height == s.height
  }

  function Inserted(s: State, hash: H256, header: Header, body: seq<H256>): State
    requires Adopts(s, header) ==> Walkable(Stored(s, hash, header, body), hash)
  {
    var t := Stored(s, hash, header, body);
    if Adopts(s, header) then t.(numbers := Adjusted(t, hash), height := header.height, head := hash) else t
  }

  /** The chain as it starts: a window full of the first block. */
  function Start(genesis: H256, header: Header, body: seq<H256>, total: nat): State
    requires total > 0
  {
    State(map[genesis := header], map[genesis := body],
          Numbers(seq(total - 1, _ => BlockInfo(genesis, 0, [])) + [BlockInfo(genesis, 0, body)], map[0 := genesis]),
          0, genesis)
  }

  // ---------------------------------------------------------------- window and index in step

  /** The window's entry i places from the back is the index's block i below the head. */
  ghost predicate InStep(v: Numbers, h: nat, i: nat)
    requires i < |v.window| && i <= h
  {
    var b := v.window[|v.window| - 1 - i];
    b.height == h - i && At(v.index, h - i) == Some(b.hash)
  }

  ghost predicate Aligned(v: Numbers, h: nat)
  {
    forall i: nat | i < |v.window| && i <= h :: InStep(v, h, i)
  }

  /** The index is exactly the ancestry of the head, and the window is in step with it. */
  ghost predicate Tracks(s: State)
  {
    && HasWindow(s.numbers) && s.head in s.headers && s.headers[s.head].height == s.height
    && IsAncestry(s.headers, s.numbers.index, s.head, s.height)
    && Aligned(s.numbers, s.height)
  }

  /** And all that is stored is linked, whichever branch it is on. */
  ghost predicate Sound(s: State)
  {
    && HasWindow(s.numbers)
    && Follows(s.headers, s.bodies, s.numbers.index, s.head, s.height)
    && Aligned(s.numbers, s.height)
  }

  lemma AlignedAgrees(v: Numbers, h: nat)
    requires HasWindow(v) && Aligned(v, h)
    ensures Agrees(v)
  {
    var newest: nat := 0;
    assert InStep(v, h, newest);
    forall n: nat
      ensures Read(v, n) == At(v.index, n)
    {
      if n <= h && h - n < |v.window| {
        var i: nat := h - n;
        assert InStep(v, h, i);
      }
    }
  }

  /** Then numbers give the head's ancestors, so every walk from every block is right. */
  lemma TrackingWalks(s: State)
    requires Tracks(s)
    ensures Agrees(s.numbers) && WalksAreRight(s.headers, s.numbers)
    ensures forall n: nat | n <= s.height :: Read(s.numbers, n) == Ancestor(s.headers, s.head, s.height - n)
    ensures Coherent(s.headers, s.numbers.index)
  {
    var v, hs := s.numbers, s.headers;
    AlignedAgrees(v, s.height);
    AncestryIsCoherent(hs, v.index, s.head, s.height);
    forall n: nat, m: nat | m < n && Read(v, n).Some?
      ensures Read(v, m) == Ancestor(hs, Read(v, n).value, n - m)
    {
      IndexIsAncestor(hs, v.index, n, m);
    }
    WalksNeedNumbers(hs, v);
    forall n: nat | n <= s.height
      ensures Read(v, n) == Ancestor(hs, s.head, s.height - n)
    {
      assert n in v.index;
    }
  }

  lemma StartIsSound(genesis: H256, header: Header, body: seq<H256>, total: nat)
    requires total > 0 && header.height == 0
    ensures Sound(Start(genesis, header, body, total))
  {
    var s := Start(genesis, header, body, total);
    assert WellPlaced(s.headers, genesis, genesis);
    assert Ancestor(s.headers, genesis, 0) == Some(genesis);
    forall i: nat | i < |s.numbers.window| && i <= 0
      ensures InStep(s.numbers, 0, i)
    {
    }
  }

  // ---------------------------------------------------------------- one insertion

  /** What the checks before leave: a new verified block on a stored parent, not of height zero. */
  ghost predicate Enabled(s: State, hash: H256, header: Header, body: seq<H256>)
  {
    && hash !in s.headers && header.parent in s.headers && header.height > 0 && header.verified
    && (Adopts(s, header) ==> Walkable(Stored(s, hash, header, body), hash))
  }

  /** The block stands one above its parent. */
  ghost predicate Above(s: State, header: Header)
    requires header.parent in s.headers
  {
    header.height == s.headers[header.parent].height + 1
  }

  /** The parent is what the index has one below. */
  ghost predicate OnTheChain(s: State, header: Header)
    requires header.height > 0
  {
    At(s.numbers.index, header.height - 1) == Some(header.parent)
  }

  lemma StoredFollows(s: State, hash: H256, header: Header, body: seq<H256>)
    requires Sound(s) && Enabled(s, hash, header, body) && Above(s, header)
    ensures Sound(Stored(s, hash, header, body))
  {
    StaysLinked(s.headers, s.bodies, s.numbers.index[0], hash, header, body);
    AncestryKept(s.headers, s.headers[hash := header], s.numbers.index, s.head, s.height);
  }

  /** A linked block can always be walked from. */
  lemma LinkedIsWalkable(s: State, hash: H256)
    requires Sound(s) && hash in s.headers
    ensures Walkable(s, hash)
  {
    AlignedAgrees(s.numbers, s.height);
    if s.headers[hash].height > 0 {
      var branch := BranchJoins(s.headers, s.bodies, s.numbers, hash);
    }
  }

  /** From the back the window has the branch, newest first, and the new head only behind it. */
  lemma WindowOfBranch(s: State, hash: H256, i: nat)
    requires Walkable(s, hash) && i <= |BranchBelow(s, hash)| && i < |s.numbers.window|
    ensures var w, b := Adjusted(s, hash).window, BranchBelow(s, hash);
            w[|w| - 1 - i] == InfoOf(s.headers, s.bodies, if i < |b| then b[i] else hash)
  {
    var w, b := Adjusted(s, hash).window, BranchBelow(s, hash);
    assert w[|w| - 1 - i] == ForkBlocks(s, hash)[i];
  }

  lemma HeightsOfBranch(s: State, hash: H256)
    requires Sound(s) && hash in s.headers && s.headers[hash].height > 0
    ensures Walkable(s, hash)
    ensures var h, b := s.headers[hash].height, BranchBelow(s, hash);
            && |b| < h && Joins(s.headers, s.numbers.index, hash, b)
            && (forall j | 0 <= j < |b| :: s.headers[b[j]].height == h - 1 - j)
            && (b == [] <==> At(s.numbers.index, h - 1) == Some(s.headers[hash].parent))
  {
    AlignedAgrees(s.numbers, s.height);
    var h, parent := s.headers[hash].height, s.headers[hash].parent;
    var branch := BranchJoins(s.headers, s.bodies, s.numbers, hash);
    assert Read(s.numbers, h - 1) == At(s.numbers.index, h - 1);
    assert Ancestor(s.headers, parent, 0) == Some(parent);
  }

  /** Moving the head to a linked block, whichever branch it is on, leaves the stored index exactly
      its ancestry. */
  lemma IndexFollowsHead(s: State, hash: H256)
    requires Sound(s) && hash in s.headers && s.headers[hash].height > 0 && s.headers[hash].height >= s.height
    ensures Walkable(s, hash)
    ensures Follows(s.headers, s.bodies, Adjusted(s, hash).index, hash, s.headers[hash].height)
  {
    HeightsOfBranch(s, hash);
    EnteredBranch(s.headers, s.bodies, BranchBelow(s, hash), hash);
    AncestryIsCoherent(s.headers, s.numbers.index, s.head, s.height);
    NewIndex(s.headers, s.numbers.index, hash, BranchBelow(s, hash), ForkBlocks(s, hash));
    HeadIsMoved(s.headers, s.bodies, s.numbers.index, s.head, s.height, Adjusted(s, hash).index, hash);
  }

  lemma EnteredBranch(hs: Headers, bodies: Bodies, branch: seq<H256>, hash: H256)
    requires hash in hs && hash in bodies && forall b <- branch :: b in hs && b in bodies
    requires |branch| < hs[hash].height
    requires forall j | 0 <= j < |branch| :: hs[branch[j]].height == hs[hash].height - 1 - j
    ensures IsBranchOf(hs, branch, hash, Infos(hs, bodies, branch) + [InfoOf(hs, bodies, hash)])
  {
  }

  lemma ExtendedNumbers(s: State, hash: H256)
    requires Walkable(s, hash) && BranchBelow(s, hash) == []
    ensures Adjusted(s, hash) == Extended(s.numbers, s.height, InfoOf(s.headers, s.bodies, hash))
  {
    var blocks := ForkBlocks(s, hash);
    assert blocks == [InfoOf(s.headers, s.bodies, hash)] && blocks[1..] == [];
    assert Adjusted(s, hash).index == Reindexed(s.numbers.index[s.headers[hash].height := hash], blocks[1..]);
  }

  /** A window moved on by its new newest block stays in step. */
  lemma PushedAligned(v: Numbers, info: BlockInfo)
    requires v.window != [] && info.height > 0 && Aligned(v, info.height - 1)
    ensures Aligned(Numbers(v.window[1..] + [info], v.index[info.height := info.hash]), info.height)
  {
    var v', h := Numbers(v.window[1..] + [info], v.index[info.height := info.hash]), info.height;
    forall i: nat | i < |v'.window| && i <= h
      ensures InStep(v', h, i)
    {
      if i > 0 {
        var before: nat := i - 1;
        assert InStep(v, h - 1, before);
      }
    }
  }

  /** So does one whose newest block is replaced. */
  lemma ReplacedAligned(v: Numbers, info: BlockInfo)
    requires v.window != [] && Aligned(v, info.height)
    ensures Aligned(Numbers(v.window[|v.window| - 1 := info], v.index[info.height := info.hash]), info.height)
  {
    var v', h := Numbers(v.window[|v.window| - 1 := info], v.index[info.height := info.hash]), info.height;
    forall i: nat | i < |v'.window| && i <= h
      ensures InStep(v', h, i)
    {
      assert InStep(v, h, i);
    }
  }

  function Extended(v: Numbers, h: nat, info: BlockInfo): Numbers
    requires HasWindow(v)
  {
    var w := v.window;
    Numbers(if h < info.height then w[1..] + [info] else w[|w| - 1 := info], v.index[info.height := info.hash])
  }

  /** Without a branch the window moves on in step. */
  lemma ExtensionStaysAligned(v: Numbers, h: nat, info: BlockInfo)
    requires HasWindow(v) && Aligned(v, h) && info.height > 0 && (info.height == h || info.height == h + 1)
    ensures Aligned(Extended(v, h, info), info.height)
  {
    if info.height == h {
      ReplacedAligned(v, info);
    } else {
      PushedAligned(v, info);
    }
  }

  /** A move of the head keeps the window in step exactly when the parent of the new head is on the
      chain already. */
  lemma AlignedAfterMove(s: State, hash: H256)
    requires Sound(s) && hash in s.headers
    requires var h := s.headers[hash].height; h > 0 && (h == s.height || h == s.height + 1)
    ensures Walkable(s, hash)
    ensures Aligned(Adjusted(s, hash), s.headers[hash].height) <==>
            At(s.numbers.index, s.headers[hash].height - 1) == Some(s.headers[hash].parent)
  {
    HeightsOfBranch(s, hash);
    WindowOfBranch(s, hash, 0);
    if BranchBelow(s, hash) == [] {
      ExtendedNumbers(s, hash);
      ExtensionStaysAligned(s.numbers, s.height, InfoOf(s.headers, s.bodies, hash));
    } else {
      var newest: nat := 0;
      assert !InStep(Adjusted(s, hash), s.headers[hash].height, newest);
    }
  }

  /** The last block entered is the one found under its height. */
  lemma {:induction false} ReindexedLast(index: Index, blocks: seq<BlockInfo>, info: BlockInfo)
    ensures At(Reindexed(index, blocks + [info]), info.height) == Some(info.hash)
    decreases |blocks|
  {
    var all := blocks + [info];
    if blocks == [] {
      assert all[0] == info && all[1..] == [];
    } else {
      assert all[1..] == blocks[1..] + [info];
      ReindexedLast(index[blocks[0].height := blocks[0].hash], blocks[1..], info);
    }
  }

  /** The head moved to a stored block. */
  function Moved(s: State, hash: H256): State
    requires Walkable(s, hash)
  {
    s.(numbers := Adjusted(s, hash), height := s.headers[hash].height, head := hash)
  }

  lemma StoredTracks(s: State, hash: H256, header: Header, body: seq<H256>)
    requires Tracks(s) && hash !in s.headers
    ensures Tracks(Stored(s, hash, header, body))
  {
    AncestryKept(s.headers, s.headers[hash := header], s.numbers.index, s.head, s.height);
  }

  /** An index one of whose blocks is followed by a new one. */
  lemma ExtendedAncestry(hs: Headers, index: Index, head: H256, height: nat, hash: H256)
    requires IsAncestry(hs, index, head, height) && hash in hs
    requires var h := hs[hash].height;
             h > 0 && (h == height || h == height + 1) && At(index, h - 1) == Some(hs[hash].parent)
    ensures IsAncestry(hs, index[hs[hash].height := hash], hash, hs[hash].height)
  {
    var h, parent := hs[hash].height, hs[hash].parent;
    var below: nat := h - 1;
    assert below in index && Ancestor(hs, head, height - below) == Some(index[below]);
    var index' := index[h := hash];
    forall n: nat | n <= h
      ensures n in index' && Ancestor(hs, hash, h - n) == Some(index'[n])
    {
      if n < h {
        assert n in index && Ancestor(hs, head, height - n) == Some(index[n]);
        AncestorOfAncestor(hs, head, height - below, below - n);
        assert Ancestor(hs, hash, h - n) == Ancestor(hs, parent, below - n);
      }
    }
  }

  lemma ExtensionTracks(s: State, hash: H256)
    requires Tracks(s) && hash in s.headers && hash in s.bodies
    requires var h := s.headers[hash].height;
             h > 0 && (h == s.height || h == s.height + 1)
             && At(s.numbers.index, h - 1) == Some(s.headers[hash].parent)
    ensures Walkable(s, hash) && Tracks(Moved(s, hash))
  {
    var h := s.headers[hash].height;
    AlignedAgrees(s.numbers, s.height);
    assert Read(s.numbers, h - 1) == At(s.numbers.index, h - 1);
    assert BranchBelow(s, hash) == [];
    ExtendedNumbers(s, hash);
    ExtensionStaysAligned(s.numbers, s.height, InfoOf(s.headers, s.bodies, hash));
    ExtendedAncestry(s.headers, s.numbers.index, s.head, s.height, hash);
  }

  lemma SwitchLosesTrack(s: State, hash: H256)
    requires Tracks(s) && Walkable(s, hash) && s.headers[hash].parent != hash
    requires var h := s.headers[hash].height;
             h > 0 && At(s.numbers.index, h - 1) != Some(s.headers[hash].parent)
    ensures !Tracks(Moved(s, hash))
  {
    var h, parent, v := s.headers[hash].height, s.headers[hash].parent, Adjusted(s, hash);
    AlignedAgrees(s.numbers, s.height);
    assert Read(s.numbers, h - 1) == At(s.numbers.index, h - 1);
    ReindexedLast(s.numbers.index, Infos(s.headers, s.bodies, BranchBelow(s, hash)), InfoOf(s.headers, s.bodies, hash));
    if h == 1 {
      ExtendedNumbers(s, hash);
      var first: nat := 0;
      assert Ancestor(s.headers, hash, h - first) == Ancestor(s.headers, parent, 0) == Some(parent);
      assert !(first in v.index && Ancestor(s.headers, hash, h - first) == Some(v.index[first]));
    } else {
      WindowOfBranch(s, hash, 0);
      assert BranchBelow(s, hash)[0] == parent;
      var newest: nat := 0;
      assert !InStep(v, h, newest);
    }
  }

  /** After an insertion the index is the ancestry of the head and the window in step with it exactly
      when the block does not become the head, or its parent is on the index. */
  lemma InsertionTracksIff(s: State, hash: H256, header: Header, body: seq<H256>)
    requires Tracks(s) && Enabled(s, hash, header, body)
    ensures Tracks(Inserted(s, hash, header, body)) <==> (Adopts(s, header) ==> OnTheChain(s, header))
  {
    StoredTracks(s, hash, header, body);
    if Adopts(s, header) {
      var t := Stored(s, hash, header, body);
      if OnTheChain(s, header) {
        ExtensionTracks(t, hash);
      } else {
        SwitchLosesTrack(t, hash);
      }
    }
  }

  /** If the block stands one above its parent as well, all stays linked. */
  lemma InsertionIsSound(s: State, hash: H256, header: Header, body: seq<H256>)
    requires Sound(s) && Enabled(s, hash, header, body) && Above(s, header)
    requires Adopts(s, header) ==> OnTheChain(s, header)
    ensures Sound(Inserted(s, hash, header, body))
  {
    StoredFollows(s, hash, header, body);
    InsertionTracksIff(s, hash, header, body);
    if Adopts(s, header) {
      IndexFollowsHead(Stored(s, hash, header, body), hash);
    }
  }

  lemma HeadIsEntered(s: State, hash: H256)
    requires Walkable(s, hash)
    ensures At(Adjusted(s, hash).index, s.headers[hash].height) == Some(hash)
  {
    ReindexedLast(s.numbers.index, Infos(s.headers, s.bodies, BranchBelow(s, hash)), InfoOf(s.headers, s.bodies, hash));
  }

  // ---------------------------------------------------------------- what the window carries

  /** The entry has the transactions of its block; what was made up to fill the window has height zero. */
  ghost predicate EntryCarries(bodies: Bodies, e: BlockInfo)
  {
    e.height > 0 ==> e.hash in bodies && e.transactions == bodies[e.hash]
  }

  ghost predicate Carries(s: State)
  {
    forall e <- s.numbers.window :: EntryCarries(s.bodies, e)
  }

  /** However the head moves, every entry of the window carries the transactions of its own block. */
  lemma MoveCarries(s: State, hash: H256)
    requires Walkable(s, hash) && Carries(s)
    ensures Carries(Moved(s, hash))
  {
    var w, blocks := Adjusted(s, hash).window, ForkBlocks(s, hash);
    BlocksCarry(s, hash);
    forall e | e in w
      ensures EntryCarries(s.bodies, e)
    {
      var p :| 0 <= p < |w| && w[p] == e;
      assert |w| - 1 - p < |blocks| || e in s.numbers.window;
    }
  }

  lemma BlocksCarry(s: State, hash: H256)
    requires Walkable(s, hash)
    ensures forall j | 0 <= j < |ForkBlocks(s, hash)| :: EntryCarries(s.bodies, ForkBlocks(s, hash)[j])
  {
  }

  lemma InsertionCarries(s: State, hash: H256, header: Header, body: seq<H256>)
    requires Carries(s) && hash !in s.bodies
    requires Adopts(s, header) ==> Walkable(Stored(s, hash, header, body), hash)
    ensures Carries(Inserted(s, hash, header, body))
  {
    var t := Stored(s, hash, header, body);
    forall e | e in t.numbers.window
      ensures EntryCarries(t.bodies, e)
    {
      assert EntryCarries(s.bodies, e);
    }
    if Adopts(s, header) {
      MoveCarries(t, hash);
    }
  }

  // ---------------------------------------------------------------- what a switch breaks

  lemma {:induction false} AncestorHeight(hs: Headers, bodies: Bodies, genesis: H256, hash: H256, n: nat)
    requires Linked(hs, bodies, genesis) && hash in hs && n <= hs[hash].height
    ensures var r := Ancestor(hs, hash, n); r.Some? && r.value in hs && hs[r.value].height == hs[hash].height - n
    decreases n
  {
    if n > 0 {
      assert WellPlaced(hs, genesis, hash);
      AncestorHeight(hs, bodies, genesis, hs[hash].parent, n - 1);
    }
  }

  /** What is read below the new head after a switch: the branch, and then the head itself. */
  lemma BranchIsRead(s: State, hash: H256, i: nat)
    requires Walkable(s, hash) && i < |s.numbers.window|
    requires var h, b := s.headers[hash].height, BranchBelow(s, hash);
             i <= |b| < h && b != [] && s.headers[b[0]].height == h - 1
    ensures var h, b := s.headers[hash].height, BranchBelow(s, hash);
            && Read(Adjusted(s, hash), h - 1 - i) == Some(if i < |b| then b[i] else hash)
            && InWindow(Adjusted(s, hash).window, h).None?
  {
    WindowOfBranch(s, hash, 0);
    WindowOfBranch(s, hash, i);
  }

  /** The new head itself is found under its height, be it in the index. */
  lemma HeadIsRead(s: State, hash: H256)
    requires Sound(s) && hash in s.headers
    requires var h := s.headers[hash].height; h > 0 && (h == s.height || h == s.height + 1)
    ensures Walkable(s, hash) && Read(Adjusted(s, hash), s.headers[hash].height) == Some(hash)
  {
    HeightsOfBranch(s, hash);
    WindowOfBranch(s, hash, 0);
    IndexFollowsHead(s, hash);
    var n: nat := s.headers[hash].height;
    assert n in Adjusted(s, hash).index;
  }

  /** Just below the branch the window has the new head. */
  lemma ForkIsMisread(s: State, hash: H256)
    requires Sound(s) && hash in s.headers
    requires var h := s.headers[hash].height; h > 0 && (h == s.height || h == s.height + 1)
    requires Walkable(s, hash) && 0 < |BranchBelow(s, hash)| < |s.numbers.window|
    ensures var h, k := s.headers[hash].height, |BranchBelow(s, hash)|;
            k < h && Read(Adjusted(s, hash), h - 1 - k) == Some(hash) != Ancestor(s.headers, hash, 1 + k)
  {
    HeightsOfBranch(s, hash);
    BranchIsRead(s, hash, |BranchBelow(s, hash)|);
    AncestorHeight(s.headers, s.bodies, s.numbers.index[0], hash, 1 + |BranchBelow(s, hash)|);
  }

  /** In the index a branch block stands where it belongs. */
  lemma BranchIsIndexed(s: State, hash: H256, i: nat)
    requires Sound(s) && hash in s.headers
    requires var h := s.headers[hash].height; h > 0 && (h == s.height || h == s.height + 1)
    requires Walkable(s, hash) && i < |BranchBelow(s, hash)| < s.headers[hash].height
    ensures At(Adjusted(s, hash).index, s.headers[hash].height - 1 - i) == Some(BranchBelow(s, hash)[i])
  {
    HeightsOfBranch(s, hash);
    IndexFollowsHead(s, hash);
    var n: nat := s.headers[hash].height - 1 - i;
    assert n in Adjusted(s, hash).index;
    assert Ancestor(s.headers, hash, i + 1) == Ancestor(s.headers, s.headers[hash].parent, i);
  }

  /** Where the window of a switch does not reach, the index is read. */
  lemma BeyondTheWindow(v: Numbers, best: nat, n: nat)
    requires HasWindow(v) && v.window[|v.window| - 1].height == best
    requires n > best || best - n >= |v.window|
    ensures Read(v, n) == At(v.index, n)
  {
  }

  lemma LongBranchReads(s: State, hash: H256, n: nat)
    requires Walkable(s, hash)
    requires var h, b := s.headers[hash].height, BranchBelow(s, hash);
             && |s.numbers.window| <= |b| < h && s.headers[b[0]].height == h - 1
             && (n < h && h - 1 - n < |b| ==> At(Adjusted(s, hash).index, n) == Some(b[h - 1 - n]))
    ensures Read(Adjusted(s, hash), n) == At(Adjusted(s, hash).index, n)
  {
    var best, v := s.headers[hash].height - 1, Adjusted(s, hash);
    WindowOfBranch(s, hash, 0);
    if n > best || best - n >= |v.window| {
      BeyondTheWindow(v, best, n);
    } else {
      BranchIsRead(s, hash, best - n);
    }
  }

  /** A branch that fills the window is read back from it. */
  lemma LongBranchAgrees(s: State, hash: H256, n: nat)
    requires Sound(s) && hash in s.headers
    requires var h := s.headers[hash].height; h > 0 && (h == s.height || h == s.height + 1)
    requires Walkable(s, hash) && |BranchBelow(s, hash)| >= |s.numbers.window|
    ensures Read(Adjusted(s, hash), n) == At(Adjusted(s, hash).index, n)
  {
    HeightsOfBranch(s, hash);
    var h := s.headers[hash].height;
    if n < h && h - 1 - n < |BranchBelow(s, hash)| {
      BranchIsIndexed(s, hash, h - 1 - n);
    }
    LongBranchReads(s, hash, n);
  }

  /** After the head has moved, numbers are read as the index has them exactly when the parent was on
      the chain, or the branch is as long as the window. */
  lemma ReadsAfterMove(s: State, hash: H256)
    requires Sound(s) && hash in s.headers
    requires var h := s.headers[hash].height; h > 0 && (h == s.height || h == s.height + 1)
    ensures Walkable(s, hash)
    ensures Agrees(Adjusted(s, hash)) <==>
            At(s.numbers.index, s.headers[hash].height - 1) == Some(s.headers[hash].parent) ||
            |BranchBelow(s, hash)| >= |s.numbers.window|
  {
    HeightsOfBranch(s, hash);
    var h, k, v := s.headers[hash].height, |BranchBelow(s, hash)|, Adjusted(s, hash);
    if k == 0 {
      AlignedAfterMove(s, hash);
      AlignedAgrees(v, h);
    } else if k >= |v.window| {
      forall n: nat
        ensures Read(v, n) == At(v.index, n)
      {
        LongBranchAgrees(s, hash, n);
      }
    } else {
      ForkIsMisread(s, hash);
      IndexFollowsHead(s, hash);
      var fork: nat := h - 1 - k;
      assert Ancestor(s.headers, hash, h - fork) == Some(v.index[fork]);
      assert Read(v, fork) != At(v.index, fork);
    }
  }

  /** After a switch the walk from the new head down to the fork takes the shortcut at once and comes
      back with the new head itself. */
  lemma SwitchMisleadsWalk(s: State, hash: H256)
    requires Sound(s) && hash in s.headers
    requires var h := s.headers[hash].height; h > 0 && (h == s.height || h == s.height + 1)
    ensures Walkable(s, hash)
    ensures var h, k := s.headers[hash].height, |BranchBelow(s, hash)|;
            0 < k < |s.numbers.window| ==>
              && k < h && ForkHash(s.headers, Adjusted(s, hash), h - 1 - k, h, hash) == Some(hash)
              && Ancestor(s.headers, hash, 1 + k) != Some(hash)
  {
    HeadIsRead(s, hash);
    if 0 < |BranchBelow(s, hash)| < |s.numbers.window| {
      ForkIsMisread(s, hash);
    }
  }

  // ---------------------------------------------------------------- verified blocks

  /** transactions_diff succeeds: the branch is short and verified. */
  ghost predicate Verifiable(s: State, bufferSize: nat, height: nat, hash: H256)
    requires HasWindow(s.numbers) && Known(s.headers, s.bodies, s.numbers, height, hash)
  {
    var b := Branch(s.headers, s.bodies, s.numbers, height, hash);
    (height + bufferSize) % USIZE_LIMIT >= s.height && |b| < bufferSize && AllVerified(s.headers, b)
  }

  lemma {:induction false} BranchKept(s: State, hash: H256, header: Header, body: seq<H256>, n: nat, b: H256)
    requires HasWindow(s.numbers) && Known(s.headers, s.bodies, s.numbers, n, b) && hash !in s.headers
    ensures var t := Stored(s, hash, header, body);
            && Known(t.headers, t.bodies, t.numbers, n, b)
            && Branch(t.headers, t.bodies, t.numbers, n, b) == Branch(s.headers, s.bodies, s.numbers, n, b)
    decreases n
  {
    if Read(s.numbers, n) != Some(b) && n > 0 {
      BranchKept(s, hash, header, body, n - 1, s.headers[b].parent);
    }
  }

  lemma VerifiedIsShort(s: State, hash: H256, header: Header, body: seq<H256>, bufferSize: nat)
    requires Sound(s) && Enabled(s, hash, header, body)
    requires Known(s.headers, s.bodies, s.numbers, header.height - 1, header.parent)
    requires Verifiable(s, bufferSize, header.height - 1, header.parent)
    ensures var t := Stored(s, hash, header, body);
            Walkable(t, hash) && |BranchBelow(t, hash)| < bufferSize
  {
    BranchKept(s, hash, header, body, header.height - 1, header.parent);
  }

  /** A block counts as verified only if its branch is shorter than the buffer, and so than the
      window; then the parent being on the chain is the whole condition. */
  lemma VerifiedInsertionAgreesIff(s: State, hash: H256, header: Header, body: seq<H256>, bufferSize: nat)
    requires Sound(s) && Enabled(s, hash, header, body) && Above(s, header) && Adopts(s, header)
    requires |s.numbers.window| == WINDOW_MARGIN + bufferSize
    requires Known(s.headers, s.bodies, s.numbers, header.height - 1, header.parent)
    requires Verifiable(s, bufferSize, header.height - 1, header.parent)
    ensures Agrees(Inserted(s, hash, header, body).numbers) <==> OnTheChain(s, header)
  {
    StoredFollows(s, hash, header, body);
    VerifiedIsShort(s, hash, header, body, bufferSize);
    ReadsAfterMove(Stored(s, hash, header, body), hash);
  }

  // ---------------------------------------------------------------- heights that do not fit

  lemma {:induction false} ReindexedKeeps(index: Index, blocks: seq<BlockInfo>, n: nat, x: H256)
    requires At(index, n) == Some(x) && forall b <- blocks :: b.height == n ==> b.hash == x
    ensures At(Reindexed(index, blocks), n) == Some(x)
    decreases |blocks|
  {
    if blocks != [] {
      assert blocks[0] in blocks && forall b <- blocks[1..] :: b in blocks;
      ReindexedKeeps(index[blocks[0].height := blocks[0].hash], blocks[1..], n, x);
    }
  }

  /** Nothing stored is the parent of the first block, so that no walk goes on beyond it. */
  ghost predicate Rootless(hs: Headers, genesis: H256) { genesis in hs && hs[genesis].parent !in hs }

  /** The walk in t, which has one block more, meets only blocks s had. */
  lemma {:induction false} BranchIsOld(s: State, t: State, genesis: H256, n: nat, b: H256)
    requires Linked(s.headers, s.bodies, genesis) && Rootless(t.headers, genesis)
    requires forall x <- s.headers :: x in t.headers && t.headers[x] == s.headers[x]
    requires HasWindow(t.numbers) && Known(t.headers, t.bodies, t.numbers, n, b)
    requires b in s.headers || b !in t.headers
    ensures forall x <- Branch(t.headers, t.bodies, t.numbers, n, b) :: x in s.headers
    decreases n
  {
    if Read(t.numbers, n) != Some(b) && n > 0 {
      assert WellPlaced(s.headers, genesis, b);
      BranchIsOld(s, t, genesis, n - 1, t.headers[b].parent);
    }
  }

  /** The first block is the ancestor at exactly a block's own height. */
  lemma RootAtHeight(s: State, t: State, genesis: H256, b: H256, n: nat)
    requires Linked(s.headers, s.bodies, genesis) && b in s.headers && Rootless(t.headers, genesis)
    requires forall x <- s.headers :: x in t.headers && t.headers[x] == s.headers[x]
    ensures Ancestor(t.headers, b, n) == Some(genesis) <==> n == s.headers[b].height
  {
    var p := s.headers[b].height;
    GenesisStays(s.headers, s.bodies, genesis, b, p);
    AncestorHeight(s.headers, s.bodies, genesis, b, p);
    AncestorKept(s.headers, t.headers, b, p);
    if n <= p {
      AncestorHeight(s.headers, s.bodies, genesis, b, n);
      AncestorKept(s.headers, t.headers, b, n);
      assert WellPlaced(s.headers, genesis, Ancestor(s.headers, b, n).value);
    } else {
      AncestorOfAncestor(t.headers, b, p, n - p);
      assert Ancestor(t.headers, genesis, n - p) == Ancestor(t.headers, t.headers[genesis].parent, n - p - 1);
    }
  }

  /** Nothing in the program checks heights. A new head's index is its ancestry exactly when it
      stands one above its parent. */
  lemma IndexNeedsHeights(s: State, hash: H256, header: Header, body: seq<H256>)
    requires Sound(s) && Enabled(s, hash, header, body) && Adopts(s, header)
    requires Rootless(s.headers[hash := header], s.numbers.index[0])
    ensures var t := Inserted(s, hash, header, body);
            IsAncestry(t.headers, t.numbers.index, hash, header.height) <==> Above(s, header)
  {
    if Above(s, header) {
      StoredFollows(s, hash, header, body);
      IndexFollowsHead(Stored(s, hash, header, body), hash);
    } else {
      FirstEntryStays(s, hash, header, body);
      RootIsMissed(s, hash, header, body);
      var n: nat := 0;
      assert !(n in Inserted(s, hash, header, body).numbers.index
               && Ancestor(s.headers[hash := header], hash, header.height - n)
                  == Some(Inserted(s, hash, header, body).numbers.index[n]));
    }
  }

  lemma RootIsMissed(s: State, hash: H256, header: Header, body: seq<H256>)
    requires Sound(s) && Enabled(s, hash, header, body) && !Above(s, header)
    requires Rootless(s.headers[hash := header], s.numbers.index[0])
    ensures Ancestor(s.headers[hash := header], hash, header.height) != Some(s.numbers.index[0])
  {
    var t := Stored(s, hash, header, body);
    RootAtHeight(s, t, s.numbers.index[0], header.parent, header.height - 1);
    assert Ancestor(t.headers, hash, header.height) == Ancestor(t.headers, header.parent, header.height - 1);
  }

  lemma FirstEntryStays(s: State, hash: H256, header: Header, body: seq<H256>)
    requires Sound(s) && Enabled(s, hash, header, body) && Adopts(s, header)
    requires Rootless(s.headers[hash := header], s.numbers.index[0])
    ensures At(Inserted(s, hash, header, body).numbers.index, 0) == Some(s.numbers.index[0])
  {
    var genesis, t := s.numbers.index[0], Stored(s, hash, header, body);
    BranchIsOld(s, t, genesis, header.height - 1, header.parent);
    var blocks, branch := ForkBlocks(t, hash), BranchBelow(t, hash);
    forall b | b in blocks && b.height == 0
      ensures b.hash == genesis
    {
      var j :| 0 <= j < |blocks| && blocks[j] == b;
      if j < |branch| {
        assert branch[j] in s.headers && WellPlaced(s.headers, genesis, branch[j]);
      }
    }
    ReindexedKeeps(s.numbers.index, blocks, 0, genesis);
  }

  // ---------------------------------------------------------------- restarts

  /** Headers and bodies are there from the block down to the first one, or as far as the window goes. */
  predicate Recallable(hs: Headers, bodies: Bodies, hash: H256, n: nat)
    decreases n
  {
    && n > 0 && hash in hs && hash in bodies
    && (n == 1 || hs[hash].height == 0 || Recallable(hs, bodies, hs[hash].parent, n - 1))
  }

  /** The block and those below it, n of them if there are as many, the block last. */
  function Recalled(hs: Headers, bodies: Bodies, hash: H256, n: nat): (r: seq<BlockInfo>)
    requires Recallable(hs, bodies, hash, n)
    ensures 0 < |r| <= n
    decreases n
  {
    (if n == 1 || hs[hash].height == 0 then [] else Recalled(hs, bodies, hs[hash].parent, n - 1))
    + [InfoOf(hs, bodies, hash)]
  }

  lemma {:induction false} RecalledCarries(hs: Headers, bodies: Bodies, hash: H256, n: nat)
    requires Recallable(hs, bodies, hash, n)
    ensures forall e <- Recalled(hs, bodies, hash, n) :: EntryCarries(bodies, e)
    decreases n
  {
    if n > 1 && hs[hash].height > 0 {
      RecalledCarries(hs, bodies, hs[hash].parent, n - 1);
    }
  }

  /** What is missing is made up at the back, from the oldest block. */
  function Padded(window: seq<BlockInfo>, total: nat): (r: seq<BlockInfo>)
    requires 0 < |window| <= total
    ensures |r| == total
  {
    window + seq(total - |window|, _ => BlockInfo(window[0].hash, 0, []))
  }

  /** The chain as it is opened again: the stored index, and a new window. */
  function Reopened(s: State, total: nat): State
    requires Recallable(s.headers, s.bodies, s.head, total)
  {
    s.(numbers := Numbers(Padded(Recalled(s.headers, s.bodies, s.head, total), total), s.numbers.index))
  }

  /** Counted from the back, entry i is the block's ancestor of that degree, under its height. */
  ghost predicate IsBack(hs: Headers, r: seq<BlockInfo>, hash: H256, i: nat)
    requires hash in hs && i < |r|
  {
    var b := r[|r| - 1 - i];
    b.height == hs[hash].height - i && Ancestor(hs, hash, i) == Some(b.hash)
  }

  /** The recalled blocks are the ancestors, by their heights; there are fewer than asked for only if
      the first block is reached. */
  lemma {:induction false} RecalledIs(hs: Headers, bodies: Bodies, genesis: H256, hash: H256, n: nat)
    requires Linked(hs, bodies, genesis) && hash in hs && n > 0
    ensures Recallable(hs, bodies, hash, n)
    ensures var r, h := Recalled(hs, bodies, hash, n), hs[hash].height;
            && |r| == (if n <= h then n else h + 1) && (n > h ==> r[0].hash == genesis)
            && forall i: nat | i < |r| :: IsBack(hs, r, hash, i)
    decreases n
  {
    assert WellPlaced(hs, genesis, hash);
    if n > 1 && hs[hash].height > 0 {
      var parent := hs[hash].parent;
      RecalledIs(hs, bodies, genesis, parent, n - 1);
      var q, r := Recalled(hs, bodies, parent, n - 1), Recalled(hs, bodies, hash, n);
      assert r == q + [InfoOf(hs, bodies, hash)];
      forall i: nat | i < |r|
        ensures IsBack(hs, r, hash, i)
      {
        if i > 0 {
          var j: nat := i - 1;
          assert IsBack(hs, q, parent, j);
        }
      }
    }
  }

  /** Opening the chain again puts the window in step with the index, whatever it was before, exactly
      when the chain fills the window or consists of the first block only. */
  lemma RestartIsSoundIff(s: State, total: nat)
    requires Follows(s.headers, s.bodies, s.numbers.index, s.head, s.height) && total > 0
    ensures Recallable(s.headers, s.bodies, s.head, total)
    ensures Sound(Reopened(s, total)) <==> s.height == 0 || total <= s.height + 1
  {
    RecalledIs(s.headers, s.bodies, s.numbers.index[0], s.head, total);
    var v, h := Reopened(s, total).numbers, s.height;
    var r := Recalled(s.headers, s.bodies, s.head, total);
    if h == 0 || total <= h + 1 {
      forall i: nat | i < |v.window| && i <= h
        ensures InStep(v, h, i)
      {
        assert h - i in v.index && Ancestor(s.headers, s.head, h - (h - i)) == Some(v.index[h - i]);
        if total <= h + 1 {
          assert IsBack(s.headers, r, s.head, i);
        }
      }
    } else {
      var newest: nat := 0;
      assert !InStep(v, h, newest);
    }
  }

  /** Right after a restart all numbers are read as the index has them. */
  lemma RestartReads(s: State, total: nat)
    requires Follows(s.headers, s.bodies, s.numbers.index, s.head, s.height) && total > 0
    ensures Recallable(s.headers, s.bodies, s.head, total) && Agrees(Reopened(s, total).numbers)
  {
    RestartIsSoundIff(s, total);
    RecalledIs(s.headers, s.bodies, s.numbers.index[0], s.head, total);
    if s.height == 0 || total <= s.height + 1 {
      AlignedAgrees(Reopened(s, total).numbers, s.height);
    }
  }

  lemma FirstIsNotHead(s: State)
    requires Follows(s.headers, s.bodies, s.numbers.index, s.head, s.height) && s.height > 0
    ensures s.numbers.index[0] != s.head && At(s.numbers.index, s.height) == Some(s.head)
  {
    var first: nat, last: nat := 0, s.height;
    assert first in s.numbers.index && Ancestor(s.headers, s.head, last - first) == Some(s.numbers.index[first]);
    assert last in s.numbers.index && Ancestor(s.headers, s.head, last - last) == Some(s.numbers.index[last]);
    AncestorHeight(s.headers, s.bodies, s.numbers.index[0], s.head, last);
  }

  /** The window of a short chain, read back, has the first block as its newest; pushed on, it has it
      just below the new block. */
  lemma ShortChainIsMisread(s: State, total: nat, info: BlockInfo)
    requires Follows(s.headers, s.bodies, s.numbers.index, s.head, s.height)
    requires 0 < s.height && s.height + 1 < total && info.height == s.height + 1
    ensures Recallable(s.headers, s.bodies, s.head, total)
    ensures var v := Extended(Reopened(s, total).numbers, s.height, info);
            Read(v, s.height) == Some(s.numbers.index[0]) != At(v.index, s.height)
  {
    RecalledIs(s.headers, s.bodies, s.numbers.index[0], s.head, total);
    FirstIsNotHead(s);
  }

  /** But they stay so with the next block on the head only if the chain fills the window, or had but
      the first block: a shorter chain is then read as the first block under the old head's height. */
  lemma RestartThenBlock(s: State, total: nat, hash: H256, header: Header, body: seq<H256>)
    requires Follows(s.headers, s.bodies, s.numbers.index, s.head, s.height) && total > 0
    requires hash !in s.headers && header.verified && header.parent == s.head && header.height == s.height + 1
    ensures Recallable(s.headers, s.bodies, s.head, total)
    ensures var u := Reopened(s, total);
            && Walkable(Stored(u, hash, header, body), hash)
            && (Agrees(Inserted(u, hash, header, body).numbers) <==> s.height == 0 || total <= s.height + 1)
  {
    RestartIsSoundIff(s, total);
    RestartReads(s, total);
    var u, n := Reopened(s, total), s.height;
    var t, info := Stored(u, hash, header, body), BlockInfo(hash, header.height, body);
    assert n in s.numbers.index && Ancestor(s.headers, s.head, n - n) == Some(s.numbers.index[n]);
    assert Read(u.numbers, n) == Some(s.head);
    ExtendedNumbers(t, hash);
    if s.height == 0 || total <= s.height + 1 {
      ExtensionStaysAligned(u.numbers, n, info);
      AlignedAgrees(Adjusted(t, hash), header.height);
    } else {
      ShortChainIsMisread(s, total, info);
    }
  }

  // ---------------------------------------------------------------- the program

  /** The next block of a walk. */
  lemma BranchStep(hs: Headers, bodies: Bodies, v: Numbers, n: nat, h: H256, all: seq<H256>, seen: nat)
    requires HasWindow(v) && Known(hs, bodies, v, n, h) && Read(v, n) != Some(h) && n > 0
    requires seen <= |all| && all[seen..] == Branch(hs, bodies, v, n, h)
    ensures seen < |all| && all[seen] == h && h in hs && h in bodies && all[..seen + 1] == all[..seen] + [h]
    ensures Known(hs, bodies, v, n - 1, hs[h].parent)
    ensures all[seen + 1..] == Branch(hs, bodies, v, n - 1, hs[h].parent)
  {
    assert all[seen..][0] == h && all[seen..][1..] == all[seen + 1..];
  }

  class Chain {
    var headers: Headers
    var bodies: Bodies
    var window: seq<BlockInfo>
    var blockHashes: Index
    var currentHeight: nat
    var currentHash: H256
    const bufferSize: nat

    function Now(): State
      reads this
    {
      State(headers, bodies, Numbers(window, blockHashes), currentHeight, currentHash)
    }

    /** A new chain, on its first block. */
    constructor (genesis: H256, header: Header, body: seq<H256>, size: nat)
      requires header.height == 0
      ensures Now() == Start(genesis, header, body, WINDOW_MARGIN + size) && bufferSize == size && Sound(Now())
      ensures |window| == 101 + size && Carries(Now())
    {
      headers, bodies := map[genesis := header], map[genesis := body];
      var total := WINDOW_MARGIN + size;
      window := seq(total - 1, _ => BlockInfo(genesis, 0, [])) + [BlockInfo(genesis, 0, body)];
      blockHashes := map[0 := genesis];
      currentHeight, currentHash := 0, genesis;
      bufferSize := size;
      StartIsSound(genesis, header, body, total);
    }

    /** The stored chain, opened again on its head. */
    constructor Reopen(headers: Headers, bodies: Bodies, index: Index, head: H256, size: nat)
      requires Recallable(headers, bodies, head, WINDOW_MARGIN + size)
      ensures var s := State(headers, bodies, Numbers([], index), headers[head].height, head);
              Now() == Reopened(s, WINDOW_MARGIN + size) && bufferSize == size
      ensures |window| == 101 + size && Carries(Now())
    {
      this.headers, this.bodies, this.blockHashes := headers, bodies, index;
      currentHeight, currentHash := headers[head].height, head;
      bufferSize := size;
      var n: nat, hash: H256 := WINDOW_MARGIN + size, head;
      var recent: seq<BlockInfo> := [];
      ghost var total, all := n, Recalled(headers, bodies, hash, n);
      while true
        invariant Recallable(headers, bodies, hash, n) && n + |recent| == total
        invariant all == Recalled(headers, bodies, hash, n) + recent
        decreases n
      {
        ghost var later := recent;
        recent := [BlockInfo(hash, headers[hash].height, bodies[hash])] + recent;
        n := n - 1;
        if n == 0 || headers[hash].height == 0 {
          assert recent == all;
          break;
        }
        hash := headers[hash].parent;
        assert all == (Recalled(headers, bodies, hash, n) + [recent[0]]) + later;
      }
      assert recent[0].hash == hash;
      window := recent + seq(n, _ => BlockInfo(hash, 0, []));
      new;
      RecalledCarries(headers, bodies, head, total);
    }

    /** The walk along parents to a number. */
    method BlockHashByNumberFork(number: nat, height: nat, hash: H256) returns (r: Option<H256>)
      requires window != []
      ensures r == ForkHash(headers, Now().numbers, number, height, hash)
    {
      if height < number {
        return None;
      }
      var v := Numbers(window, blockHashes);
      var n: nat, h := height, hash;
      while true
        invariant number <= n
        invariant ForkHash(headers, v, number, n, h) == ForkHash(headers, v, number, height, hash)
        decreases n
      {
        if n == number {
          return Some(h);
        }
        if Read(v, n) == Some(h) {
          return Read(v, number);
        }
        if h in headers {
          h := headers[h].parent;
          n := n - 1;
        } else {
          return None;
        }
      }
    }

    /** The transactions of the branch, and the height it leaves the chain at. A missing header or
        body panics. */
    method TransactionsDiff(height: nat, hash: H256) returns (r: Result<(nat, set<H256>), Error>)
      requires window != [] && Known(headers, bodies, Now().numbers, height, hash)
      ensures var b := Branch(headers, bodies, Now().numbers, height, hash);
              r == if Verifiable(Now(), bufferSize, height, hash)
                   then Ok((height - |b|, Transactions(bodies, b))) else Err(LongFork)
      ensures var b := Branch(headers, bodies, Now().numbers, height, hash);
              && (r.Ok? <==> |b| < bufferSize && (height + bufferSize) % USIZE_LIMIT >= currentHeight
                             && forall x <- b :: headers[x].verified)
              && (r.Ok? ==> forall t :: t in r.value.1 <==> exists x <- b :: t in bodies[x])
    {
      if (height + bufferSize) % USIZE_LIMIT < currentHeight {
        return Err(LongFork);
      }
      var v := Numbers(window, blockHashes);
      ghost var all := Branch(headers, bodies, v, height, hash);
      var bs: nat, n: nat, h := bufferSize, height, hash;
      var txs: set<H256> := {};
      ghost var seen: nat := 0;
      while true
        invariant seen <= |all| && n == height - seen && bs == bufferSize - seen
        invariant Known(headers, bodies, v, n, h) && all[seen..] == Branch(headers, bodies, v, n, h)
        invariant AllVerified(headers, all[..seen]) && txs == Transactions(bodies, all[..seen])
        decreases n
      {
        if bs == 0 {
          return Err(LongFork);
        }
        bs := bs - 1;
        if Read(v, n) == Some(h) || n == 0 {
          assert all[..seen] == all;
          return Ok((n, txs));
        }
        BranchStep(headers, bodies, v, n, h, all, seen);
        OneMoreBlock(bodies, all[..seen], h);
        txs := txs + set t | t in bodies[h];
        var header := headers[h];
        if !header.verified {
          return Err(LongFork);
        }
        seen := seen + 1;
        h := header.parent;
        n := n - 1;
      }
    }

    /** The blocks of the branch, newest first. */
    method GetForkChain(height: nat, hash: H256) returns (blocks: seq<BlockInfo>)
      requires window != [] && Known(headers, bodies, Now().numbers, height, hash)
      ensures blocks == Infos(headers, bodies, Branch(headers, bodies, Now().numbers, height, hash))
      ensures var branch := Branch(headers, bodies, Now().numbers, height, hash);
              forall j | 0 <= j < |blocks| ::
                && blocks[j].hash == branch[j] && blocks[j].height == headers[branch[j]].height
                && blocks[j].transactions == bodies[branch[j]]
    {
      blocks := [];
      var v := Numbers(window, blockHashes);
      var n: nat, h := height, hash;
      ghost var all := Branch(headers, bodies, v, height, hash);
      ghost var seen: seq<H256> := [];
      while true
        invariant Known(headers, bodies, v, n, h)
        invariant all == seen + Branch(headers, bodies, v, n, h)
        invariant (forall b <- seen :: b in headers && b in bodies) && blocks == Infos(headers, bodies, seen)
        decreases n
      {
        if Read(v, n) == Some(h) || n == 0 {
          assert all == seen;
          break;
        }
        var header := headers[h];
        assert all == seen + [h] + Branch(headers, bodies, v, n - 1, header.parent);
        blocks := blocks + [BlockInfo(h, header.height, bodies[h])];
        seen := seen + [h];
        h := header.parent;
        n := n - 1;
      }
    }

    /** Enters the blocks into the index. */
    method UpdateBlockNumber(blocks: seq<BlockInfo>)
      modifies `blockHashes
      ensures blockHashes == Reindexed(old(blockHashes), blocks)
    {
      for i := 0 to |blocks|
        invariant Reindexed(blockHashes, blocks[i..]) == Reindexed(old(blockHashes), blocks)
      {
        assert blocks[i..][0] == blocks[i] && blocks[i..][1..] == blocks[i + 1..];
        blockHashes := blockHashes[blocks[i].height := blocks[i].hash];
      }
    }

    /** Pushes the block to the back and lets it take the place of the one at i. */
    method Replace(i: nat, b: BlockInfo)
      requires i < |window|
      modifies `window
      ensures window == old(window)[i := b]
    {
      window := window + [b];
      var last := |window| - 1;
      window := window[i := window[last]][..last];
    }

    /** Refills the window from the back. */
    method UpdateTxsCache(blocks: seq<BlockInfo>, m: nat)
      requires m == |window|
      modifies `window
      ensures window == Refilled(old(window), blocks)
    {
      var i := 1;
      for j := 0 to |blocks|
        invariant i == j + 1 && |window| == m && j <= m
        invariant window == Refilled(old(window), blocks[..j])
      {
        if i > m {
          break;
        }
        Replace(m - i, blocks[j]);
        i := i + 1;
      }
    }

    /** Stores a verified block, and makes it the head if it is high enough. */
    method InsertAt(hash: H256, header: Header, body: seq<H256>)
      requires header.verified && window != []
      requires Adopts(Now(), header) ==> Walkable(Stored(Now(), hash, header, body), hash)
      modifies this
      ensures Now() == Inserted(old(Now()), hash, header, body)
      ensures headers == old(headers)[hash := header] && bodies == old(bodies)[hash := body]
      ensures header.height == old(currentHeight) || header.height == old(currentHeight) + 1 ==>
                currentHash == hash && currentHeight == header.height && At(blockHashes, header.height) == Some(hash)
      ensures header.height != old(currentHeight) && header.height != old(currentHeight) + 1 ==>
                currentHash == old(currentHash) && currentHeight == old(currentHeight)
                && blockHashes == old(blockHashes) && window == old(window)
      ensures old(Carries(Now())) && hash !in old(bodies) ==> Carries(Now())
    {
      ghost var before := Now();
      headers := headers[hash := header];
      bodies := bodies[hash := body];
      if header.height == currentHeight + 1 || header.height == currentHeight {
        ghost var stored := Now();
        AdjustBlockHashes(hash);
        currentHeight, currentHash := header.height, hash;
        HeadIsEntered(stored, hash);
      }
      if Carries(before) && hash !in before.bodies {
        InsertionCarries(before, hash, header, body);
      }
    }

    /** Moves index and window to a stored block. */
    method AdjustBlockHashes(hash: H256)
      requires Walkable(Now(), hash)
      modifies `blockHashes, `window
      ensures Now().numbers == Adjusted(old(Now()), hash)
    {
      var header := headers[hash];
      var forkBlocks := [];
      if header.height > 0 {
        forkBlocks := GetForkChain(header.height - 1, header.parent);
      }
      forkBlocks := forkBlocks + [BlockInfo(hash, header.height, bodies[hash])];
      assert forkBlocks == ForkBlocks(Now(), hash);
      UpdateBlockNumber(forkBlocks);
      if currentHeight < header.height {
        var front := window[0];
        window := window[1..];
        window := window + [front];
      }
      UpdateTxsCache(forkBlocks, |window|);
    }
  }
}
