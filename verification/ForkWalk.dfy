/** The walks from any block back to the chain that the numbers describe. A number is looked up in a
    window of recent blocks first, and in the stored index if the window does not reach it. */
module ForkWalk {
  import opened Bytes
  import opened HashDb

  datatype Header = Header(parent: H256, height: nat, verified: bool)
  datatype BlockInfo = BlockInfo(hash: H256, height: nat, transactions: seq<H256>)
  datatype Error = LongFork

  type Headers = map<H256, Header>
  type Bodies = map<H256, seq<H256>>
  type Index = map<nat, H256>

  // ---------------------------------------------------------------- the plain walk

  /** The block n parents back, if all headers up to there are known. */
  function Ancestor(hs: Headers, hash: H256, n: nat): Option<H256>
    decreases n
  {
    if n == 0 then Some(hash)
    else if hash in hs then Ancestor(hs, hs[hash].parent, n - 1)
    else None
  }

  lemma {:induction false} AncestorOfAncestor(hs: Headers, hash: H256, n: nat, m: nat)
    requires Ancestor(hs, hash, n).Some?
    ensures Ancestor(hs, hash, n + m) == Ancestor(hs, Ancestor(hs, hash, n).value, m)
    decreases n
  {
    if n > 0 {
      AncestorOfAncestor(hs, hs[hash].parent, n - 1, m);
    }
  }

  function At(index: Index, n: nat): Option<H256>
  {
    if n in index then Some(index[n]) else None
  }

  // ---------------------------------------------------------------- looking up numbers

  /** A queue of recent blocks, the newest at the back, and the stored index. */
  datatype Numbers = Numbers(window: seq<BlockInfo>, index: Index)

  predicate HasWindow(v: Numbers) { v.window != [] }

  /** The window's block for a height: counted back from the newest, whatever height it has itself.
      An empty window panics. */
  function InWindow(window: seq<BlockInfo>, n: nat): Option<BlockInfo>
    requires window != []
  {
    var best := window[|window| - 1].height;
    if n > best || best - n >= |window| then None else Some(window[|window| - 1 - (best - n)])
  }

  /** block_hash_by_number. */
  function Read(v: Numbers, n: nat): Option<H256>
    requires HasWindow(v)
  {
    match InWindow(v.window, n)
    case Some(b) => Some(b.hash)
    case None => At(v.index, n)
  }

  /** The window says nothing else than the index. */
  ghost predicate Agrees(v: Numbers)
    requires HasWindow(v)
  {
    forall n: nat :: Read(v, n) == At(v.index, n)
  }

  // ---------------------------------------------------------------- the walk to a number

  /** The walk along parents with its shortcut: once on the chain the numbers describe, the answer is
      read off. */
  function ForkHash(hs: Headers, v: Numbers, number: nat, height: nat, hash: H256): Option<H256>
    requires HasWindow(v)
    decreases height
  {
    if height < number then None
    else if height == number then Some(hash)
    else if Read(v, height) == Some(hash) then Read(v, number)
    else if hash in hs then ForkHash(hs, v, number, height - 1, hs[hash].parent)
    else None
  }

  /** Whatever block a number gives, the smaller numbers give its ancestors. */
  ghost predicate NumbersAreAncestors(hs: Headers, v: Numbers)
    requires HasWindow(v)
  {
    forall n: nat, m: nat | m < n && Read(v, n).Some? :: Read(v, m) == Ancestor(hs, Read(v, n).value, n - m)
  }

  ghost predicate WalksAreRight(hs: Headers, v: Numbers)
    requires HasWindow(v)
  {
    forall number: nat, height: nat, hash: H256 | number <= height ::
      ForkHash(hs, v, number, height, hash) == Ancestor(hs, hash, height - number)
  }

  lemma {:induction false} WalkIsRight(hs: Headers, v: Numbers, number: nat, height: nat, hash: H256)
    requires HasWindow(v) && NumbersAreAncestors(hs, v) && number <= height
    ensures ForkHash(hs, v, number, height, hash) == Ancestor(hs, hash, height - number)
    decreases height
  {
    if number < height && Read(v, height) != Some(hash) && hash in hs {
      WalkIsRight(hs, v, number, height - 1, hs[hash].parent);
    }
  }

  /** The walk gives the ancestor for every number and block exactly when the numbers themselves are
      each other's ancestors. */
  lemma WalksNeedNumbers(hs: Headers, v: Numbers)
    requires HasWindow(v)
    ensures WalksAreRight(hs, v) <==> NumbersAreAncestors(hs, v)
  {
    if WalksAreRight(hs, v) {
      forall n: nat, m: nat | m < n && Read(v, n).Some?
        ensures Read(v, m) == Ancestor(hs, Read(v, n).value, n - m)
      {
        assert ForkHash(hs, v, m, n, Read(v, n).value) == Read(v, m);
      }
    }
    if NumbersAreAncestors(hs, v) {
      forall number: nat, height: nat, hash: H256 | number <= height
        ensures ForkHash(hs, v, number, height, hash) == Ancestor(hs, hash, height - number)
      {
        WalkIsRight(hs, v, number, height, hash);
      }
    }
  }

  // ---------------------------------------------------------------- branches

  /** From here back to the numbered chain every header and body is known. */
  predicate Known(hs: Headers, bodies: Bodies, v: Numbers, height: nat, hash: H256)
    requires HasWindow(v)
    decreases height
  {
    Read(v, height) == Some(hash) || height == 0 ||
    (hash in hs && hash in bodies && Known(hs, bodies, v, height - 1, hs[hash].parent))
  }

  /** The blocks off the numbered chain, newest first. */
  function Branch(hs: Headers, bodies: Bodies, v: Numbers, height: nat, hash: H256): (r: seq<H256>)
    requires HasWindow(v) && Known(hs, bodies, v, height, hash)
    ensures |r| <= height && forall b <- r :: b in hs && b in bodies
    decreases height
  {
    if Read(v, height) == Some(hash) || height == 0 then []
    else [hash] + Branch(hs, bodies, v, height - 1, hs[hash].parent)
  }

  /** The branch is the ancestors one by one; none is on the numbered chain, and the next one is, or
      stands at height zero. */
  lemma {:induction false} BranchMeaning(hs: Headers, bodies: Bodies, v: Numbers, height: nat, hash: H256)
    requires HasWindow(v) && Known(hs, bodies, v, height, hash)
    ensures var b := Branch(hs, bodies, v, height, hash);
            && (forall j | 0 <= j < |b| :: Ancestor(hs, hash, j) == Some(b[j]) && Read(v, height - j) != Some(b[j]))
            && Ancestor(hs, hash, |b|).Some?
            && (|b| == height || Read(v, height - |b|) == Ancestor(hs, hash, |b|))
    decreases height
  {
    var b := Branch(hs, bodies, v, height, hash);
    if b != [] {
      BranchMeaning(hs, bodies, v, height - 1, hs[hash].parent);
      var c := Branch(hs, bodies, v, height - 1, hs[hash].parent);
      forall j | 0 <= j < |b|
        ensures Ancestor(hs, hash, j) == Some(b[j]) && Read(v, height - j) != Some(b[j])
      {
        if j > 0 {
          assert b[j] == c[j - 1] && Ancestor(hs, hash, j) == Ancestor(hs, hs[hash].parent, j - 1);
          assert Read(v, height - 1 - (j - 1)) != Some(c[j - 1]);
        }
      }
    }
  }

  function Transactions(bodies: Bodies, blocks: seq<H256>): set<H256>
    requires forall b <- blocks :: b in bodies
  {
    set b, t | b in blocks && t in bodies[b] :: t
  }

  lemma OneMoreBlock(bodies: Bodies, blocks: seq<H256>, b: H256)
    requires b in bodies && forall c <- blocks :: c in bodies
    ensures forall c <- blocks + [b] :: c in bodies
    ensures Transactions(bodies, blocks + [b]) == Transactions(bodies, blocks) + set t | t in bodies[b]
  {
  }

  ghost predicate AllVerified(hs: Headers, blocks: seq<H256>)
    requires forall b <- blocks :: b in hs
  {
    forall b <- blocks :: hs[b].verified
  }
}
