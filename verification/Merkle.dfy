/** The root of a complete binary tree of hashes, computed in place. */
module Merkle {
  import opened Bytes
  import opened HashDb
  import opened Powers

  /** What two nodes are merged into. */
  function Merge(hash: Hasher): (H256, H256) -> H256
  {
    (left: H256, right: H256) => hash(left + right)
  }

  // ---------------------------------------------------------------- the tree

  /** n leaves fill k levels of a binary tree and perhaps a part of the next. */
  predicate Fills(n: nat, k: nat) { Pow2(k) <= n <= 2 * Pow2(k) }

  /** Of n leaves, those below the left child: the lowest level is filled from the left. */
  function LeftLeaves(n: nat, k: nat): (l: nat)
    requires k > 0 && Fills(n, k)
    ensures l <= n && Fills(l, k - 1) && Fills(n - l, k - 1)
  {
    var h := Pow2(k - 1);
    if n <= 3 * h then n - h else 2 * h
  }

  /** The root of the complete tree over the n leaves from lo. */
  function CompleteRoot<T>(merge: (T, T) -> T, s: seq<T>, lo: nat, n: nat, k: nat): T
    requires lo + n <= |s| && Fills(n, k)
    decreases k
  {
    if k == 0 then
      if n == 1 then s[lo] else merge(s[lo], s[lo + 1])
    else
      var l := LeftLeaves(n, k);
      merge(CompleteRoot(merge, s, lo, l, k - 1), CompleteRoot(merge, s, lo + l, n - l, k - 1))
  }

  /** The root of the perfect tree of height k over the nodes from lo. */
  function PerfectRoot<T>(merge: (T, T) -> T, s: seq<T>, lo: nat, k: nat): T
    requires lo + Pow2(k) <= |s|
    decreases k
  {
    if k == 0 then s[lo]
    else merge(PerfectRoot(merge, s, lo, k - 1), PerfectRoot(merge, s, lo + Pow2(k - 1), k - 1))
  }

  /** The nodes are the leaves with the first r pairs merged. */
  ghost predicate Folded<T>(merge: (T, T) -> T, s: seq<T>, r: nat, nodes: seq<T>)
  {
    && 2 * r <= |s| && |nodes| == |s| - r
    && forall j | 0 <= j < |nodes| :: nodes[j] == if j < r then merge(s[2 * j], s[2 * j + 1]) else s[j + r]
  }

  /** The first leaf below node j. */
  function Start(j: nat, r: nat): nat { if j <= r then 2 * j else j + r }

  lemma StartOfHalves(j: nat, r: nat, k: nat)
    ensures Fills(Start(j + Pow2(k), r) - Start(j, r), k)
    ensures k > 0 ==> LeftLeaves(Start(j + Pow2(k), r) - Start(j, r), k) == Start(j + Pow2(k - 1), r) - Start(j, r)
  {
  }

  lemma NodeIsFolded<T>(merge: (T, T) -> T, s: seq<T>, r: nat, nodes: seq<T>, j: nat)
    requires Folded(merge, s, r, nodes) && j + 1 <= |nodes|
    ensures SameRoot(merge, s, nodes, 0, j, Start(j, r), Start(j + 1, r) - Start(j, r))
  {
  }

  /** The complete tree over the leaves below the 2^k nodes from j has the root of the perfect tree
      over those nodes. */
  ghost predicate SameRoot<T>(merge: (T, T) -> T, s: seq<T>, nodes: seq<T>, k: nat, j: nat, lo: nat, n: nat)
  {
    && lo + n <= |s| && Fills(n, k) && j + Pow2(k) <= |nodes|
    && CompleteRoot(merge, s, lo, n, k) == PerfectRoot(merge, nodes, j, k)
  }

  lemma JoinRoots<T>(merge: (T, T) -> T, s: seq<T>, nodes: seq<T>, k: nat, j: nat, lo: nat, mid: nat, end: nat)
    requires k > 0 && lo <= mid <= end && Fills(end - lo, k) && mid - lo == LeftLeaves(end - lo, k)
    requires SameRoot(merge, s, nodes, k - 1, j, lo, mid - lo)
    requires SameRoot(merge, s, nodes, k - 1, j + Pow2(k - 1), mid, end - mid)
    ensures SameRoot(merge, s, nodes, k, j, lo, end - lo)
  {
  }

  /** A complete tree is a perfect tree over its leaves with the lowest pairs merged. */
  lemma {:induction false} CompleteIsFolded<T>(merge: (T, T) -> T, s: seq<T>, r: nat, nodes: seq<T>, k: nat,
                                               j: nat, last: nat, lo: nat, end: nat)
    requires Folded(merge, s, r, nodes) && last == j + Pow2(k) <= |nodes|
    requires lo == Start(j, r) && end == Start(last, r)
    ensures SameRoot(merge, s, nodes, k, j, lo, end - lo)
    decreases k
  {
    if k == 0 {
      NodeIsFolded(merge, s, r, nodes, j);
    } else {
      var half := j + Pow2(k - 1);
      var mid := Start(half, r);
      CompleteIsFolded(merge, s, r, nodes, k - 1, j, half, lo, mid);
      CompleteIsFolded(merge, s, r, nodes, k - 1, half, last, mid, end);
      StartOfHalves(j, r, k);
      JoinRoots(merge, s, nodes, k, j, lo, mid, end);
    }
  }

  // ---------------------------------------------------------------- the program

  /** How many leaves sit on the lowest, incomplete level. From 2^63 on the doubling would wrap to
      zero and not end, but no vector is that long. */
  method LowestChildrenLen(amount: nat) returns (len: nat)
    requires amount < USIZE_LIMIT / 2
    ensures len == if amount == 0 then 0 else 2 * (amount - Pow2(Log2(amount)))
  {
    var n: nat, r: nat := 1, 0;
    ghost var k: nat := 0;
    while n <= amount
      invariant n == Pow2(k) && n < USIZE_LIMIT
      invariant if k == 0 then r == 0 else Pow2(k - 1) <= amount && r == amount - Pow2(k - 1)
      decreases amount - n
    {
      r := amount - n;
      n := (n * 2) % USIZE_LIMIT;
      k := k + 1;
    }
    if amount > 0 {
      Log2Unique(amount, k - 1);
    }
    len := r * 2;
  }

  /** Each node at a multiple of 2^i, for the multiples from lo up to hi, holds the root over the
      2^i nodes from there. */
  ghost predicate RootAt<T>(merge: (T, T) -> T, a: seq<T>, orig: seq<T>, i: nat, m: nat)
    requires |a| == |orig|
  {
    m * Pow2(i) + Pow2(i) <= |orig| && a[m * Pow2(i)] == PerfectRoot(merge, orig, m * Pow2(i), i)
  }

  ghost predicate RootsAt<T>(merge: (T, T) -> T, a: seq<T>, orig: seq<T>, i: nat, lo: nat, hi: nat)
    requires |a| == |orig|
  {
    forall m: nat | lo <= m < hi :: RootAt(merge, a, orig, i, m)
  }

  lemma LaterBlock(m: nat, n: nat, d: nat)
    requires m < n
    ensures m * d + d <= n * d
  {
    var gap: nat := n - m - 1;
    assert n * d == m * d + d + gap * d;
  }

  lemma NextBlock(t: nat, d: nat)
    ensures t * (2 * d) == (2 * t) * d && (2 * t + 1) * d == (2 * t) * d + d
    ensures (t + 1) * (2 * d) == t * (2 * d) + d + d
  {
  }

  /** Merging two neighbours gives the root over both, and leaves the blocks before, as well as the
      smaller ones after, as they are. */
  lemma PassStep<T>(merge: (T, T) -> T, a: seq<T>, orig: seq<T>, i: nat, t: nat, q: nat, j: nat, d: nat)
    requires |a| == |orig| && t < q && d == Pow2(i) && j == t * (2 * d)
    requires RootsAt(merge, a, orig, i + 1, 0, t) && RootsAt(merge, a, orig, i, 2 * t, 2 * q)
    ensures j + d < |a|
    ensures var a' := a[j := merge(a[j], a[j + d])];
            RootsAt(merge, a', orig, i + 1, 0, t + 1) && RootsAt(merge, a', orig, i, 2 * (t + 1), 2 * q)
  {
    NextBlock(t, d);
    assert RootAt(merge, a, orig, i, 2 * t) && RootAt(merge, a, orig, i, 2 * t + 1);
    var a', up := a[j := merge(a[j], a[j + d])], i + 1;
    forall m: nat | m < t
      ensures RootAt(merge, a', orig, up, m)
    {
      LaterBlock(m, t, 2 * d);
      assert RootAt(merge, a, orig, up, m);
    }
    forall m: nat | 2 * (t + 1) <= m < 2 * q
      ensures RootAt(merge, a', orig, i, m)
    {
      LaterBlock(2 * t, m, d);
      assert RootAt(merge, a, orig, i, m);
    }
  }

  /** One pass over the nodes, merging those that are d apart. */
  method FoldLevel<T>(merge: (T, T) -> T, nodes: array<T>, ghost orig: seq<T>, d: nat, ghost i: nat, ghost q: nat)
    requires d == Pow2(i) && q * (2 * d) == nodes.Length == |orig|
    requires RootsAt(merge, nodes[..], orig, i, 0, 2 * q)
    modifies nodes
    ensures RootsAt(merge, nodes[..], orig, i + 1, 0, q)
  {
    var j := 0;
    ghost var t: nat := 0;
    while j < nodes.Length
      invariant t <= q && j == t * (2 * d)
      invariant RootsAt(merge, nodes[..], orig, i + 1, 0, t)
      invariant RootsAt(merge, nodes[..], orig, i, 2 * t, 2 * q)
      decreases nodes.Length - j
    {
      ghost var a := nodes[..];
      PassStep(merge, a, orig, i, t, q, j, d);
      nodes[j] := merge(nodes[j], nodes[j + d]);
      assert nodes[..] == a[j := merge(a[j], a[j + d])];
      NextBlock(t, d);
      j := j + d + d;
      t := t + 1;
    }
    if t < q {
      LaterBlock(t, q, 2 * d);
    }
  }

  /** Doubles the distance until the first node holds the root. No index leaves the array because
      the number of nodes is a power of two. */
  method FoldInPlace<T>(merge: (T, T) -> T, nodes: array<T>, ghost k: nat)
    requires nodes.Length == Pow2(k)
    modifies nodes
    ensures nodes[0] == PerfectRoot(merge, old(nodes[..]), 0, k)
  {
    var nlen := nodes.Length;
    ghost var orig := nodes[..];
    var d := 1;
    ghost var i: nat := 0;
    while d < nlen
      invariant i <= k && d == Pow2(i)
      invariant RootsAt(merge, nodes[..], orig, i, 0, Pow2(k - i))
      decreases nlen - d
    {
      Pow2Add(k - i - 1, i + 1);
      FoldLevel(merge, nodes, orig, d, i, Pow2(k - i - 1));
      d, i := 2 * d, i + 1;
    }
    if i < k {
      Pow2Mono(i + 1, k);
    }
    assert RootAt(merge, nodes[..], orig, k, 0);
  }

  /** The nodes of the level above the lowest. */
  method FoldLowest<T>(merge: (T, T) -> T, input: seq<T>) returns (nodes: seq<T>)
    requires 0 < |input| < USIZE_LIMIT / 2
    ensures Folded(merge, input, |input| - Pow2(Log2(|input|)), nodes)
  {
    var lwlen := LowestChildrenLen(|input|);
    ghost var r := |input| - Pow2(Log2(|input|));
    var i := 0;
    nodes := [];
    while i < lwlen
      invariant i == 2 * |nodes| <= lwlen
      invariant forall j | 0 <= j < |nodes| :: nodes[j] == merge(input[2 * j], input[2 * j + 1])
    {
      nodes := nodes + [merge(input[i], input[i + 1])];
      i := i + 2;
    }
    for j := i to |input|
      invariant |nodes| == j - r
      invariant forall m | 0 <= m < |nodes| ::
                  nodes[m] == if m < r then merge(input[2 * m], input[2 * m + 1]) else input[m + r]
    {
      nodes := nodes + [input[j]];
    }
  }

  /** Folds the lowest level into the one above, and that one in place. */
  method FoldAll<T>(merge: (T, T) -> T, input: seq<T>) returns (root: T)
    requires 0 < |input| < USIZE_LIMIT / 2
    ensures root == CompleteRoot(merge, input, 0, |input|, Log2(|input|))
  {
    var pushed := FoldLowest(merge, input);
    ghost var k := Log2(|input|);
    CompleteIsFolded(merge, input, |input| - Pow2(k), pushed, k, 0, Pow2(k), 0, |input|);
    var nodes := new T[|pushed|](k requires 0 <= k < |pushed| => pushed[k]);
    assert nodes[..] == pushed;
    FoldInPlace(merge, nodes, k);
    root := nodes[0];
  }

  /** The root of the complete tree over the input. */
  function RootOf(hash: Hasher, input: seq<H256>): H256
  {
    if input == [] then hash(NULL_RLP) else CompleteRoot(Merge(hash), input, 0, |input|, Log2(|input|))
  }

  method GenMerkleRoot(hash: Hasher, input: seq<H256>) returns (root: H256)
    requires |input| < USIZE_LIMIT / 2
    ensures root == RootOf(hash, input)
  {
    if |input| == 0 {
      return hash(NULL_RLP);
    }
    root := FoldAll(Merge(hash), input);
  }

  /** The roots of the smallest inputs. */
  lemma SmallRoots(hash: Hasher, a: H256, b: H256, c: H256, d: H256)
    ensures RootOf(hash, []) == hash([0x80])
    ensures RootOf(hash, [a]) == a
    ensures RootOf(hash, [a, b]) == hash(a + b)
    ensures RootOf(hash, [a, b, c]) == hash(hash(a + b) + c)
    ensures RootOf(hash, [a, b, c, d]) == hash(hash(a + b) + hash(c + d))
  {
    Log2Unique(1, 0);
    Log2Unique(2, 1);
    Log2Unique(3, 1);
    Log2Unique(4, 2);
  }

  function Hashed(hash: Hasher, input: seq<Bytes>): (r: seq<H256>)
    ensures |r| == |input| && forall i | 0 <= i < |r| :: r[i] == hash(input[i])
  {
    seq(|input|, i requires 0 <= i < |input| => hash(input[i]))
  }

  /** The root over the hashes of the given values. */
  method CompleteMerkleRoot(hash: Hasher, input: seq<Bytes>) returns (root: H256)
    requires |input| < USIZE_LIMIT / 2
    ensures root == RootOf(hash, Hashed(hash, input))
  {
    root := GenMerkleRoot(hash, Hashed(hash, input));
  }

  // ---------------------------------------------------------------- what the root commits to

  /** The pairs merged on the way to the root. */
  ghost function Merged<T>(merge: (T, T) -> T, s: seq<T>, lo: nat, n: nat, k: nat): set<(T, T)>
    requires lo + n <= |s| && Fills(n, k)
    decreases k
  {
    if k == 0 then
      if n == 1 then {} else {(s[lo], s[lo + 1])}
    else
      var l := LeftLeaves(n, k);
      {(CompleteRoot(merge, s, lo, l, k - 1), CompleteRoot(merge, s, lo + l, n - l, k - 1))} +
      Merged(merge, s, lo, l, k - 1) + Merged(merge, s, lo + l, n - l, k - 1)
  }

  ghost predicate Collide<T>(merge: (T, T) -> T, p: (T, T), q: (T, T))
  {
    p != q && merge(p.0, p.1) == merge(q.0, q.1)
  }

  ghost predicate NoneCollide<T>(merge: (T, T) -> T, ps: set<(T, T)>, qs: set<(T, T)>)
  {
    forall p, q | p in ps && q in qs :: !Collide(merge, p, q)
  }

  /** a and b have the same root over the n leaves from lo, and no pairs merged for it collide. */
  ghost predicate SameWithoutCollision<T>(merge: (T, T) -> T, a: seq<T>, b: seq<T>, lo: nat, n: nat, k: nat)
    requires lo + n <= |a| == |b| && Fills(n, k)
  {
    && CompleteRoot(merge, a, lo, n, k) == CompleteRoot(merge, b, lo, n, k)
    && NoneCollide(merge, Merged(merge, a, lo, n, k), Merged(merge, b, lo, n, k))
  }

  lemma PartsAreSame<T>(merge: (T, T) -> T, a: seq<T>, b: seq<T>, lo: nat, n: nat, k: nat, l: nat)
    requires lo + n <= |a| == |b| && Fills(n, k) && k > 0 && l == LeftLeaves(n, k)
    requires SameWithoutCollision(merge, a, b, lo, n, k)
    ensures SameWithoutCollision(merge, a, b, lo, l, k - 1)
    ensures SameWithoutCollision(merge, a, b, lo + l, n - l, k - 1)
  {
    var p := (CompleteRoot(merge, a, lo, l, k - 1), CompleteRoot(merge, a, lo + l, n - l, k - 1));
    var q := (CompleteRoot(merge, b, lo, l, k - 1), CompleteRoot(merge, b, lo + l, n - l, k - 1));
    assert !Collide(merge, p, q);
  }

  lemma PairIsSame<T>(merge: (T, T) -> T, a: seq<T>, b: seq<T>, lo: nat, n: nat)
    requires lo + n <= |a| == |b| && Fills(n, 0) && SameWithoutCollision(merge, a, b, lo, n, 0)
    ensures forall i | lo <= i < lo + n :: a[i] == b[i]
  {
    if n == 2 {
      assert !Collide(merge, (a[lo], a[lo + 1]), (b[lo], b[lo + 1]));
    }
  }

  lemma {:induction false} LeafIsSame<T>(merge: (T, T) -> T, a: seq<T>, b: seq<T>, lo: nat, n: nat, k: nat, i: nat)
    requires lo <= i < lo + n <= |a| == |b| && Fills(n, k) && SameWithoutCollision(merge, a, b, lo, n, k)
    ensures a[i] == b[i]
    decreases k
  {
    if k == 0 {
      PairIsSame(merge, a, b, lo, n);
    } else {
      var l := LeftLeaves(n, k);
      PartsAreSame(merge, a, b, lo, n, k, l);
      if i < lo + l {
        LeafIsSame(merge, a, b, lo, l, k - 1, i);
      } else {
        LeafIsSame(merge, a, b, lo + l, n - l, k - 1, i);
      }
    }
  }

  /** Two inputs of the same length with the same root are the same, unless two of the pairs merged
      for them collide. */
  lemma RootCommits<T>(merge: (T, T) -> T, a: seq<T>, b: seq<T>)
    requires |a| == |b| > 0 && SameWithoutCollision(merge, a, b, 0, |a|, Log2(|a|))
    ensures a == b
  {
    forall i | 0 <= i < |a|
      ensures a[i] == b[i]
    {
      LeafIsSame(merge, a, b, 0, |a|, Log2(|a|), i);
    }
  }

  function Joined(left: H256, right: H256): (r: Bytes)
    ensures r == left + right
  {
    left + right
  }

  /** The 64-byte strings hashed on the way to the root. */
  ghost function Strings(hash: Hasher, s: seq<H256>): set<Bytes>
    requires s != []
  {
    set p | p in Merged(Merge(hash), s, 0, |s|, Log2(|s|)) :: Joined(p.0, p.1)
  }

  /** Two inputs of the same length with the same root are the same, unless the hash collides on two of
      the strings hashed for them. */
  lemma RootCommitsToInput(hash: Hasher, a: seq<H256>, b: seq<H256>)
    requires |a| == |b| > 0 && RootOf(hash, a) == RootOf(hash, b)
    requires forall x, y | x in Strings(hash, a) && y in Strings(hash, b) && hash(x) == hash(y) :: x == y
    ensures a == b
  {
    var merge, k := Merge(hash), Log2(|a|);
    forall p, q | p in Merged(merge, a, 0, |a|, k) && q in Merged(merge, b, 0, |b|, k)
      ensures !Collide(merge, p, q)
    {
      var x, y := Joined(p.0, p.1), Joined(q.0, q.1);
      assert x in Strings(hash, a) && y in Strings(hash, b);
      if hash(x) == hash(y) {
        assert x[..32] == p.0 && x[32..] == p.1 && y[..32] == q.0 && y[32..] == q.1;
      }
    }
    RootCommits(merge, a, b);
  }
}
