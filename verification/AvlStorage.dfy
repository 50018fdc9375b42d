/** The arena tree nodes live in, its free list, and who owns which of its cells. */
module AvlStorage {
  import opened Bytes
  import opened HashDb
  import opened AvlTree

  datatype NodeHandle = InMemory(index: nat) | HashOf(hash: H256)

  /** Children are taken out and put back while a node is worked on. */
  datatype Node =
    | EmptyNode
    | LeafNode(key: Bytes, value: Bytes)
    | BranchNode(height: nat, key: Bytes, left: Option<NodeHandle>, right: Option<NodeHandle>)

  /** A new node, or one loaded from the store under its hash and not changed since. */
  datatype Stored = New(node: Node) | Cached(node: Node, hash: H256)

  datatype Arena = Arena(nodes: seq<Stored>, free: seq<nat>)

  ghost predicate ArenaOk(a: Arena)
  {
    && (forall i <- a.free :: i < |a.nodes|)
    && (forall i, j | 0 <= i < j < |a.free| :: a.free[i] != a.free[j])
  }

  ghost predicate InUse(a: Arena, i: nat)
  {
    i < |a.nodes| && i !in a.free
  }

  /** How many cells are in use. */
  function Used(a: Arena): int { |a.nodes| - |a.free| }

  ghost predicate AllInUse(a: Arena, cells: set<nat>)
  {
    forall i <- cells :: InUse(a, i)
  }

  /** The given cells stay in use and keep their content. */
  ghost predicate Preserved(a: Arena, b: Arena, cells: set<nat>)
  {
    forall i <- cells :: InUse(a, i) && InUse(b, i) && b.nodes[i] == a.nodes[i]
  }

  class NodeStorage {
    var nodes: seq<Stored>
    var freeIndices: seq<nat>

    function View(): Arena
      reads this
    {
      Arena(nodes, freeIndices)
    }

    constructor ()
      ensures View() == Arena([], [])
    {
      nodes, freeIndices := [], [];
    }

    /** Allocates the oldest free cell, or a new one. */
    method Alloc(stored: Stored) returns (index: nat)
      requires ArenaOk(View())
      modifies this
      ensures ArenaOk(View()) && InUse(View(), index) && View().nodes[index] == stored
      ensures forall i: nat | InUse(old(View()), i) ::
                i != index && InUse(View(), i) && View().nodes[i] == old(View()).nodes[i]
      ensures Used(View()) == Used(old(View())) + 1
    {
      if freeIndices != [] {
        index := freeIndices[0];
        assert index in View().free;
        freeIndices := freeIndices[1..];
        nodes := nodes[index := stored];
        assert forall i <- freeIndices :: i in old(freeIndices);
      } else {
        nodes := nodes + [stored];
        index := |nodes| - 1;
      }
    }

    /** Frees a cell and hands out what it held. */
    method Destroy(index: nat) returns (stored: Stored)
      requires ArenaOk(View()) && InUse(View(), index)
      modifies this
      ensures ArenaOk(View()) && stored == old(View()).nodes[index]
      ensures forall i: nat | InUse(old(View()), i) && i != index ::
                InUse(View(), i) && View().nodes[i] == old(View()).nodes[i]
      ensures Used(View()) == Used(old(View())) - 1
    {
      freeIndices := freeIndices + [index];
      stored := nodes[index];
      nodes := nodes[index := New(EmptyNode)];
    }
  }

  // ---------------------------------------------------------------- shapes

  /** What a handle stands for: a tree still in the store only, or a node in a cell of the arena,
      with the hash it was loaded under if it has not changed since. */
  datatype Shape = Unloaded(hash: H256, tree: Tree) | Mem(index: nat, origin: Option<H256>, node: GNode)

  /** A node whose children are shapes. */
  datatype GNode =
    | GEmpty
    | GLeaf(key: Bytes, value: Bytes)
    | GBranch(height: nat, key: Bytes, left: Shape, right: Shape)

  function HandleOf(s: Shape): NodeHandle
  {
    match s
    case Unloaded(h, _) => HashOf(h)
    case Mem(i, _, _) => InMemory(i)
  }

  function NodeOf(g: GNode): Node
  {
    match g
    case GEmpty => EmptyNode
    case GLeaf(k, v) => LeafNode(k, v)
    case GBranch(h, k, l, r) => BranchNode(h, k, Some(HandleOf(l)), Some(HandleOf(r)))
  }

  function StoredOf(origin: Option<H256>, g: GNode): Stored
  {
    if origin.Some? then Cached(NodeOf(g), origin.value) else New(NodeOf(g))
  }

  /** The tree a shape stands for. */
  function Abs(s: Shape): Tree
  {
    match s
    case Unloaded(_, t) => t
    case Mem(_, _, g) => NodeAbs(g)
  }

  function NodeAbs(g: GNode): Tree
  {
    match g
    case GEmpty => Empty
    case GLeaf(k, v) => Leaf(k, v)
    case GBranch(h, k, l, r) => Branch(h, k, Abs(l), Abs(r))
  }

  /** The cells a shape occupies. */
  function Cells(s: Shape): set<nat>
  {
    match s
    case Unloaded(_, _) => {}
    case Mem(i, _, g) => {i} + NodeCells(g)
  }

  function NodeCells(g: GNode): set<nat>
  {
    if g.GBranch? then Cells(g.left) + Cells(g.right) else {}
  }

  function CellCount(s: Shape): nat
  {
    match s
    case Unloaded(_, _) => 0
    case Mem(_, _, g) => 1 + NodeCellCount(g)
  }

  function NodeCellCount(g: GNode): nat
  {
    if g.GBranch? then CellCount(g.left) + CellCount(g.right) else 0
  }

  /** The cells of the shape are in use, hold its nodes, and are referred to once each. */
  ghost predicate Owns(a: Arena, s: Shape)
  {
    s.Mem? ==>
      && InUse(a, s.index) && a.nodes[s.index] == StoredOf(s.origin, s.node)
      && s.index !in NodeCells(s.node) && NodeOwns(a, s.node)
  }

  ghost predicate NodeOwns(a: Arena, g: GNode)
  {
    g.GBranch? ==> Owns(a, g.left) && Owns(a, g.right) && Cells(g.left) !! Cells(g.right)
  }

  lemma {:induction false} OwnedCellsInUse(a: Arena, s: Shape)
    requires Owns(a, s)
    ensures forall i <- Cells(s) :: InUse(a, i)
    decreases s
  {
    if s.Mem? {
      NodeCellsInUse(a, s.node);
    }
  }

  lemma {:induction false} NodeCellsInUse(a: Arena, g: GNode)
    requires NodeOwns(a, g)
    ensures forall i <- NodeCells(g) :: InUse(a, i)
    decreases g
  {
    if g.GBranch? {
      OwnedCellsInUse(a, g.left);
      OwnedCellsInUse(a, g.right);
    }
  }

  /** A shape stays owned as long as its cells are preserved. */
  lemma {:induction false} PreservedOwns(a: Arena, b: Arena, keep: set<nat>, s: Shape)
    requires Preserved(a, b, keep) && Owns(a, s) && Cells(s) <= keep
    ensures Owns(b, s)
    decreases s
  {
    if s.Mem? {
      PreservedNodeOwns(a, b, keep, s.node);
    }
  }

  lemma {:induction false} PreservedNodeOwns(a: Arena, b: Arena, keep: set<nat>, g: GNode)
    requires Preserved(a, b, keep) && NodeOwns(a, g) && NodeCells(g) <= keep
    ensures NodeOwns(b, g)
    decreases g
  {
    if g.GBranch? {
      PreservedOwns(a, b, keep, g.left);
      PreservedOwns(a, b, keep, g.right);
    }
  }

  lemma {:induction false} CountOfCells(a: Arena, s: Shape)
    requires Owns(a, s)
    ensures |Cells(s)| == CellCount(s)
    decreases s
  {
    if s.Mem? {
      CountOfNodeCells(a, s.node);
    }
  }

  lemma {:induction false} CountOfNodeCells(a: Arena, g: GNode)
    requires NodeOwns(a, g)
    ensures |NodeCells(g)| == NodeCellCount(g)
    decreases g
  {
    if g.GBranch? {
      CountOfCells(a, g.left);
      CountOfCells(a, g.right);
    }
  }

  lemma LastOnce(s: seq<nat>)
    requires s != [] && forall i, j | 0 <= i < j < |s| :: s[i] != s[j]
    ensures s[|s| - 1] !in s[..|s| - 1]
    ensures forall i :: i in s <==> i in s[..|s| - 1] || i == s[|s| - 1]
  {
    assert s == s[..|s| - 1] + [s[|s| - 1]];
  }

  lemma {:induction false} AsSet(free: seq<nat>) returns (s: set<nat>)
    requires forall i, j | 0 <= i < j < |free| :: free[i] != free[j]
    ensures |s| == |free| && forall i :: i in s <==> i in free
    decreases |free|
  {
    if free == [] {
      s := {};
    } else {
      var rest, last := free[..|free| - 1], free[|free| - 1];
      var others := AsSet(rest);
      s := others + {last};
      LastOnce(free);
    }
  }

  lemma {:induction false} AllBelow(n: nat) returns (s: set<nat>)
    ensures |s| == n && forall i: nat :: i in s <==> i < n
  {
    s := {};
    if n > 0 {
      s := AllBelow(n - 1);
      s := s + {n - 1};
    }
  }

  lemma CellsInUse(a: Arena) returns (cells: set<nat>)
    requires ArenaOk(a)
    ensures |cells| == Used(a) && forall i: nat :: i in cells <==> InUse(a, i)
  {
    var all := AllBelow(|a.nodes|);
    var free := AsSet(a.free);
    cells := all - free;
    assert cells + free == all;
  }

  lemma SubsetOfSize(small: set<nat>, large: set<nat>)
    requires small <= large && |small| == |large|
    ensures small == large
  {
    var rest := large - small;
    assert large == small + rest;
    assert |large| == |small| + |rest|;
  }

  /** When as many cells are in use as the shape has, every cell in use is one of the shape's. */
  lemma NothingIsLeaked(a: Arena, s: Shape)
    requires ArenaOk(a) && Owns(a, s) && Used(a) == CellCount(s)
    ensures forall i: nat :: InUse(a, i) <==> i in Cells(s)
  {
    var cells := CellsInUse(a);
    OwnedCellsInUse(a, s);
    CountOfCells(a, s);
    SubsetOfSize(Cells(s), cells);
  }

  // ---------------------------------------------------------------- what a commit strands

  /** The cells below unchanged nodes, which a commit of s does not visit. */
  function Stranded(s: Shape): nat
  {
    match s
    case Unloaded(_, _) => 0
    case Mem(_, o, g) => if o.Some? then NodeCellCount(g) else NodeStranded(g)
  }

  function NodeStranded(g: GNode): nat
  {
    if g.GBranch? then Stranded(g.left) + Stranded(g.right) else 0
  }
}
