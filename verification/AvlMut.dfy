/** The mutable tree: nodes are taken out of an arena, changed, and put back; nodes not yet in
    memory are loaded from the store when they are needed. */
module AvlMut {
  import opened Bytes
  import opened Rlp
  import opened Order
  import opened HashDb
  import opened AvlTree
  import AvlRemoval
  import opened AvlTheorems
  import opened AvlNode
  import opened AvlStorage
  import opened AvlBacking
  import opened AvlAccounts
  import opened AvlLookup
  import RlpStream

  function Child(n: Node, side: nat): Option<NodeHandle>
    requires n.BranchNode?
  {
    if side == 0 then n.left else n.right
  }

  function WithChild(n: Node, side: nat, h: Option<NodeHandle>): Node
    requires n.BranchNode?
  {
    if side == 0 then n.(left := h) else n.(right := h)
  }

  function Kid(g: GNode, side: nat): Shape
    requires g.GBranch?
  {
    if side == 0 then g.left else g.right
  }

  function WithKid(g: GNode, side: nat, s: Shape): GNode
    requires g.GBranch?
  {
    if side == 0 then g.(left := s) else g.(right := s)
  }

  /** The height stored in a node. */
  function NodeHeight(n: Node): nat
  {
    match n
    case EmptyNode => 0
    case LeafNode(_, _) => 1
    case BranchNode(h, _, _, _) => h
  }

  /** Looking a key up in the tree is looking it up in the map. */
  ghost predicate Refines(t: Tree, m: map<Bytes, Bytes>)
  {
    forall q :: Lookup(t, q) == MapGet(m, q)
  }

  lemma InsertRefines(t: Tree, m: map<Bytes, Bytes>, key: Bytes, value: Bytes)
    requires Sound(t) && Ordered(t, 0.0, 1.0) && Refines(t, m)
    ensures var r := AvlTree.Insert(t, key, value);
            Ordered(r.tree, 0.0, 1.0) && Refines(r.tree, m[key := value]) && r.previous == MapGet(m, key)
  {
    var r := AvlTree.Insert(t, key, value);
    InsertMeetsMap(t, key, value, 0.0, 1.0, key);
    forall q
      ensures Lookup(r.tree, q) == MapGet(m[key := value], q)
    {
      InsertMeetsMap(t, key, value, 0.0, 1.0, q);
    }
  }

  lemma RemoveRefines(t: Tree, m: map<Bytes, Bytes>, key: Bytes)
    requires Sound(t) && Ordered(t, 0.0, 1.0) && Refines(t, m)
    ensures Ordered(Removed(t, key), 0.0, 1.0) && Refines(Removed(t, key), m - {key})
  {
    RemoveMeetsMap(t, key, 0.0, 1.0, key);
    forall q
      ensures Lookup(Removed(t, key), q) == MapGet(m - {key}, q)
    {
      RemoveMeetsMap(t, key, 0.0, 1.0, q);
      assert LostKey(t, Removed(t, key), key, 0.0, 1.0, q);
    }
  }

  /** The tree a handle and the store stand for, together with what is on death row. */
  ghost predicate Editing(w: World, a: Arena, s: Shape, deathRow: set<H256>, dead: set<Tree>,
                          contents: map<Bytes, Bytes>)
  {
    && NoCollisions(w.hash, w.universe) && DbOk(w.hash, w.universe, w.db)
    && ArenaOk(a) && Owns(a, s) && Backed(w, s)
    && (s.Mem? ==> !Abs(s).Empty?)
    && Sound(Abs(s)) && Ordered(Abs(s), 0.0, 1.0) && Refines(Abs(s), contents)
    && Buried(w, deathRow, dead) && dead !! Live(w.hash, s)
  }

  /** After an insertion. */
  lemma SetIsEditing(w: World, a: Arena, s: Shape, deathRow: set<H256>, dead: set<Tree>,
                     contents: map<Bytes, Bytes>, key: Bytes, value: Bytes,
                     a': Arena, s': Shape, deathRow': set<H256>, dead': set<Tree>)
    requires Editing(w, a, s, deathRow, dead, contents) && Abs(s') == AvlTree.Insert(Abs(s), key, value).tree
    requires ArenaOk(a') && Owns(a', s') && Backed(w, s')
    requires Buried(w, deathRow', dead') && Dies(dead, Live(w.hash, s), dead', Live(w.hash, s'))
    ensures Editing(w, a', s', deathRow', dead', contents[key := value])
    ensures AvlTree.Insert(Abs(s), key, value).previous == MapGet(contents, key)
  {
    InsertRefines(Abs(s), contents, key, value);
  }

  /** After a removal that leaves something. */
  lemma KeptIsEditing(w: World, a: Arena, s: Shape, deathRow: set<H256>, dead: set<Tree>,
                      contents: map<Bytes, Bytes>, key: Bytes,
                      a': Arena, s': Shape, deathRow': set<H256>, dead': set<Tree>)
    requires Editing(w, a, s, deathRow, dead, contents) && AvlTree.Remove(Abs(s), key).Kept?
    requires ArenaOk(a') && Owns(a', s') && Backed(w, s') && Abs(s') == AvlTree.Remove(Abs(s), key).tree
    requires Buried(w, deathRow', dead') && Dies(dead, Live(w.hash, s), dead', Live(w.hash, s'))
    ensures Editing(w, a', s', deathRow', dead', contents - {key})
    ensures Abs(s') == Removed(Abs(s), key)
  {
    RemoveRefines(Abs(s), contents, key);
  }

  /** After a removal that leaves nothing. */
  lemma DeletedIsEditing(w: World, a: Arena, s: Shape, deathRow: set<H256>, dead: set<Tree>,
                         contents: map<Bytes, Bytes>, key: Bytes, a': Arena, deathRow': set<H256>, dead': set<Tree>)
    requires Editing(w, a, s, deathRow, dead, contents) && AvlTree.Remove(Abs(s), key).Deleted?
    requires ArenaOk(a') && Buried(w, deathRow', dead')
    ensures var s' := Unloaded(w.hash(NULL_RLP), Empty);
            Editing(w, a', s', deathRow', dead', contents - {key}) && Removed(Abs(s), key) == Empty
  {
    RemoveRefines(Abs(s), contents, key);
  }

  /** After everything has been written. */
  lemma CommittedIsEditing(w: World, t: Tree, contents: map<Bytes, Bytes>, a: Arena, root: H256)
    requires NoCollisions(w.hash, w.universe) && DbOk(w.hash, w.universe, w.db) && ArenaOk(a)
    requires Sound(t) && Ordered(t, 0.0, 1.0) && Refines(t, contents)
    requires root == HashOfTree(w.hash, t) && InStore(w, t)
    ensures Editing(w, a, Unloaded(root, t), {}, {}, contents)
  {
  }

  class AVLDBMut {
    const hash: Hasher
    ghost const universe: iset<Bytes>
    const storage: NodeStorage
    var db: Db
    var root: H256
    var rootHandle: NodeHandle
    var deathRow: set<H256>
    var hashCount: nat
    ghost var dead: set<Tree>
    ghost var shape: Shape
    ghost var contents: map<Bytes, Bytes>

    ghost function W(): World
      reads this
    {
      World(hash, universe, db)
    }

    function A(): Arena
      reads storage
    {
      storage.View()
    }

    /** The shape is ours and apart from the cells to keep. */
    ghost predicate Holding(s: Shape, keep: set<nat>)
      reads this, storage
    {
      && ArenaOk(A()) && AllInUse(A(), keep)
      && Owns(A(), s) && Cells(s) !! keep && Backed(W(), s)
    }

    /** The same for a node that has been taken out of its cell. */
    ghost predicate NodeHolding(g: GNode, keep: set<nat>)
      reads this, storage
    {
      && ArenaOk(A()) && AllInUse(A(), keep)
      && NodeOwns(A(), g) && NodeCells(g) !! keep && NodeBacked(W(), g)
    }

    /** The tree being edited. */
    ghost function Tree(): Tree
      reads this
    {
      Abs(shape)
    }

    /** The cells in use that are not the tree's. */
    ghost function Leaked(): int
      reads this, storage
    {
      Used(A()) - CellCount(shape)
    }

    ghost predicate Valid()
      reads this, storage
    {
      && Editing(W(), A(), shape, deathRow, dead, contents)
      && rootHandle == HandleOf(shape) && (shape.Unloaded? ==> root == shape.hash)
    }

    /** An empty tree on top of a store. */
    constructor (hash: Hasher, db: Db, ghost universe: iset<Bytes>)
      requires NoCollisions(hash, universe) && DbOk(hash, universe, db)
      ensures Valid() && fresh(storage) && Tree() == Empty && contents == map[]
      ensures this.hash == hash && this.universe == universe && this.db == db && deathRow == {}
      ensures Leaked() == 0
    {
      this.hash, this.universe, this.db := hash, universe, db;
      storage := new NodeStorage();
      root := hash(NULL_RLP);
      rootHandle := HashOf(hash(NULL_RLP));
      deathRow, hashCount := {}, 0;
      dead, shape, contents := {}, Unloaded(hash(NULL_RLP), Empty), map[];
    }

    /** The tree a store holds under a root, if it has that root. */
    static method FromExisting(hash: Hasher, db: Db, root: H256,
                               ghost universe: iset<Bytes>, ghost t: Tree, ghost contents: map<Bytes, Bytes>)
      returns (r: Result<AVLDBMut, AVLError>)
      requires Names(hash, universe, db, root, t) && LowHeights(t)
      requires Ordered(t, 0.0, 1.0) && Refines(t, contents)
      requires HashDb.Get(hash, db, root).Some? ==> StoredBelow(hash, db, t)
      ensures r.Err? <==> HashDb.Get(hash, db, root).None?
      ensures r.Err? ==> r.error == InvalidStateRoot(root)
      ensures r.Ok? ==>
                && r.value.Valid() && fresh(r.value) && fresh(r.value.storage) && r.value.Leaked() == 0
                && r.value.Tree() == t && r.value.contents == contents
                && r.value.hash == hash && r.value.universe == universe && r.value.db == db && r.value.deathRow == {}
    {
      if HashDb.Get(hash, db, root).None? {
        return Err(InvalidStateRoot(root));
      }
      var tree := new AVLDBMut.OnRoot(hash, db, root, universe, t, contents);
      return Ok(tree);
    }

    constructor OnRoot(hash: Hasher, db: Db, root: H256,
                             ghost universe: iset<Bytes>, ghost t: Tree, ghost contents: map<Bytes, Bytes>)
      requires Names(hash, universe, db, root, t) && Rooted(hash, universe, db, t)
      requires Ordered(t, 0.0, 1.0) && Refines(t, contents)
      ensures Valid() && fresh(storage) && Tree() == t && this.contents == contents
      ensures this.hash == hash && this.universe == universe && this.db == db && deathRow == {}
      ensures Leaked() == 0
    {
      this.hash, this.universe, this.db, this.root := hash, universe, db, root;
      storage := new NodeStorage();
      rootHandle := HashOf(root);
      deathRow, hashCount := {}, 0;
      dead, shape, this.contents := {}, Unloaded(root, t), contents;
    }

    // -------------------------------------------------------------- loading

    /** Reads a node; inlined children are read along with it, hashed ones stay in the store. */
    method FromRlp(rlp: Bytes, ghost t: Tree, ghost keep: set<nat>) returns (node: Node, ghost g: GNode)
      requires rlp == NodeRlp(hash, t)
      requires StoredBelow(hash, db, t) && Storable(hash, t) && Within(hash, universe, t) && Sound(t)
      requires ArenaOk(A()) && AllInUse(A(), keep)
      modifies storage
      ensures NodeHolding(g, keep) && Preserved(old(A()), A(), keep)
      ensures node == NodeOf(g) && NodeAbs(g) == t && NodeLive(hash, g) <= Below(hash, t)
      ensures Used(A()) == old(Used(A())) + NodeCellCount(g)
      ensures AsStored(hash, g)
      decreases t, 0
    {
      DecodedNode(hash, t);
      match Decoded(rlp).value
      case RawEmpty => node, g := EmptyNode, GEmpty;
      case RawLeaf(k, v) => node, g := LeafNode(k, v), GLeaf(k, v);
      case RawBranch(h, k, ls, rs) =>
        var left, right: Option<NodeHandle> := None, None;
        ghost var l, r;
        SlotIsWhole(hash, t.left);
        SlotIsWhole(hash, t.right);
        if !Rlp.IsEmpty(ls) {
          var handle;
          handle, l := InlineOrHash(ls, t.left, keep);
          left := Some(handle);
        }
        OwnedCellsInUse(A(), l);
        ghost var before := A();
        if !Rlp.IsEmpty(rs) {
          var handle;
          handle, r := InlineOrHash(rs, t.right, keep + Cells(l));
          right := Some(handle);
        }
        PreservedOwns(before, A(), keep + Cells(l), l);
        node, g := BranchNode(h, k, left, right), GBranch(h, k, l, r);
    }

    /** A slot of 32 bytes of data is a hash to look up later; any other slot is the node itself. */
    method InlineOrHash(slot: Bytes, ghost t: Tree, ghost keep: set<nat>)
      returns (handle: NodeHandle, ghost s: Shape)
      requires slot == Slot(hash, t) && !t.Empty?
      requires IsBig(hash, t) ==> Holds(hash, db, NodeRlp(hash, t))
      requires StoredBelow(hash, db, t) && Storable(hash, t) && Within(hash, universe, t) && Sound(t)
      requires ArenaOk(A()) && AllInUse(A(), keep)
      modifies storage
      ensures Holding(s, keep) && Preserved(old(A()), A(), keep)
      ensures handle == HandleOf(s) && Abs(s) == t && Live(hash, s) <= KeptFrom(hash, t)
      ensures Hashed(s) ==> IsBig(hash, t)
      ensures Used(A()) == old(Used(A())) + CellCount(s)
      ensures KidAsStored(hash, s)
      decreases t, 1
    {
      SlotIsWhole(hash, t);
      if IsHashSlot(slot) {
        var h := DecodeHash(slot).value;
        handle, s := HashOf(h), Unloaded(h, t);
      } else {
        var node;
        ghost var g;
        node, g := FromRlp(slot, t, keep);
        NodeCellsInUse(A(), g);
        ghost var before := A();
        var index := storage.Alloc(New(node));
        PreservedNodeOwns(before, A(), NodeCells(g), g);
        handle, s := InMemory(index), Mem(index, None, g);
      }
    }

    /** Loads the node with hash h into a cell. */
    method Cache(h: H256, ghost t: Tree, ghost keep: set<nat>) returns (r: Result<nat, AVLError>, ghost s: Shape)
      requires h == HashOfTree(hash, t) && (HashDb.Get(hash, db, h).Some? ==> InStore(W(), t))
      requires ArenaOk(A()) && AllInUse(A(), keep)
      modifies storage
      ensures r.Err? <==> HashDb.Get(hash, db, h).None?
      ensures r.Err? ==> r.error == IncompleteDatabase(h) && A() == old(A())
      ensures r.Ok? ==>
                && Holding(s, keep) && Preserved(old(A()), A(), keep)
                && s.Mem? && s.index == r.value && s.origin == Some(h) && Abs(s) == t
                && Live(hash, s) <= Live(hash, Unloaded(h, t))
      ensures r.Ok? ==> Used(A()) == old(Used(A())) + CellCount(s)
      ensures r.Ok? ==> AsStored(hash, s.node)
    {
      var found := HashDb.Get(hash, db, h);
      if found.None? {
        return Err(IncompleteDatabase(h)), Unloaded(h, t);
      }
      var rlp := found.value;
      var node;
      ghost var g;
      node, g := FromRlp(rlp, t, keep);
      NodeCellsInUse(A(), g);
      ghost var before := A();
      var index := storage.Alloc(Cached(node, h));
      PreservedNodeOwns(before, A(), NodeCells(g), g);
      s := Mem(index, Some(h), g);
      r := Ok(index);
    }

    /** The cell behind a handle, loading it first if need be. */
    method Load(handle: NodeHandle, ghost s: Shape, ghost keep: set<nat>) returns (index: nat, ghost s': Shape)
      requires handle == HandleOf(s) && Holding(s, keep)
      modifies storage
      ensures Holding(s', keep) && Preserved(old(A()), A(), keep)
      ensures s'.Mem? && s'.index == index && Abs(s') == Abs(s) && Hashed(s') == Hashed(s)
      ensures Live(hash, s') <= Live(hash, s)
      ensures Used(A()) - CellCount(s') == old(Used(A())) - CellCount(s)
      ensures s.Mem? ==> s' == s
      ensures s.Unloaded? ==> s'.origin == Some(s.hash) && AsStored(hash, s'.node)
    {
      match handle
      case InMemory(i) => index, s' := i, s;
      case HashOf(h) =>
        var cached;
        cached, s' := Cache(h, s.tree, keep);
        index := cached.value;
    }

    /** Takes the node behind a handle out of its cell, loading it first if need be. */
    method TakeOut(handle: NodeHandle, ghost s: Shape, ghost keep: set<nat>) returns (stored: Stored, ghost s': Shape)
      requires handle == HandleOf(s) && Holding(s, keep)
      modifies storage
      ensures s'.Mem? && stored == StoredOf(s'.origin, s'.node)
      ensures NodeHolding(s'.node, keep) && Preserved(old(A()), A(), keep)
      ensures Abs(s') == Abs(s) && Hashed(s') == Hashed(s) && Live(hash, s') <= Live(hash, s) && Backed(W(), s')
      ensures Used(A()) - NodeCellCount(s'.node) == old(Used(A())) - CellCount(s)
      ensures s.Mem? ==> s' == s
      ensures s.Unloaded? ==> s'.origin == Some(s.hash) && AsStored(hash, s'.node)
    {
      var index;
      index, s' := Load(handle, s, keep);
      NodeCellsInUse(A(), s'.node);
      ghost var before := A();
      stored := storage.Destroy(index);
      PreservedNodeOwns(before, A(), NodeCells(s'.node), s'.node);
    }

    /** Takes a child out of a node and out of its cell. */
    method ChildDestroy(node: Node, side: nat, ghost kid: Shape, ghost keep: set<nat>)
      returns (node': Node, child: Node, ghost g: GNode)
      requires side < 2 && node.BranchNode? && Child(node, side) == Some(HandleOf(kid)) && Holding(kid, keep)
      modifies storage
      ensures NodeHolding(g, keep) && Preserved(old(A()), A(), keep)
      ensures node' == WithChild(node, side, None)
      ensures child == NodeOf(g) && NodeAbs(g) == Abs(kid) && NodeLive(hash, g) <= Live(hash, kid)
      ensures Used(A()) - NodeCellCount(g) == old(Used(A())) - CellCount(kid)
    {
      node' := WithChild(node, side, None);
      var stored;
      ghost var s;
      stored, s := TakeOut(Child(node, side).value, kid, keep);
      child, g := stored.node, s.node;
    }

    /** The height of a child, which is loaded to find out. Anything but a branch has children of height 0. */
    method ChildHeight(node: Node, side: nat, ghost g: GNode, ghost keep: set<nat>)
      returns (node': Node, height: nat, ghost g': GNode)
      requires side < 2 && node == NodeOf(g) && NodeHolding(g, keep)
      modifies storage
      ensures NodeHolding(g', keep) && Preserved(old(A()), A(), keep)
      ensures node' == NodeOf(g') && NodeAbs(g') == NodeAbs(g) && NodeLive(hash, g') <= NodeLive(hash, g)
      ensures height == if side == 0 then LeftHeight(NodeAbs(g)) else RightHeight(NodeAbs(g))
      ensures Used(A()) - NodeCellCount(g') == old(Used(A())) - NodeCellCount(g)
    {
      if !node.BranchNode? {
        return node, 0, g;
      }
      ghost var other := Kid(g, 1 - side);
      var index;
      ghost var s;
      OwnedCellsInUse(A(), other);
      index, s := Load(Child(node, side).value, Kid(g, side), keep + Cells(other));
      PreservedOwns(old(A()), A(), keep + Cells(other), other);
      height := NodeHeight(storage.nodes[index].node);
      node', g' := WithChild(node, side, Some(InMemory(index))), WithKid(g, side, s);
    }

    // -------------------------------------------------------------- rotations

    /** k2 becomes the root and takes over the height of k1; k1 has lost its left child already. */
    method LeftRotate(k1: Node, k2: Node, ghost g2: GNode, ghost rest: Shape, ghost keep: set<nat>)
      returns (node: Node, ghost g: GNode)
      requires k1.BranchNode? && k1.height >= 1 && k1.right == Some(HandleOf(rest))
      requires g2.GBranch? && k2 == NodeOf(g2)
      requires NodeHolding(g2, keep) && Holding(rest, keep) && Cells(rest) !! NodeCells(g2)
      requires Hashed(rest) ==> IsBig(hash, Abs(rest))
      modifies storage
      ensures NodeHolding(g, keep) && Preserved(old(A()), A(), keep) && node == NodeOf(g)
      ensures NodeAbs(g) == Branch(k1.height, g2.key, Abs(g2.left),
                                   Branch(k1.height - 1, k1.key, Abs(g2.right), Abs(rest)))
      ensures NodeLive(hash, g) <= NodeLive(hash, g2) + Live(hash, rest)
      ensures Used(A()) - NodeCellCount(g) == old(Used(A())) - NodeCellCount(g2) - CellCount(rest)
    {
      NodeCellsInUse(A(), g2);
      OwnedCellsInUse(A(), rest);
      var lowered := k1.(height := k1.height - 1, left := k2.right);
      var index := storage.Alloc(New(lowered));
      PreservedNodeOwns(old(A()), A(), NodeCells(g2), g2);
      PreservedOwns(old(A()), A(), Cells(rest), rest);
      node := k2.(height := k1.height, right := Some(InMemory(index)));
      ghost var low := GBranch(k1.height - 1, k1.key, g2.right, rest);
      assert NodeOwns(A(), low) && NodeBacked(W(), low) && NodeCells(low) == Cells(g2.right) + Cells(rest);
      ghost var down := Mem(index, None, low);
      assert Owns(A(), down) && Backed(W(), down) && Abs(down) == NodeAbs(low);
      assert Live(hash, down) == Live(hash, g2.right) + Live(hash, rest);
      assert CellCount(down) == 1 + CellCount(g2.right) + CellCount(rest);
      g := GBranch(k1.height, g2.key, g2.left, down);
    }

    /** The mirror image. */
    method RightRotate(k1: Node, k2: Node, ghost g2: GNode, ghost rest: Shape, ghost keep: set<nat>)
      returns (node: Node, ghost g: GNode)
      requires k1.BranchNode? && k1.height >= 1 && k1.left == Some(HandleOf(rest))
      requires g2.GBranch? && k2 == NodeOf(g2)
      requires NodeHolding(g2, keep) && Holding(rest, keep) && Cells(rest) !! NodeCells(g2)
      requires Hashed(rest) ==> IsBig(hash, Abs(rest))
      modifies storage
      ensures NodeHolding(g, keep) && Preserved(old(A()), A(), keep) && node == NodeOf(g)
      ensures NodeAbs(g) == Branch(k1.height, g2.key, Branch(k1.height - 1, k1.key, Abs(rest), Abs(g2.left)),
                                   Abs(g2.right))
      ensures NodeLive(hash, g) <= NodeLive(hash, g2) + Live(hash, rest)
      ensures Used(A()) - NodeCellCount(g) == old(Used(A())) - NodeCellCount(g2) - CellCount(rest)
    {
      NodeCellsInUse(A(), g2);
      OwnedCellsInUse(A(), rest);
      var lowered := k1.(height := k1.height - 1, right := k2.left);
      var index := storage.Alloc(New(lowered));
      PreservedNodeOwns(old(A()), A(), NodeCells(g2), g2);
      PreservedOwns(old(A()), A(), Cells(rest), rest);
      node := k2.(height := k1.height, left := Some(InMemory(index)));
      ghost var low := GBranch(k1.height - 1, k1.key, rest, g2.left);
      assert NodeOwns(A(), low) && NodeBacked(W(), low) && NodeCells(low) == Cells(rest) + Cells(g2.left);
      ghost var down := Mem(index, None, low);
      assert Owns(A(), down) && Backed(W(), down) && Abs(down) == NodeAbs(low);
      assert Live(hash, down) == Live(hash, rest) + Live(hash, g2.left);
      assert CellCount(down) == 1 + CellCount(rest) + CellCount(g2.left);
      g := GBranch(k1.height, g2.key, down, g2.right);
    }

    /** Takes a child out of a node whose other child stays where it is. */
    method DetachChild(node: Node, side: nat, ghost g: GNode, ghost keep: set<nat>)
      returns (node': Node, child: Node, ghost gc: GNode)
      requires side < 2 && node == NodeOf(g) && g.GBranch? && NodeHolding(g, keep)
      modifies storage
      ensures node' == WithChild(node, side, None)
      ensures Preserved(old(A()), A(), keep) && NodeHolding(gc, keep + Cells(Kid(g, 1 - side)))
      ensures Holding(Kid(g, 1 - side), keep)
      ensures NodeHolding(gc, keep) && Cells(Kid(g, 1 - side)) !! NodeCells(gc)
      ensures child == NodeOf(gc) && NodeAbs(gc) == Abs(Kid(g, side))
      ensures NodeLive(hash, gc) <= Live(hash, Kid(g, side))
      ensures Used(A()) - NodeCellCount(gc) == old(Used(A())) - CellCount(Kid(g, side))
    {
      ghost var other := Kid(g, 1 - side);
      OwnedCellsInUse(A(), other);
      node', child, gc := ChildDestroy(node, side, Kid(g, side), keep + Cells(other));
      PreservedOwns(old(A()), A(), keep + Cells(other), other);
    }

    /** Before a left rotation: a left child leaning right is rotated the other way first. */
    method MakeLeftLean(k2: Node, ghost g2: GNode, ghost keep: set<nat>) returns (node: Node, ghost g: GNode)
      requires k2 == NodeOf(g2) && g2.GBranch? && NodeHolding(g2, keep)
      requires var t := NodeAbs(g2); LeftHeight(t) < RightHeight(t) ==> t.height >= 1 && t.right.Branch?
      modifies storage
      ensures NodeHolding(g, keep) && Preserved(old(A()), A(), keep) && node == NodeOf(g)
      ensures var t := NodeAbs(g2);
              NodeAbs(g) == if LeftHeight(t) < RightHeight(t) then AvlTree.RightRotate(t, t.right) else t
      ensures NodeLive(hash, g) <= NodeLive(hash, g2)
      ensures Used(A()) - NodeCellCount(g) == old(Used(A())) - NodeCellCount(g2)
    {
      var lh, rh;
      node, lh, g := ChildHeight(k2, 0, g2, keep);
      node, rh, g := ChildHeight(node, 1, g, keep);
      if lh < rh {
        node, g := RightRotateChild(node, g, keep);
      }
    }

    /** Takes out a child and rotates it above its parent. */
    method RightRotateChild(k1: Node, ghost g1: GNode, ghost keep: set<nat>) returns (node: Node, ghost g: GNode)
      requires k1 == NodeOf(g1) && NodeHolding(g1, keep)
      requires g1.GBranch? && g1.height >= 1 && Abs(g1.right).Branch?
      modifies storage
      ensures NodeHolding(g, keep) && Preserved(old(A()), A(), keep) && node == NodeOf(g)
      ensures NodeAbs(g) == AvlTree.RightRotate(NodeAbs(g1), Abs(g1.right))
      ensures NodeLive(hash, g) <= NodeLive(hash, g1)
      ensures Used(A()) - NodeCellCount(g) == old(Used(A())) - NodeCellCount(g1)
    {
      var k1', k2;
      ghost var g2;
      ghost var rest, kid := g1.left, g1.right;
      assert NodeLive(hash, g1) == Live(hash, rest) + Live(hash, kid);
      assert Hashed(rest) ==> IsBig(hash, Abs(rest));
      k1', k2, g2 := DetachChild(k1, 1, g1, keep);
      assert NodeAbs(g2) == Branch(g2.height, g2.key, Abs(g2.left), Abs(g2.right));
      node, g := RightRotate(k1', k2, g2, rest, keep);
    }

    /** Rotates a detached left child, straightened first, above its parent. */
    method LeftRotateDetached(k1: Node, k2: Node, ghost g2: GNode, ghost rest: Shape, ghost keep: set<nat>)
      returns (node: Node, ghost g: GNode)
      requires k1.BranchNode? && k1.height >= 1 && k1.right == Some(HandleOf(rest))
      requires k2 == NodeOf(g2) && g2.GBranch?
      requires NodeHolding(g2, keep + Cells(rest)) && Holding(rest, keep)
      requires Hashed(rest) ==> IsBig(hash, Abs(rest))
      requires var t := NodeAbs(g2); LeftHeight(t) < RightHeight(t) ==> t.height >= 1 && t.right.Branch?
      modifies storage
      ensures NodeHolding(g, keep) && Preserved(old(A()), A(), keep) && node == NodeOf(g)
      ensures var t := NodeAbs(g2);
              var k2t := if LeftHeight(t) < RightHeight(t) then AvlTree.RightRotate(t, t.right) else t;
              NodeAbs(g) == Branch(k1.height, k2t.key, k2t.left, Branch(k1.height - 1, k1.key, k2t.right, Abs(rest)))
      ensures NodeLive(hash, g) <= NodeLive(hash, g2) + Live(hash, rest)
      ensures Used(A()) - NodeCellCount(g) == old(Used(A())) - NodeCellCount(g2) - CellCount(rest)
    {
      OwnedCellsInUse(A(), rest);
      var k2';
      ghost var g2';
      k2', g2' := MakeLeftLean(k2, g2, keep + Cells(rest));
      PreservedOwns(old(A()), A(), keep + Cells(rest), rest);
      node, g := LeftRotate(k1, k2', g2', rest, keep);
    }

    /** Rotates when the left child is too high. */
    method LeftRotateSuccessor(k1: Node, ghost g1: GNode, ghost keep: set<nat>) returns (node: Node, ghost g: GNode)
      requires k1 == NodeOf(g1) && NodeHolding(g1, keep) && CanRotateLeft(NodeAbs(g1))
      modifies storage
      ensures NodeHolding(g, keep) && Preserved(old(A()), A(), keep) && node == NodeOf(g)
      ensures NodeAbs(g) == AvlTree.LeftRotateSuccessor(NodeAbs(g1))
      ensures NodeLive(hash, g) <= NodeLive(hash, g1)
      ensures Used(A()) - NodeCellCount(g) == old(Used(A())) - NodeCellCount(g1)
    {
      var k1', k2;
      ghost var g2;
      k1', k2, g2 := DetachChild(k1, 0, g1, keep);
      node, g := LeftRotateDetached(k1', k2, g2, g1.right, keep);
    }

    /** The mirror image. */
    method MakeRightLean(k2: Node, ghost g2: GNode, ghost keep: set<nat>) returns (node: Node, ghost g: GNode)
      requires k2 == NodeOf(g2) && g2.GBranch? && NodeHolding(g2, keep)
      requires var t := NodeAbs(g2); RightHeight(t) < LeftHeight(t) ==> t.height >= 1 && t.left.Branch?
      modifies storage
      ensures NodeHolding(g, keep) && Preserved(old(A()), A(), keep) && node == NodeOf(g)
      ensures var t := NodeAbs(g2);
              NodeAbs(g) == if RightHeight(t) < LeftHeight(t) then AvlTree.LeftRotate(t, t.left) else t
      ensures NodeLive(hash, g) <= NodeLive(hash, g2)
      ensures Used(A()) - NodeCellCount(g) == old(Used(A())) - NodeCellCount(g2)
    {
      var lh, rh;
      node, lh, g := ChildHeight(k2, 0, g2, keep);
      node, rh, g := ChildHeight(node, 1, g, keep);
      if rh < lh {
        node, g := LeftRotateChild(node, g, keep);
      }
    }

    /** Takes out a child and rotates it above its parent. */
    method LeftRotateChild(k1: Node, ghost g1: GNode, ghost keep: set<nat>) returns (node: Node, ghost g: GNode)
      requires k1 == NodeOf(g1) && NodeHolding(g1, keep)
      requires g1.GBranch? && g1.height >= 1 && Abs(g1.left).Branch?
      modifies storage
      ensures NodeHolding(g, keep) && Preserved(old(A()), A(), keep) && node == NodeOf(g)
      ensures NodeAbs(g) == AvlTree.LeftRotate(NodeAbs(g1), Abs(g1.left))
      ensures NodeLive(hash, g) <= NodeLive(hash, g1)
      ensures Used(A()) - NodeCellCount(g) == old(Used(A())) - NodeCellCount(g1)
    {
      var k1', k2;
      ghost var g2;
      ghost var kid, rest := g1.left, g1.right;
      assert NodeLive(hash, g1) == Live(hash, kid) + Live(hash, rest);
      assert Hashed(rest) ==> IsBig(hash, Abs(rest));
      k1', k2, g2 := DetachChild(k1, 0, g1, keep);
      assert NodeAbs(g2) == Branch(g2.height, g2.key, Abs(g2.left), Abs(g2.right));
      node, g := LeftRotate(k1', k2, g2, rest, keep);
    }

    /** Rotates a detached right child, straightened first, above its parent. */
    method RightRotateDetached(k1: Node, k2: Node, ghost g2: GNode, ghost rest: Shape, ghost keep: set<nat>)
      returns (node: Node, ghost g: GNode)
      requires k1.BranchNode? && k1.height >= 1 && k1.left == Some(HandleOf(rest))
      requires k2 == NodeOf(g2) && g2.GBranch?
      requires NodeHolding(g2, keep + Cells(rest)) && Holding(rest, keep)
      requires Hashed(rest) ==> IsBig(hash, Abs(rest))
      requires var t := NodeAbs(g2); RightHeight(t) < LeftHeight(t) ==> t.height >= 1 && t.left.Branch?
      modifies storage
      ensures NodeHolding(g, keep) && Preserved(old(A()), A(), keep) && node == NodeOf(g)
      ensures var t := NodeAbs(g2);
              var k2t := if RightHeight(t) < LeftHeight(t) then AvlTree.LeftRotate(t, t.left) else t;
              NodeAbs(g) == Branch(k1.height, k2t.key, Branch(k1.height - 1, k1.key, Abs(rest), k2t.left), k2t.right)
      ensures NodeLive(hash, g) <= NodeLive(hash, g2) + Live(hash, rest)
      ensures Used(A()) - NodeCellCount(g) == old(Used(A())) - NodeCellCount(g2) - CellCount(rest)
    {
      OwnedCellsInUse(A(), rest);
      var k2';
      ghost var g2';
      k2', g2' := MakeRightLean(k2, g2, keep + Cells(rest));
      PreservedOwns(old(A()), A(), keep + Cells(rest), rest);
      node, g := RightRotate(k1, k2', g2', rest, keep);
    }

    /** Rotates when the right child is too high. */
    method RightRotateSuccessor(k1: Node, ghost g1: GNode, ghost keep: set<nat>) returns (node: Node, ghost g: GNode)
      requires k1 == NodeOf(g1) && NodeHolding(g1, keep) && CanRotateRight(NodeAbs(g1))
      modifies storage
      ensures NodeHolding(g, keep) && Preserved(old(A()), A(), keep) && node == NodeOf(g)
      ensures NodeAbs(g) == AvlTree.RightRotateSuccessor(NodeAbs(g1))
      ensures NodeLive(hash, g) <= NodeLive(hash, g1)
      ensures Used(A()) - NodeCellCount(g) == old(Used(A())) - NodeCellCount(g1)
    {
      var k1', k2;
      ghost var g2;
      k1', k2, g2 := DetachChild(k1, 1, g1, keep);
      node, g := RightRotateDetached(k1', k2, g2, g1.left, keep);
    }

    /** Restores the balance of a new node, or at least refreshes its height. */
    method RotateIfNecessary(node: Node, ghost g: GNode, ghost keep: set<nat>) returns (node': Node, ghost g': GNode)
      requires node == NodeOf(g) && NodeHolding(g, keep) && CanRebalance(NodeAbs(g))
      modifies storage
      ensures NodeHolding(g', keep) && Preserved(old(A()), A(), keep) && node' == NodeOf(g')
      ensures NodeAbs(g') == Rebalance(NodeAbs(g)) && NodeLive(hash, g') <= NodeLive(hash, g)
      ensures Used(A()) - NodeCellCount(g') == old(Used(A())) - NodeCellCount(g)
    {
      var lh, rh;
      node', lh, g' := ChildHeight(node, 0, g, keep);
      node', rh, g' := ChildHeight(node', 1, g', keep);
      if lh == 2 + rh {
        node', g' := LeftRotateSuccessor(node', g', keep);
      } else if rh == 2 + lh {
        node', g' := RightRotateSuccessor(node', g', keep);
      } else if node'.BranchNode? {
        var h := Max(lh, rh) + 1;
        node', g' := node'.(height := h), g'.(height := h);
      }
    }

    // -------------------------------------------------------------- insertion

    /** A node that was changed or deleted no longer matches what the store has under its hash. */
    method Bury(stored: Stored, ghost s: Shape)
      requires stored.Cached? ==> stored.hash == HashOfTree(hash, Abs(s)) && InStore(W(), Abs(s))
      requires Buried(W(), deathRow, dead)
      modifies this`deathRow, this`dead
      ensures Buried(W(), deathRow, dead)
      ensures dead == old(dead) + if stored.Cached? then NonEmpty(Abs(s)) else {}
      ensures deathRow == old(deathRow) + if stored.Cached? then {stored.hash} else {}
    {
      if stored.Cached? {
        deathRow := deathRow + {stored.hash};
        dead := dead + NonEmpty(Abs(s));
      }
    }

    /** Puts a node that is no longer what the store has into a new cell. */
    method Settle(node: Node, ghost g: GNode, ghost keep: set<nat>) returns (index: nat, ghost s: Shape)
      requires node == NodeOf(g) && NodeHolding(g, keep)
      modifies storage
      ensures Holding(s, keep) && Preserved(old(A()), A(), keep)
      ensures s == Mem(index, None, g)
      ensures Used(A()) - CellCount(s) == old(Used(A())) - NodeCellCount(g)
    {
      NodeCellsInUse(A(), g);
      index := storage.Alloc(New(node));
      PreservedNodeOwns(old(A()), A(), NodeCells(g), g);
      s := Mem(index, None, g);
    }

    /** Puts a changed node back, rebalanced; what the store had in its place is given up. */
    method Replace(stored: Stored, ghost s: Shape, node: Node, ghost g: GNode, ghost keep: set<nat>)
      returns (index: nat, ghost s': Shape)
      requires s.Mem? && stored == StoredOf(s.origin, s.node) && Backed(W(), s)
      requires node == NodeOf(g) && NodeHolding(g, keep) && CanRebalance(NodeAbs(g))
      requires Buried(W(), deathRow, dead)
      modifies storage, this`deathRow, this`dead
      ensures Holding(s', keep) && Preserved(old(A()), A(), keep)
      ensures s'.Mem? && s'.index == index && s'.origin.None? && Abs(s') == Rebalance(NodeAbs(g))
      ensures Live(hash, s') <= NodeLive(hash, g)
      ensures Buried(W(), deathRow, dead) && dead == old(dead) + if s.origin.Some? then NonEmpty(Abs(s)) else {}
      ensures Used(A()) - CellCount(s') == old(Used(A())) - NodeCellCount(g)
      ensures deathRow == old(deathRow) + OriginHash(s.origin)
    {
      Bury(stored, s);
      var node';
      ghost var g';
      node', g' := RotateIfNecessary(node, g, keep);
      index, s' := Settle(node', g', keep);
    }

    /** Puts an unchanged node back the way it was. */
    method Restore(node: Node, stored: Stored, ghost origin: Option<H256>, ghost g: GNode, ghost keep: set<nat>)
      returns (index: nat, ghost s: Shape)
      requires node == NodeOf(g) && NodeHolding(g, keep)
      requires stored.Cached? <==> origin.Some?
      requires origin.Some? ==> stored.hash == origin.value == HashOfTree(hash, NodeAbs(g)) && InStore(W(), NodeAbs(g))
      modifies storage
      ensures Holding(s, keep) && Preserved(old(A()), A(), keep)
      ensures s == Mem(index, origin, g)
      ensures Used(A()) - CellCount(s) == old(Used(A())) - NodeCellCount(g)
    {
      NodeCellsInUse(A(), g);
      index := storage.Alloc(if stored.Cached? then Cached(node, stored.hash) else New(node));
      PreservedNodeOwns(old(A()), A(), NodeCells(g), g);
      s := Mem(index, origin, g);
    }

    /** Puts a node back after it has been inspected: rebalanced if it was changed, and otherwise the
        way it was. */
    method PutBack(stored: Stored, ghost s: Shape, node: Node, changed: bool, ghost g: GNode, ghost keep: set<nat>,
                   ghost before: set<Tree>)
      returns (index: nat, ghost s': Shape)
      requires s.Mem? && stored == StoredOf(s.origin, s.node) && Backed(W(), s)
      requires node == NodeOf(g) && NodeHolding(g, keep) && Buried(W(), deathRow, dead)
      requires if changed then CanRebalance(NodeAbs(g)) else NodeAbs(g) == Abs(s) && dead == before
      requires Dies(before, NodeLive(hash, s.node), dead, NodeLive(hash, g)) && Abs(s) !in NodeLive(hash, s.node)
      modifies storage, this`deathRow, this`dead
      ensures Holding(s', keep) && Preserved(old(A()), A(), keep) && s'.Mem? && s'.index == index
      ensures Abs(s') == if changed then Rebalance(NodeAbs(g)) else Abs(s)
      ensures Hashed(s') ==> Hashed(s) && !changed
      ensures Buried(W(), deathRow, dead) && Dies(before, Live(hash, s), dead, Live(hash, s'))
      ensures !changed ==> dead == before
      ensures Used(A()) - CellCount(s') == old(Used(A())) - NodeCellCount(g)
      ensures deathRow == old(deathRow) + if changed then OriginHash(s.origin) else {}
    {
      if changed {
        index, s' := Replace(stored, s, node, g, keep);
      } else {
        index, s' := Restore(node, stored, s.origin, g, keep);
      }
    }

    /** Gives up a node of which nothing is left. */
    method Drop(stored: Stored, ghost s: Shape, ghost before: set<Tree>)
      requires s.Mem? && stored == StoredOf(s.origin, s.node) && Backed(W(), s)
      requires Buried(W(), deathRow, dead) && Dies(before, NodeLive(hash, s.node), dead, {})
      modifies this`deathRow, this`dead
      ensures Buried(W(), deathRow, dead) && Dies(before, Live(hash, s), dead, {})
      ensures deathRow == old(deathRow) + OriginHash(s.origin)
    {
      Bury(stored, s);
    }

    /** Loading changes nothing of what is on the way to a key. */
    lemma SamePath(s: Shape, s1: Shape, key: Bytes)
      requires s1.Mem? && Abs(s) == Abs(s1) && (s.Mem? ==> s1 == s)
      requires s.Unloaded? ==> s1.origin == Some(s.hash) && AsStored(hash, s1.node)
      ensures PathHashes(hash, s, key)
           == OriginHash(s1.origin) + NodePath(hash, s1.node, key)
    {
      if s.Unloaded? {
        LoadedPath(hash, s1.node, key);
      }
    }

    /** Takes the node out, lets the inspector work on it, and puts the result back rebalanced. */
    method InsertAt(handle: NodeHandle, key: Bytes, value: Bytes,
                    ghost s: Shape, ghost keep: set<nat>, ghost lo: real, ghost hi: real)
      returns (index: nat, changed: bool, previous: Option<Bytes>, ghost s': Shape)
      requires handle == HandleOf(s) && Holding(s, keep) && Sound(Abs(s)) && Ordered(Abs(s), lo, hi)
      requires Buried(W(), deathRow, dead)
      modifies storage, this`deathRow, this`dead
      ensures Holding(s', keep) && Preserved(old(A()), A(), keep) && s'.Mem? && s'.index == index
      ensures InsertResult(Abs(s'), changed, previous) == AvlTree.Insert(Abs(s), key, value)
      ensures Hashed(s') ==> Hashed(s) && !changed
      ensures Buried(W(), deathRow, dead) && Dies(old(dead), Live(hash, s), dead, Live(hash, s'))
      ensures !changed ==> dead == old(dead)
      ensures Used(A()) - CellCount(s') == old(Used(A())) - CellCount(s)
      ensures deathRow == old(deathRow) + if changed then PathHashes(hash, s, key) else {}
      decreases Abs(s), 2
    {
      var stored;
      ghost var s1;
      stored, s1 := TakeOut(handle, s, keep);
      SamePath(s, s1, key);
      index, changed, previous, s' := InsertTaken(stored, key, value, s1, keep, lo, hi);
      DiesWidens(old(dead), Live(hash, s1), Live(hash, s), dead, Live(hash, s'));
    }

    method InsertTaken(stored: Stored, key: Bytes, value: Bytes,
                       ghost s: Shape, ghost keep: set<nat>, ghost lo: real, ghost hi: real)
      returns (index: nat, changed: bool, previous: Option<Bytes>, ghost s': Shape)
      requires s.Mem? && stored == StoredOf(s.origin, s.node) && NodeHolding(s.node, keep) && Backed(W(), s)
      requires Sound(Abs(s)) && Ordered(Abs(s), lo, hi) && Buried(W(), deathRow, dead)
      modifies storage, this`deathRow, this`dead
      ensures Holding(s', keep) && Preserved(old(A()), A(), keep) && s'.Mem? && s'.index == index
      ensures InsertResult(Abs(s'), changed, previous) == AvlTree.Insert(Abs(s), key, value)
      ensures Hashed(s') ==> Hashed(s) && !changed
      ensures Buried(W(), deathRow, dead) && Dies(old(dead), Live(hash, s), dead, Live(hash, s'))
      ensures !changed ==> dead == old(dead)
      ensures Used(A()) - CellCount(s') == old(Used(A())) - NodeCellCount(s.node)
      ensures deathRow == old(deathRow) + if changed then PathHashes(hash, s, key) else {}
      decreases Abs(s), 1
    {
      var node;
      ghost var g;
      node, changed, previous, g := InsertInspector(stored.node, key, value, s.node, keep, lo, hi);
      assert InsertInspect(Abs(s), key, value) == InsertResult(NodeAbs(g), changed, previous);
      LiveApart(W(), s.node, lo, hi);
      index, s' := PutBack(stored, s, node, changed, g, keep, old(dead));
    }

    method InsertInspector(node: Node, key: Bytes, value: Bytes,
                           ghost g: GNode, ghost keep: set<nat>, ghost lo: real, ghost hi: real)
      returns (node': Node, changed: bool, previous: Option<Bytes>, ghost g': GNode)
      requires node == NodeOf(g) && NodeHolding(g, keep) && Sound(NodeAbs(g)) && Ordered(NodeAbs(g), lo, hi)
      requires Buried(W(), deathRow, dead)
      modifies storage, this`deathRow, this`dead
      ensures NodeHolding(g', keep) && Preserved(old(A()), A(), keep) && node' == NodeOf(g')
      ensures InsertResult(NodeAbs(g'), changed, previous) == InsertInspect(NodeAbs(g), key, value)
      ensures Buried(W(), deathRow, dead) && Dies(old(dead), NodeLive(hash, g), dead, NodeLive(hash, g'))
      ensures !changed ==> dead == old(dead)
      ensures Used(A()) - NodeCellCount(g') == old(Used(A())) - NodeCellCount(g)
      ensures deathRow == old(deathRow) + if changed then NodePath(hash, g, key) else {}
      decreases NodeAbs(g), 0
    {
      match node
      case EmptyNode =>
        node', changed, previous, g' := LeafNode(key, value), true, None, GLeaf(key, value);
      case LeafNode(k, v) =>
        if k == key {
          node', changed, previous, g' := LeafNode(key, value), v != value, Some(v), GLeaf(key, value);
        } else {
          node', g' := SplitLeafNode(k, v, key, value, keep);
          changed, previous := true, None;
        }
      case BranchNode(h, k, _, _) =>
        var side := if Lt(key, k) then 0 else 1;
        ghost var kid, other := Kid(g, side), Kid(g, 1 - side);
        OwnedCellsInUse(A(), other);
        LiveApart(W(), g, lo, hi);
        var index;
        ghost var s;
        index, changed, previous, s := InsertAt(Child(node, side).value, key, value, kid, keep + Cells(other),
                                                if side == 0 then lo else Rank(k), if side == 0 then Rank(k) else hi);
        PreservedOwns(old(A()), A(), keep + Cells(other), other);
        node', g' := WithChild(node, side, Some(InMemory(index))), WithKid(g, side, s);
    }

    /** A branch over two new leaves. */
    method TwoLeaves(key: Bytes, k1: Bytes, v1: Bytes, k2: Bytes, v2: Bytes, ghost keep: set<nat>)
      returns (node: Node, ghost g: GNode)
      requires ArenaOk(A()) && AllInUse(A(), keep)
      modifies storage
      ensures NodeHolding(g, keep) && Preserved(old(A()), A(), keep) && node == NodeOf(g)
      ensures NodeAbs(g) == Branch(1, key, Leaf(k1, v1), Leaf(k2, v2)) && NodeLive(hash, g) == {}
      ensures Used(A()) == old(Used(A())) + NodeCellCount(g)
    {
      var left := storage.Alloc(New(LeafNode(k1, v1)));
      var right := storage.Alloc(New(LeafNode(k2, v2)));
      ghost var l, r := Mem(left, None, GLeaf(k1, v1)), Mem(right, None, GLeaf(k2, v2));
      LeafShape(W(), A(), left, k1, v1);
      LeafShape(W(), A(), right, k2, v2);
      node := BranchNode(1, key, Some(InMemory(left)), Some(InMemory(right)));
      g := GBranch(1, key, l, r);
      assert CellCount(l) == CellCount(r) == 1;
    }

    /** Turns a leaf and a new key into a branch. */
    method SplitLeafNode(k: Bytes, v: Bytes, key: Bytes, value: Bytes, ghost keep: set<nat>)
      returns (node: Node, ghost g: GNode)
      requires ArenaOk(A()) && AllInUse(A(), keep)
      modifies storage
      ensures NodeHolding(g, keep) && Preserved(old(A()), A(), keep) && node == NodeOf(g)
      ensures NodeAbs(g) == SplitLeaf(k, v, key, value) && NodeLive(hash, g) == {}
      ensures Used(A()) == old(Used(A())) + NodeCellCount(g)
    {
      if Lt(k, key) {
        node, g := TwoLeaves(key, k, v, key, value, keep);
      } else {
        node, g := TwoLeaves(k, key, value, k, v, keep);
      }
    }

    // -------------------------------------------------------------- removal

    /** Removes a key below a handle; deleted tells that nothing is left there. */
    method RemoveAt(handle: NodeHandle, key: Bytes,
                    ghost s: Shape, ghost keep: set<nat>, ghost lo: real, ghost hi: real)
      returns (deleted: bool, index: nat, changed: bool, ghost s': Shape)
      requires handle == HandleOf(s) && Holding(s, keep) && Sound(Abs(s)) && Ordered(Abs(s), lo, hi)
      requires Buried(W(), deathRow, dead)
      modifies storage, this`deathRow, this`dead
      ensures ArenaOk(A()) && Preserved(old(A()), A(), keep) && Buried(W(), deathRow, dead)
      ensures deleted <==> AvlTree.Remove(Abs(s), key).Deleted?
      ensures deleted ==> Dies(old(dead), Live(hash, s), dead, {})
      ensures !deleted ==>
                && Holding(s', keep) && s'.Mem? && s'.index == index
                && AvlTree.Remove(Abs(s), key) == RemoveResult.Kept(Abs(s'), changed)
                && (Hashed(s') ==> Hashed(s) && !changed)
                && Dies(old(dead), Live(hash, s), dead, Live(hash, s'))
                && (!changed ==> dead == old(dead))
      ensures Used(A()) - (if deleted then 0 else CellCount(s')) == old(Used(A())) - CellCount(s)
      ensures deathRow == old(deathRow) + if deleted || changed then PathHashes(hash, s, key) else {}
      decreases Abs(s), 2
    {
      var stored;
      ghost var s1;
      stored, s1 := TakeOut(handle, s, keep);
      SamePath(s, s1, key);
      deleted, index, changed, s' := RemoveTaken(stored, key, s1, keep, lo, hi);
      DiesWidens(old(dead), Live(hash, s1), Live(hash, s), dead, if deleted then {} else Live(hash, s'));
    }

    method RemoveTaken(stored: Stored, key: Bytes,
                       ghost s: Shape, ghost keep: set<nat>, ghost lo: real, ghost hi: real)
      returns (deleted: bool, index: nat, changed: bool, ghost s': Shape)
      requires s.Mem? && stored == StoredOf(s.origin, s.node) && NodeHolding(s.node, keep) && Backed(W(), s)
      requires Sound(Abs(s)) && Ordered(Abs(s), lo, hi) && Buried(W(), deathRow, dead)
      modifies storage, this`deathRow, this`dead
      ensures ArenaOk(A()) && Preserved(old(A()), A(), keep) && Buried(W(), deathRow, dead)
      ensures deleted <==> AvlTree.Remove(Abs(s), key).Deleted?
      ensures deleted ==> Dies(old(dead), Live(hash, s), dead, {})
      ensures !deleted ==>
                && Holding(s', keep) && s'.Mem? && s'.index == index
                && AvlTree.Remove(Abs(s), key) == RemoveResult.Kept(Abs(s'), changed)
                && (Hashed(s') ==> Hashed(s) && !changed)
                && Dies(old(dead), Live(hash, s), dead, Live(hash, s'))
                && (!changed ==> dead == old(dead))
      ensures Used(A()) - (if deleted then 0 else CellCount(s')) == old(Used(A())) - NodeCellCount(s.node)
      ensures deathRow == old(deathRow) + if deleted || changed then PathHashes(hash, s, key) else {}
      decreases Abs(s), 1
    {
      var node;
      ghost var g;
      deleted, node, changed, g := RemoveInspector(stored.node, key, s.node, keep, lo, hi);
      LiveApart(W(), s.node, lo, hi);
      index, s' := 0, s;
      if deleted {
        Drop(stored, s, old(dead));
      } else {
        index, s' := PutBack(stored, s, node, changed, g, keep, old(dead));
      }
    }

    method RemoveInspector(node: Node, key: Bytes, ghost g: GNode, ghost keep: set<nat>, ghost lo: real, ghost hi: real)
      returns (deleted: bool, node': Node, changed: bool, ghost g': GNode)
      requires node == NodeOf(g) && NodeHolding(g, keep) && Sound(NodeAbs(g)) && Ordered(NodeAbs(g), lo, hi)
      requires Buried(W(), deathRow, dead)
      modifies storage, this`deathRow, this`dead
      ensures ArenaOk(A()) && Preserved(old(A()), A(), keep) && Buried(W(), deathRow, dead)
      ensures deleted <==> RemoveInspect(NodeAbs(g), key).Deleted?
      ensures deleted ==> Dies(old(dead), NodeLive(hash, g), dead, {})
      ensures !deleted ==>
                && NodeHolding(g', keep) && node' == NodeOf(g')
                && RemoveInspect(NodeAbs(g), key) == RemoveResult.Kept(NodeAbs(g'), changed)
                && Dies(old(dead), NodeLive(hash, g), dead, NodeLive(hash, g'))
                && (!changed ==> dead == old(dead))
      ensures Used(A()) - (if deleted then 0 else NodeCellCount(g')) == old(Used(A())) - NodeCellCount(g)
      ensures deathRow == old(deathRow) + if deleted || changed then NodePath(hash, g, key) else {}
      decreases NodeAbs(g), 0
    {
      deleted, node', changed, g' := false, node, false, g;
      match node
      case EmptyNode => deleted := true;
      case LeafNode(k, _) => deleted := k == key;
      case BranchNode(h, k, _, _) =>
        var side := if Lt(key, k) then 0 else 1;
        ghost var kid, other := Kid(g, side), Kid(g, 1 - side);
        OwnedCellsInUse(A(), other);
        LiveApart(W(), g, lo, hi);
        var childDeleted, index;
        ghost var s;
        childDeleted, index, changed, s := RemoveAt(Child(node, side).value, key, kid, keep + Cells(other),
                                                    if side == 0 then lo else Rank(k),
                                                    if side == 0 then Rank(k) else hi);
        PreservedOwns(old(A()), A(), keep + Cells(other), other);
        if !childDeleted {
          node', g' := WithChild(node, side, Some(InMemory(index))), WithKid(g, side, s);
          DiesBeside(old(dead), Live(hash, kid), Live(hash, other), dead, Live(hash, s), Live(hash, other));
        } else {
          changed := true;
          var lone := WithChild(node, side, None);
          lone, node', g' := ChildDestroy(lone, 1 - side, other, keep);
          DiesBeside(old(dead), Live(hash, kid), Live(hash, other), dead, {}, NodeLive(hash, g'));
        }
    }

    // -------------------------------------------------------------- committing

    /** What committing the tree t into the store leads to. */
    ghost predicate Written(t: Tree, before: Db)
      reads this
    {
      && DbOk(hash, universe, db) && Grows(hash, before, db)
      && StoredBelow(hash, db, t)
    }

    /** The tree t can be committed: its nodes are not too long, and hashing them does not collide. */
    ghost predicate Committable(t: Tree)
      reads this
    {
      && NoCollisions(hash, universe) && DbOk(hash, universe, db)
      && Sized(hash, t) && Within(hash, universe, t) && Sound(t)
    }

    /** Encodes a node, writing its children into the store as necessary. */
    method IntoRlp(node: Node, ghost g: GNode, ghost keep: set<nat>) returns (b: Bytes)
      requires node == NodeOf(g) && NodeHolding(g, keep) && Committable(NodeAbs(g))
      modifies storage, this`db, this`hashCount
      ensures b == NodeRlp(hash, NodeAbs(g)) && Written(NodeAbs(g), old(db))
      ensures ArenaOk(A()) && Preserved(old(A()), A(), keep)
      ensures Used(A()) == old(Used(A())) - NodeCellCount(g) + NodeStranded(g)
      ensures Counted(old(db), db, NodeAdded(hash, g)) && hashCount == old(hashCount) + |NodeAdded(hash, g)|
      decreases NodeAbs(g), 0
    {
      var stream := new RlpStream.RlpStream();
      match node
      case EmptyNode =>
        stream.AppendEmptyData();
        b := stream.Out();
      case LeafNode(k, v) =>
        stream.BeginList(2);
        stream.Append(Data(k));
        stream.Append(Data(v));
        LeafStream(hash, k, v);
        b := stream.Out();
      case BranchNode(h, k, left, right) =>
        stream.BeginList(4);
        OwnedCellsInUse(A(), g.right);
        CommitNode(left.value, stream, g.left, keep + Cells(g.right));
        PreservedOwns(old(A()), A(), keep + Cells(g.right), g.right);
        BackedGrows(old(W()), db, g.right);
        ghost var between := db;
        CommitNode(right.value, stream, g.right, keep);
        CountedBoth(old(db), between, db, Added(hash, g.left), Added(hash, g.right));
        StoredGrows(hash, between, db, Abs(g.left));
        stream.Append(Data(BE(h)));
        stream.Append(Data(k));
        BranchStream(hash, NodeAbs(g));
        b := stream.Out();
    }

    /** Puts the bytes of a node into the store. */
    method StoreNode(rlp: Bytes, ghost t: Tree) returns (h: H256)
      requires Committable(t) && !t.Empty? && rlp == NodeRlp(hash, t) && StoredBelow(hash, db, t)
      modifies this`db, this`hashCount
      ensures h == HashOfTree(hash, t) && Holds(hash, db, rlp)
      ensures Written(t, old(db)) && Counted(old(db), db, multiset{h}) && hashCount == old(hashCount) + 1
    {
      NodeIsWhole(hash, t);
      InsertHolds(hash, universe, db, rlp);
      InsertCounts(hash, db, rlp);
      db := HashDb.Insert(hash, db, rlp);
      StoredGrows(hash, old(db), db, t);
      hashCount := hashCount + 1;
      h := hash(rlp);
    }

    /** Appends a child to its parent: by hash if it is in the store or too long to be inlined. */
    method CommitNode(handle: NodeHandle, stream: RlpStream.RlpStream, ghost s: Shape, ghost keep: set<nat>)
      requires handle == HandleOf(s) && Holding(s, keep) && Committable(Abs(s)) && !Abs(s).Empty?
      requires Hashed(s) ==> IsBig(hash, Abs(s))
      requires stream.Valid()
      modifies storage, this`db, this`hashCount, stream
      ensures stream.Valid() && stream.model == old(stream.model).Note(Slot(hash, Abs(s)), 1)
      ensures Written(Abs(s), old(db)) && (IsBig(hash, Abs(s)) ==> Holds(hash, db, NodeRlp(hash, Abs(s))))
      ensures ArenaOk(A()) && Preserved(old(A()), A(), keep)
      ensures Used(A()) == old(Used(A())) - CellCount(s) + Stranded(s)
      ensures var b := NodeRlp(hash, Abs(s));
              stream.model == old(stream.model).Note(if |b| < 32 then b else [0xa0] + hash(b), 1)
      ensures Counted(old(db), db, Added(hash, s)) && hashCount == old(hashCount) + |Added(hash, s)|
      decreases Abs(s), 1
    {
      SlotForm(hash, Abs(s));
      match handle
      case HashOf(h) =>
        stream.Append(Data(h));
      case InMemory(i) =>
        NodeCellsInUse(A(), s.node);
        var stored := storage.Destroy(i);
        PreservedNodeOwns(old(A()), A(), NodeCells(s.node), s.node);
        match stored
        case Cached(_, h) => stream.Append(Data(h));
        case New(node) =>
          var rlp := IntoRlp(node, s.node, keep);
          if |rlp| >= 32 {
            ghost var between := db;
            var h := StoreNode(rlp, Abs(s));
            CountedBoth(old(db), between, db, NodeAdded(hash, s.node), multiset{h});
            stream.Append(Data(h));
          } else {
            stream.AppendRaw(rlp, 1);
          }
    }

    /** Removes the nodes given up. Everything the tree still needs stays. */
    method ClearDeathRow()
      requires Valid()
      modifies this`db, this`deathRow, this`dead
      ensures Valid() && deathRow == {} && dead == {}
      ensures Leaked() == old(Leaked())
      ensures Counted(db, old(db), multiset(old(deathRow) - {hash(NULL_RLP)}))
      ensures shape == old(shape) && rootHandle == old(rootHandle) && hashCount == old(hashCount)
    {
      ghost var w := W();
      db := RemoveAll(hash, db, deathRow);
      RemovalSpares(hash, universe, w.db, deathRow, db);
      RowCounts(hash, w.db, deathRow, db);
      ClearedStoreBacks(w, deathRow, dead, db, shape);
      deathRow, dead := {}, {};
    }

    /** Writes a changed root node and everything below it. */
    method CommitRoot(node: Node, ghost g: GNode)
      requires node == NodeOf(g) && NodeHolding(g, {}) && Committable(NodeAbs(g)) && !NodeAbs(g).Empty?
      modifies storage, this`db, this`hashCount, this`root
      ensures ArenaOk(A()) && DbOk(hash, universe, db)
      ensures root == HashOfTree(hash, NodeAbs(g)) && InBytes(NodeAbs(g))
      ensures Used(A()) == old(Used(A())) - NodeCellCount(g) + NodeStranded(g)
      ensures Counted(old(db), db, NodeAdded(hash, g) + multiset{root})
      ensures hashCount == old(hashCount) + |NodeAdded(hash, g)| + 1
    {
      var rlp := IntoRlp(node, g, {});
      ghost var between := db;
      root := StoreNode(rlp, NodeAbs(g));
      CountedBoth(old(db), between, db, NodeAdded(hash, g), multiset{root});
    }

    /** The store has the bytes of every node of t, readable or not. */
    ghost predicate InBytes(t: Tree)
      reads this
    {
      Holds(hash, db, NodeRlp(hash, t)) && StoredBelow(hash, db, t)
    }

    /** Writes all changes to the store and moves the root there. The nodes given up are removed first.
        What is written can be read again if no height is above 127. */
    method Commit()
      requires Valid() && Sized(hash, Tree()) && Within(hash, universe, Tree())
      modifies this, storage
      ensures Names(hash, universe, db, root, old(Tree())) && InBytes(old(Tree()))
      ensures contents == old(contents) && deathRow == {}
      ensures LowHeights(old(Tree())) ==> Valid() && Tree() == old(Tree()) && InStore(W(), Tree())
      ensures Leaked() == old(Leaked()) + if old(Hashed(shape)) then 0 else NodeStranded(old(shape.node))
      ensures forall h :: Refs(db, h) == Refs(old(db), h) + RootAdded(hash, old(shape))[h]
                                - if h in old(deathRow) && h != hash(NULL_RLP) then 1 else 0
      ensures hashCount == old(hashCount) + |RootAdded(hash, old(shape))|
      ensures forall h <- old(deathRow) | h != hash(NULL_RLP) && h !in NodeHashes(hash, old(Tree())) ::
                Refs(db, h) == Refs(old(db), h) - 1
    {
      RootAddedAreNodes(hash, shape);
      ClearDeathRow();
      if rootHandle.InMemory? {
        CommitLoaded();
      }
    }

    /** After a commit, following the new root through the store answers every key as the map does. */
    method CommitAndLookUp(key: Bytes) returns (r: Result<Option<Bytes>, AVLError>)
      requires Valid() && Sized(hash, Tree()) && Within(hash, universe, Tree()) && Legible(Tree(), key)
      modifies this, storage
      ensures contents == old(contents) && r == Ok(MapGet(contents, key))
      ensures LowHeights(old(Tree())) ==> Valid() && Tree() == old(Tree())
    {
      ghost var t := Tree();
      assert Lookup(t, key) == MapGet(contents, key);
      Commit();
      r := LookUp(hash, db, root, key, universe, t);
    }

    method CommitNew(node: Node, ghost g: GNode)
      requires node == NodeOf(g) && NodeHolding(g, {}) && Committable(NodeAbs(g)) && !NodeAbs(g).Empty?
      requires Ordered(NodeAbs(g), 0.0, 1.0) && Refines(NodeAbs(g), contents) && deathRow == {} && dead == {}
      modifies this, storage
      ensures Names(hash, universe, db, root, NodeAbs(g)) && InBytes(NodeAbs(g))
      ensures contents == old(contents) && deathRow == {}
      ensures LowHeights(NodeAbs(g)) ==> Valid() && Tree() == NodeAbs(g) && InStore(W(), NodeAbs(g))
      ensures Leaked() == old(Used(A())) - NodeCellCount(g) + NodeStranded(g)
      ensures Counted(old(db), db, NodeAdded(hash, g) + multiset{root})
      ensures hashCount == old(hashCount) + |NodeAdded(hash, g)| + 1
    {
      CommitRoot(node, g);
      rootHandle := HashOf(root);
      shape := Unloaded(root, NodeAbs(g));
      if LowHeights(NodeAbs(g)) {
        CommittedIsEditing(W(), NodeAbs(g), contents, A(), root);
      }
    }

    method CommitLoaded()
      requires Valid() && Sized(hash, Tree()) && Within(hash, universe, Tree())
      requires rootHandle.InMemory? && deathRow == {} && dead == {}
      modifies this, storage
      ensures Names(hash, universe, db, root, old(Tree())) && InBytes(old(Tree()))
      ensures contents == old(contents) && deathRow == {}
      ensures LowHeights(old(Tree())) ==> Valid() && Tree() == old(Tree()) && InStore(W(), Tree())
      ensures Leaked() == old(Leaked()) + (if old(shape.origin.Some?) then 0 else NodeStranded(old(shape.node)))
      ensures Counted(old(db), db, RootAdded(hash, old(shape)))
      ensures hashCount == old(hashCount) + |RootAdded(hash, old(shape))|
    {
      var stored;
      ghost var s;
      stored, s := TakeOut(rootHandle, shape, {});
      match stored
      case New(node) => CommitNew(node, s.node);
      case Cached(node, hashed) =>
        RestoreRoot(node, hashed, s);
    }

    /** Puts an unchanged root back. */
    method RestoreRoot(node: Node, hashed: H256, ghost s: Shape)
      requires s.Mem? && s.origin == Some(hashed) && node == NodeOf(s.node) && NodeHolding(s.node, {})
      requires Backed(W(), s) && !Abs(s).Empty? && NoCollisions(hash, universe) && DbOk(hash, universe, db)
      requires Sound(Abs(s)) && Ordered(Abs(s), 0.0, 1.0) && Refines(Abs(s), contents) && deathRow == {} && dead == {}
      modifies storage, this`root, this`rootHandle, this`shape
      ensures Valid() && Tree() == Abs(s) && InStore(W(), Tree()) && root == HashOfTree(hash, Abs(s))
      ensures Leaked() == old(Used(A())) - NodeCellCount(s.node)
    {
      root := hashed;
      var index;
      index, shape := Restore(node, Cached(node, hashed), s.origin, s.node, {});
      rootHandle := InMemory(index);
    }

    // -------------------------------------------------------------- the map

    /** Whether the tree holds nothing. */
    method IsEmpty() returns (r: bool)
      requires Valid()
      ensures r <==> Tree().Empty?
    {
      match rootHandle
      case HashOf(h) =>
        r := h == hash(NULL_RLP);
        NodeIsWhole(hash, Tree());
        assert NodeRlp(hash, Tree()) in universe;
      case InMemory(i) =>
        r := storage.nodes[i].node.EmptyNode?;
        assert Tree() == NodeAbs(shape.node);
    }

    /** The value of a key, found in memory as far as nodes are loaded and in the store below them. */
    method Get(key: Bytes) returns (r: Result<Option<Bytes>, AVLError>)
      requires Valid()
      ensures r == Ok(MapGet(contents, key))
    {
      r := LookupFrom(key, rootHandle, shape);
      assert Lookup(Tree(), key) == MapGet(contents, key);
    }

    method LookupFrom(key: Bytes, handle: NodeHandle, ghost s: Shape) returns (r: Result<Option<Bytes>, AVLError>)
      requires handle == HandleOf(s) && Owns(A(), s) && Backed(W(), s)
      requires NoCollisions(hash, universe) && DbOk(hash, universe, db)
      ensures r == Ok(Lookup(Abs(s), key))
      decreases Abs(s)
    {
      match handle
      case HashOf(h) =>
        LowIsLegible(s.tree, key);
        r := LookUp(hash, db, h, key, universe, s.tree);
      case InMemory(i) =>
        match storage.nodes[i].node
        case EmptyNode => r := Ok(None);
        case LeafNode(k, v) => r := Ok(if k == key then Some(v) else None);
        case BranchNode(_, k, left, right) =>
          assert Abs(s) == Branch(s.node.height, k, Abs(s.node.left), Abs(s.node.right));
          if Lt(key, k) {
            r := LookupFrom(key, left.value, s.node.left);
          } else {
            r := LookupFrom(key, right.value, s.node.right);
          }
    }

    /** Sets a key; an empty value removes it. The former value is reported, but not by removals. */
    method Insert(key: Bytes, value: Bytes) returns (previous: Option<Bytes>)
      requires Valid()
      modifies this, storage
      ensures Valid() && Tree() == ApplyToTree(old(Tree()), Put(key, value))
      ensures contents == ApplyToMap(old(contents), Put(key, value))
      ensures previous == if value == [] then None else MapGet(old(contents), key)
      ensures db == old(db)
      ensures Leaked() == old(Leaked())
      ensures var way := PathHashes(hash, old(shape), key);
              deathRow == old(deathRow) +
                if value != [] then (if MapGet(old(contents), key) == Some(value) then {} else way)
                else (if key in old(contents) || old(Tree()).Empty? then way else {})
      ensures old(Hashed(shape)) &&
                (if value != [] then MapGet(old(contents), key) != Some(value) else key in old(contents)) ==>
                HashOfTree(hash, old(Tree())) in deathRow
    {
      if value == [] {
        previous := Remove(key);
        return;
      }
      var index;
      ghost var s;
      index, previous, s := InsertBelowRoot(key, value);
      rootHandle := InMemory(index);
      shape, contents := s, contents[key := value];
    }

    /** Sets a key below the root handle, which is left as it is. */
    method InsertBelowRoot(key: Bytes, value: Bytes) returns (index: nat, previous: Option<Bytes>, ghost s: Shape)
      requires Valid()
      modifies storage, this`deathRow, this`dead
      ensures Editing(W(), A(), s, deathRow, dead, contents[key := value])
      ensures Abs(s) == AvlTree.Insert(Tree(), key, value).tree && previous == MapGet(contents, key)
      ensures s.Mem? && s.index == index && Used(A()) - CellCount(s) == old(Leaked())
      ensures deathRow == old(deathRow) +
                if MapGet(contents, key) == Some(value) then {} else PathHashes(hash, shape, key)
      ensures Hashed(shape) ==> HashOfTree(hash, Tree()) in PathHashes(hash, shape, key)
    {
      ghost var a, row, gone := A(), deathRow, dead;
      AvlRemoval.InsertChangesIff(Tree(), key, value);
      assert Lookup(Tree(), key) == MapGet(contents, key);
      var changed;
      index, changed, previous, s := InsertAt(rootHandle, key, value, shape, {}, 0.0, 1.0);
      SetIsEditing(W(), a, shape, row, gone, contents, key, value, A(), s, deathRow, dead);
    }

    /** Removes a key. The former value is never reported. */
    method Remove(key: Bytes) returns (previous: Option<Bytes>)
      requires Valid()
      modifies this, storage
      ensures Valid() && Tree() == ApplyToTree(old(Tree()), Delete(key))
      ensures contents == ApplyToMap(old(contents), Delete(key))
      ensures previous == None && db == old(db)
      ensures Leaked() == old(Leaked())
      ensures deathRow == old(deathRow) +
                (if key in old(contents) || old(Tree()).Empty? then PathHashes(hash, old(shape), key) else {})
      ensures old(Hashed(shape)) && key in old(contents) ==> HashOfTree(hash, old(Tree())) in deathRow
    {
      previous := None;
      var deleted, index;
      ghost var s;
      deleted, index, s := RemoveFromRoot(key);
      if deleted {
        rootHandle := HashOf(hash(NULL_RLP));
        root := hash(NULL_RLP);
      } else {
        rootHandle := InMemory(index);
      }
      shape, contents := s, contents - {key};
    }

    /** Removes a key below the root handle, which is left as it is. */
    method RemoveFromRoot(key: Bytes) returns (deleted: bool, index: nat, ghost s: Shape)
      requires Valid()
      modifies storage, this`deathRow, this`dead
      ensures Editing(W(), A(), s, deathRow, dead, contents - {key}) && Abs(s) == Removed(Tree(), key)
      ensures if deleted then s == Unloaded(hash(NULL_RLP), Empty) else s.Mem? && s.index == index
      ensures Used(A()) - CellCount(s) == old(Leaked())
      ensures deathRow == old(deathRow) +
                (if key in contents || Tree().Empty? then PathHashes(hash, shape, key) else {})
      ensures Hashed(shape) ==> HashOfTree(hash, Tree()) in PathHashes(hash, shape, key)
    {
      ghost var a, row, gone := A(), deathRow, dead;
      assert Lookup(Tree(), key) == MapGet(contents, key);
      if !Tree().Empty? {
        AvlRemoval.RemoveChangesIff(Tree(), key);
      }
      var changed;
      deleted, index, changed, s := RemoveAt(rootHandle, key, shape, {}, 0.0, 1.0);
      if deleted {
        DeletedIsEditing(W(), a, shape, row, gone, contents, key, A(), deathRow, dead);
        s := Unloaded(hash(NULL_RLP), Empty);
      } else {
        KeptIsEditing(W(), a, shape, row, gone, contents, key, A(), s, deathRow, dead);
      }
    }
  }

  // ---------------------------------------------------------------- streams of nodes

  lemma StreamValueFits(v: Bytes)
    requires |EncodeValue(v)| < U32_LIMIT
    ensures RlpStream.StreamEncode(Data(v)) == EncodeValue(v)
  {
    RlpStream.StreamEncodeIsCanonical(Data(v));
  }

  lemma StreamListFits(payload: Bytes)
    requires |EncodeList(payload)| < U32_LIMIT
    ensures RlpStream.StreamList(payload) == EncodeList(payload)
  {
    RlpStream.StreamHeaderIsCanonical(0xc0, |payload|);
  }

  /** A new list stream that has been given two items. */
  lemma LeafStream(hash: Hasher, k: Bytes, v: Bytes)
    requires |NodeRlp(hash, Leaf(k, v))| < U32_LIMIT
    ensures RlpStream.Open(RlpStream.Done([]), [], 0, Some(2))
              .Note(RlpStream.StreamEncode(Data(k)), 1).Note(RlpStream.StreamEncode(Data(v)), 1)
            == RlpStream.Done(NodeRlp(hash, Leaf(k, v)))
  {
    var parts := [EncodeValue(k), EncodeValue(v)];
    PartsFit(parts);
    assert |parts[0]| < U32_LIMIT && |parts[1]| < U32_LIMIT;
    StreamValueFits(k);
    StreamValueFits(v);
    StreamListFits(Concat(parts));
    assert Concat([parts[1]]) == parts[1] + [];
    assert Concat(parts) == parts[0] + Concat([parts[1]]);
    assert parts[0] + parts[1] == Concat(parts);
    TwoNotes(RlpStream.Done([]), parts[0], parts[1]);
    assert [] + EncodeList(Concat(parts)) == EncodeList(Concat(parts));
  }

  lemma TwoNotes(outer: RlpStream.Model, a: Bytes, b: Bytes)
    ensures RlpStream.Open(outer, [], 0, Some(2)).Note(a, 1).Note(b, 1) == outer.Note(RlpStream.StreamList(a + b), 1)
  {
    assert [] + a == a;
    assert RlpStream.Open(outer, [], 0, Some(2)).Note(a, 1) == RlpStream.Open(outer, a, 1, Some(2));
  }

  /** And one that has been given the four items of a branch. */
  lemma BranchStream(hash: Hasher, t: Tree)
    requires t.Branch? && |NodeRlp(hash, t)| < U32_LIMIT
    ensures RlpStream.Open(RlpStream.Done([]), [], 0, Some(4))
              .Note(Slot(hash, t.left), 1).Note(Slot(hash, t.right), 1)
              .Note(RlpStream.StreamEncode(Data(BE(t.height))), 1).Note(RlpStream.StreamEncode(Data(t.key)), 1)
            == RlpStream.Done(NodeRlp(hash, t))
  {
    var parts := [Slot(hash, t.left), Slot(hash, t.right), EncodeValue(BE(t.height)), EncodeValue(t.key)];
    PartsFit(parts);
    assert |parts[2]| < U32_LIMIT && |parts[3]| < U32_LIMIT;
    StreamValueFits(BE(t.height));
    StreamValueFits(t.key);
    StreamListFits(Concat(parts));
    FourParts(parts);
  }

  lemma FourParts(parts: seq<Bytes>)
    requires |parts| == 4
    ensures [] + parts[0] + parts[1] + parts[2] + parts[3] == Concat(parts)
  {
    var p1, p2, p3 := parts[1..], parts[2..], parts[3..];
    assert p1[1..] == p2 && p2[1..] == p3 && p3[1..] == [];
    assert Concat(p3) == parts[3] + [];
    assert Concat(p2) == parts[2] + Concat(p3);
    assert Concat(p1) == parts[1] + Concat(p2);
  }
}
