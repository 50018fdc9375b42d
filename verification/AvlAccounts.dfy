/** Which references to stored nodes an edit gives up, and which a commit takes. */
module AvlAccounts {
  import opened Bytes
  import opened Order
  import opened HashDb
  import opened AvlTree
  import opened AvlNode
  import opened AvlStorage
  import opened AvlBacking

  // ---------------------------------------------------------------- given up

  /** The hashes of the stored nodes below the root on the way to a key. */
  function TreePath(hash: Hasher, t: Tree, key: Bytes): set<H256>
  {
    if !t.Branch? then {}
    else
      var child := if Lt(key, t.key) then t.left else t.right;
      (if IsBig(hash, child) then {HashOfTree(hash, child)} else {}) + TreePath(hash, child, key)
  }

  /** The hashes under which the nodes on the way to a key were loaded, or are still in the store. */
  function PathHashes(hash: Hasher, s: Shape, key: Bytes): set<H256>
    decreases s
  {
    match s
    case Unloaded(h, t) => {h} + TreePath(hash, t, key)
    case Mem(_, o, g) => OriginHash(o) + NodePath(hash, g, key)
  }

  function OriginHash(o: Option<H256>): set<H256> { if o.Some? then {o.value} else {} }

  function NodePath(hash: Hasher, g: GNode, key: Bytes): set<H256>
    decreases g
  {
    if g.GBranch? then PathHashes(hash, if Lt(key, g.key) then g.left else g.right, key) else {}
  }

  /** A child as it has just been loaded: by hash if that is how the store refers to it. */
  ghost predicate KidAsStored(hash: Hasher, s: Shape)
    decreases s
  {
    match s
    case Unloaded(h, t) => IsBig(hash, t) && h == HashOfTree(hash, t)
    case Mem(_, o, g) => o.None? && !IsBig(hash, NodeAbs(g)) && AsStored(hash, g)
  }

  ghost predicate AsStored(hash: Hasher, g: GNode)
    decreases g
  {
    g.GBranch? ==> KidAsStored(hash, g.left) && KidAsStored(hash, g.right)
  }

  /** Loading a node changes nothing of what is on the way. */
  lemma {:induction false} LoadedPath(hash: Hasher, g: GNode, key: Bytes)
    requires AsStored(hash, g)
    ensures NodePath(hash, g, key) == TreePath(hash, NodeAbs(g), key)
    decreases g
  {
    if g.GBranch? {
      var kid := if Lt(key, g.key) then g.left else g.right;
      if kid.Mem? {
        LoadedPath(hash, kid.node, key);
      }
    }
  }

  /** The subtree n steps on the way to a key, if the way is that long. */
  function Down(t: Tree, key: Bytes, n: nat): Option<Tree>
    decreases n
  {
    if n == 0 then Some(t) else if t.Branch? then Down(if Lt(key, t.key) then t.left else t.right, key, n - 1) else None
  }

  /** Every node on the way that is long enough to be stored by itself is on the path. */
  lemma {:induction false} PathIsComplete(hash: Hasher, t: Tree, key: Bytes, n: nat)
    requires n > 0 && Down(t, key, n).Some? && IsBig(hash, Down(t, key, n).value)
    ensures HashOfTree(hash, Down(t, key, n).value) in TreePath(hash, t, key)
    decreases n
  {
    if n > 1 {
      PathIsComplete(hash, if Lt(key, t.key) then t.left else t.right, key, n - 1);
    }
  }

  /** And nothing else is. */
  lemma {:induction false} PathIsOnTheWay(hash: Hasher, t: Tree, key: Bytes, h: H256) returns (n: nat)
    requires h in TreePath(hash, t, key)
    ensures n > 0 && Down(t, key, n).Some? && IsBig(hash, Down(t, key, n).value)
    ensures h == HashOfTree(hash, Down(t, key, n).value)
    decreases t
  {
    var child := if Lt(key, t.key) then t.left else t.right;
    n := 1;
    assert Down(t, key, 1) == Down(child, key, 0) == Some(child);
    if !(IsBig(hash, child) && h == HashOfTree(hash, child)) {
      var m := PathIsOnTheWay(hash, child, key, h);
      n := m + 1;
    }
  }

  // ---------------------------------------------------------------- taken

  function Refs(db: Db, h: H256): int { if h in db then db[h].refs else 0 }

  /** after has so many references more than before. */
  ghost predicate Counted(before: Db, after: Db, added: multiset<H256>)
  {
    forall h :: Refs(after, h) == Refs(before, h) + added[h]
  }

  lemma CountedBoth(a: Db, b: Db, c: Db, m: multiset<H256>, n: multiset<H256>)
    requires Counted(a, b, m) && Counted(b, c, n)
    ensures Counted(a, c, m + n)
  {
    forall h
      ensures Refs(c, h) == Refs(a, h) + (m + n)[h]
    {
      assert Refs(b, h) == Refs(a, h) + m[h];
      assert Refs(c, h) == Refs(b, h) + n[h];
    }
  }

  /** An insertion adds one reference to what is inserted. */
  lemma InsertCounts(hash: Hasher, db: Db, b: Bytes)
    requires b != NULL_RLP
    ensures Counted(db, HashDb.Insert(hash, db, b), multiset{hash(b)})
  {
  }

  /** A removal takes one away, and the last one makes the string unreadable. */
  lemma RemoveCounts(hash: Hasher, db: Db, h: H256)
    requires h != hash(NULL_RLP)
    ensures Counted(HashDb.Remove(hash, db, h), db, multiset{h})
    ensures Refs(db, h) <= 1 ==> Get(hash, HashDb.Remove(hash, db, h), h).None?
  {
  }

  /** Draining the death row takes one reference from each hash on it. */
  lemma RowCounts(hash: Hasher, start: Db, hashes: set<H256>, db: Db)
    requires db.Keys == start.Keys && forall h <- hashes :: h == hash(NULL_RLP) || h in start
    requires forall h <- db :: db[h] == if h in hashes && h != hash(NULL_RLP)
                                        then Entry(start[h].value, start[h].refs - 1) else start[h]
    ensures Counted(db, start, multiset(hashes - {hash(NULL_RLP)}))
  {
    var m := multiset(hashes - {hash(NULL_RLP)});
    forall h
      ensures Refs(start, h) == Refs(db, h) + m[h]
    {
      if h in hashes && h != hash(NULL_RLP) {
        assert m[h] == 1;
      }
    }
  }

  /** A string can be read exactly while there are references to it. */
  lemma ReadableIff(hash: Hasher, db: Db, h: H256)
    requires h != hash(NULL_RLP)
    ensures Get(hash, db, h).Some? <==> Refs(db, h) > 0
  {
  }

  /** The new nodes that a commit of s stores by themselves. */
  function Added(hash: Hasher, s: Shape): multiset<H256>
    decreases s
  {
    match s
    case Unloaded(_, _) => multiset{}
    case Mem(_, o, g) =>
      if o.Some? then multiset{}
      else NodeAdded(hash, g) + if IsBig(hash, NodeAbs(g)) then multiset{HashOfTree(hash, NodeAbs(g))} else multiset{}
  }

  function NodeAdded(hash: Hasher, g: GNode): multiset<H256>
    decreases g
  {
    if g.GBranch? then Added(hash, g.left) + Added(hash, g.right) else multiset{}
  }

  /** The root is stored whatever its length, if it is new. */
  function RootAdded(hash: Hasher, s: Shape): multiset<H256>
  {
    if Hashed(s) then multiset{} else NodeAdded(hash, s.node) + multiset{HashOfTree(hash, Abs(s))}
  }

  /** The hashes of all nodes of a tree, as often as they occur. */
  function NodeHashes(hash: Hasher, t: Tree): multiset<H256>
  {
    multiset{HashOfTree(hash, t)}
    + if t.Branch? then NodeHashes(hash, t.left) + NodeHashes(hash, t.right) else multiset{}
  }

  /** What a commit stores are nodes of the tree, each at most as often as it occurs there. */
  lemma {:induction false} AddedAreNodes(hash: Hasher, s: Shape)
    ensures Added(hash, s) <= NodeHashes(hash, Abs(s))
    decreases s
  {
    if s.Mem? {
      NodeAddedAreNodes(hash, s.node);
    }
  }

  lemma {:induction false} NodeAddedAreNodes(hash: Hasher, g: GNode)
    ensures NodeAdded(hash, g) + multiset{HashOfTree(hash, NodeAbs(g))} <= NodeHashes(hash, NodeAbs(g))
    decreases g
  {
    if g.GBranch? {
      AddedAreNodes(hash, g.left);
      AddedAreNodes(hash, g.right);
    }
  }

  lemma RootAddedAreNodes(hash: Hasher, s: Shape)
    ensures RootAdded(hash, s) <= NodeHashes(hash, Abs(s))
  {
    if !Hashed(s) {
      NodeAddedAreNodes(hash, s.node);
    }
  }
}
