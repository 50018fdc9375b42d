/** Looking a key up from a root hash, node by node through the store. */
module AvlLookup {
  import opened Bytes
  import opened Rlp
  import opened Order
  import opened HashDb
  import opened AvlTree
  import opened AvlNode

  datatype AVLError = InvalidStateRoot(root: H256) | IncompleteDatabase(hash: H256)

  /** t is the tree whose root has hash h; the store is honest but need not be complete. */
  ghost predicate Names(hash: Hasher, universe: iset<Bytes>, db: Db, h: H256, t: Tree)
  {
    && NoCollisions(hash, universe) && DbOk(hash, universe, db)
    && h == hash(NodeRlp(hash, t))
    && Sized(hash, t) && Within(hash, universe, t) && Sound(t)
  }

  /** u is met on the way to a key. */
  predicate OnWay(t: Tree, key: Bytes, u: Tree)
  {
    u == t || (t.Branch? && OnWay(if Lt(key, t.key) then t.left else t.right, key, u))
  }

  lemma {:induction false} OneFurther(t: Tree, key: Bytes, u: Tree)
    requires OnWay(t, key, u) && u.Branch?
    ensures OnWay(t, key, if Lt(key, u.key) then u.left else u.right)
    decreases t
  {
    var next := if Lt(key, u.key) then u.left else u.right;
    if u == t {
      assert OnWay(next, key, next);
    } else {
      OneFurther(if Lt(key, t.key) then t.left else t.right, key, u);
    }
  }

  /** Nothing of the tree is missing. */
  ghost predicate Complete(hash: Hasher, db: Db, t: Tree)
  {
    Holds(hash, db, NodeRlp(hash, t)) && StoredBelow(hash, db, t)
  }

  /** An honest store never answers wrongly: it gives the answer of the tree the root hash names, or
      reports a missing node, which a store holding the whole tree never does. The program panics on a
      height that cannot be decoded. */
  method LookUp(hash: Hasher, db: Db, root: H256, key: Bytes, ghost universe: iset<Bytes>, ghost t: Tree)
    returns (r: Result<Option<Bytes>, AVLError>)
    requires Names(hash, universe, db, root, t) && Legible(t, key)
    ensures r.Ok? ==> r.value == Lookup(t, key)
    ensures r.Err? ==> !Complete(hash, db, t)
    ensures r == Err(InvalidStateRoot(root)) <==> Get(hash, db, root).None?
    ensures r.Err? && r.error.IncompleteDatabase? ==>
              && Get(hash, db, r.error.hash).None?
              && exists u :: OnWay(t, key, u) && r.error.hash == hash(NodeRlp(hash, u))
  {
    var h, depth := root, 0;
    ghost var cur := t;
    // through nodes kept under their hash
    while true
      invariant Names(hash, universe, db, h, cur) && Lookup(cur, key) == Lookup(t, key) && Legible(cur, key)
      invariant Complete(hash, db, t) ==> Complete(hash, db, cur)
      invariant depth == 0 ==> h == root
      invariant OnWay(t, key, cur)
      invariant depth > 0 ==> Get(hash, db, root).Some?
      decreases cur
    {
      var nodeData := Get(hash, db, h);
      if nodeData.None? {
        return Err(if depth == 0 then InvalidStateRoot(h) else IncompleteDatabase(h));
      }
      var data := nodeData.value;
      ghost var outer := cur;
      assert data == NodeRlp(hash, cur);
      var inline := true;
      // through inlined children
      while inline
        invariant Lookup(cur, key) == Lookup(t, key) && (cur == outer || cur < outer)
        invariant OnWay(t, key, cur)
        invariant Sized(hash, cur) && Within(hash, universe, cur) && Sound(cur) && Legible(cur, key)
        invariant Complete(hash, db, t) ==> StoredBelow(hash, db, cur)
        invariant inline ==> data == NodeRlp(hash, cur)
        invariant !inline ==> cur < outer && IsBig(hash, cur) && h == hash(NodeRlp(hash, cur))
        invariant !inline && Complete(hash, db, t) ==> Holds(hash, db, NodeRlp(hash, cur))
        decreases inline, cur
      {
        DecodedAs(hash, cur);
        match Decoded(data).value
        case RawLeaf(k, value) =>
          return Ok(if k == key then Some(value) else None);
        case RawEmpty =>
          return Ok(None);
        case RawBranch(_, k, left, right) =>
          OneFurther(t, key, cur);
          data := if Lt(key, k) then left else right;
          cur := if Lt(key, k) then cur.left else cur.right;
          SlotIsWhole(hash, cur);
          if IsHashSlot(data) {
            h := DecodeHash(data).value;
            inline := false;
          }
      }
      depth := depth + 1;
    }
  }
}
