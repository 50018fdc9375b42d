/** Which stored nodes an in-memory tree still relies on. */
module AvlBacking {
  import opened Bytes
  import opened HashDb
  import opened AvlTree
  import opened AvlTheorems
  import opened Order
  import opened AvlNode
  import opened AvlStorage

  /** The store together with the hash and the strings it does not collide on. */
  datatype World = World(hash: Hasher, universe: iset<Bytes>, db: Db)

  ghost predicate InStore(w: World, t: Tree) { Rooted(w.hash, w.universe, w.db, t) }

  function HashOfTree(hash: Hasher, t: Tree): H256 { hash(NodeRlp(hash, t)) }

  /** The nodes below the root of t that are kept in the store under their hash. */
  ghost function Below(hash: Hasher, t: Tree): set<Tree>
    decreases t, 0
  {
    if t.Branch? then KeptFrom(hash, t.left) + KeptFrom(hash, t.right) else {}
  }

  ghost function KeptFrom(hash: Hasher, t: Tree): set<Tree>
    decreases t, 1
  {
    (if IsBig(hash, t) then {t} else {}) + Below(hash, t)
  }

  ghost function NonEmpty(t: Tree): set<Tree> { if t.Empty? then {} else {t} }

  /** Every stored node the shape refers to, directly or from inside the store. */
  ghost function Live(hash: Hasher, s: Shape): set<Tree>
    decreases s
  {
    match s
    case Unloaded(_, t) => NonEmpty(t) + Below(hash, t)
    case Mem(_, o, g) =>
      (if o.Some? then NonEmpty(NodeAbs(g)) + Below(hash, NodeAbs(g)) else {}) + NodeLive(hash, g)
  }

  ghost function NodeLive(hash: Hasher, g: GNode): set<Tree>
    decreases g
  {
    if g.GBranch? then Live(hash, g.left) + Live(hash, g.right) else {}
  }

  /** The shape is referred to by hash when it is committed. */
  predicate Hashed(s: Shape) { s.Unloaded? || s.origin.Some? }

  /** Every hash in the shape leads to the tree it stands for. */
  ghost predicate Backed(w: World, s: Shape)
    decreases s
  {
    match s
    case Unloaded(h, t) => h == HashOfTree(w.hash, t) && InStore(w, t)
    case Mem(_, o, g) =>
      && (o.Some? ==> o.value == HashOfTree(w.hash, NodeAbs(g)) && InStore(w, NodeAbs(g)))
      && NodeBacked(w, g)
  }

  /** Children are only kept under a hash when their encoding is not short enough to be inlined. */
  ghost predicate NodeBacked(w: World, g: GNode)
    decreases g
  {
    g.GBranch? ==>
      && Backed(w, g.left) && (Hashed(g.left) ==> IsBig(w.hash, Abs(g.left)))
      && Backed(w, g.right) && (Hashed(g.right) ==> IsBig(w.hash, Abs(g.right)))
  }

  lemma LeafShape(w: World, a: Arena, index: nat, k: Bytes, v: Bytes)
    requires InUse(a, index) && a.nodes[index] == New(LeafNode(k, v))
    ensures var s := Mem(index, None, GLeaf(k, v));
            && Owns(a, s) && Cells(s) == {index} && Abs(s) == Leaf(k, v)
            && Live(w.hash, s) == {} && Backed(w, s)
  {
    var g := GLeaf(k, v);
    assert NodeAbs(g) == Leaf(k, v) && NodeCells(g) == {} && NodeLive(w.hash, g) == {} && NodeBacked(w, g);
  }

  // ---------------------------------------------------------------- stored nodes know their keys

  /** u is a non-empty tree in the store with keys of t only, and no more leaves than t. */
  ghost predicate PartOf(w: World, u: Tree, t: Tree, leaves: int)
  {
    !u.Empty? && InStore(w, u) && Keys(u) <= Keys(t) && Leaves(u) <= leaves
  }

  lemma {:induction false} SoundHasKeys(t: Tree)
    requires Sound(t) && !t.Empty?
    ensures Keys(t) != {} && Leaves(t) >= 1
  {
    match t
    case Leaf(k, _) => assert k in Keys(t);
    case Branch(_, _, l, r) =>
      SoundHasKeys(l);
      SoundHasKeys(r);
      var k :| k in Keys(l);
      assert k in Keys(t);
  }

  lemma {:induction false} BelowIsPart(w: World, t: Tree, u: Tree)
    requires StoredBelow(w.hash, w.db, t) && Storable(w.hash, t) && Within(w.hash, w.universe, t) && Sound(t)
    requires u in Below(w.hash, t)
    ensures PartOf(w, u, t, Leaves(t) - 1) && Leaves(t) >= 1
    decreases t
  {
    SoundHasKeys(t.left);
    SoundHasKeys(t.right);
    if u in KeptFrom(w.hash, t.left) {
      if u != t.left || !IsBig(w.hash, t.left) {
        BelowIsPart(w, t.left, u);
      }
    } else {
      if u != t.right || !IsBig(w.hash, t.right) {
        BelowIsPart(w, t.right, u);
      }
    }
  }

  lemma {:induction false} LiveIsPart(w: World, s: Shape, u: Tree)
    requires Backed(w, s) && Sound(Abs(s)) && u in Live(w.hash, s)
    ensures PartOf(w, u, Abs(s), Leaves(Abs(s)))
    decreases s
  {
    match s
    case Unloaded(_, t) =>
      if u in Below(w.hash, t) {
        BelowIsPart(w, t, u);
      }
    case Mem(_, o, g) =>
      if u in NodeLive(w.hash, g) {
        NodeLiveIsPart(w, g, u);
      } else if u in Below(w.hash, NodeAbs(g)) {
        BelowIsPart(w, NodeAbs(g), u);
      }
  }

  lemma {:induction false} NodeLiveIsPart(w: World, g: GNode, u: Tree)
    requires NodeBacked(w, g) && Sound(NodeAbs(g)) && u in NodeLive(w.hash, g)
    ensures PartOf(w, u, NodeAbs(g), Leaves(NodeAbs(g)) - 1) && Leaves(NodeAbs(g)) >= 1
    decreases g
  {
    SoundHasKeys(Abs(g.left));
    SoundHasKeys(Abs(g.right));
    if u in Live(w.hash, g.left) {
      LiveIsPart(w, g.left, u);
    } else {
      LiveIsPart(w, g.right, u);
    }
  }

  /** A node is no stored part of itself, and its two children share no stored node. */
  lemma LiveApart(w: World, g: GNode, lo: real, hi: real)
    requires NodeBacked(w, g) && Sound(NodeAbs(g)) && Ordered(NodeAbs(g), lo, hi)
    ensures NodeAbs(g) !in NodeLive(w.hash, g)
    ensures g.GBranch? ==> Live(w.hash, g.left) !! Live(w.hash, g.right)
  {
    if NodeAbs(g) in NodeLive(w.hash, g) {
      NodeLiveIsPart(w, g, NodeAbs(g));
    }
    if g.GBranch? {
      var l, r, k := Abs(g.left), Abs(g.right), g.key;
      KeysAreAnswers(l, lo, Rank(k));
      KeysAreAnswers(r, Rank(k), hi);
      forall u | u in Live(w.hash, g.left)
        ensures u !in Live(w.hash, g.right)
      {
        if u in Live(w.hash, g.right) {
          LiveIsPart(w, g.left, u);
          LiveIsPart(w, g.right, u);
          SoundHasKeys(u);
          assert false;
        }
      }
    }
  }

  // ---------------------------------------------------------------- nodes given up

  /** Some live nodes may have been given up, none of them needed by what is live now. */
  ghost predicate Dies(dead: set<Tree>, live: set<Tree>, dead': set<Tree>, live': set<Tree>)
  {
    dead <= dead' && dead' <= dead + live && live' <= live && (dead' - dead) !! live'
  }

  lemma DiesWidens(dead: set<Tree>, live: set<Tree>, wider: set<Tree>, dead': set<Tree>, live': set<Tree>)
    requires Dies(dead, live, dead', live') && live <= wider
    ensures Dies(dead, wider, dead', live')
  {
  }

  /** What dies below one child leaves the other alone. */
  lemma DiesBeside(dead: set<Tree>, kid: set<Tree>, other: set<Tree>, dead': set<Tree>, kid': set<Tree>,
                   other': set<Tree>)
    requires Dies(dead, kid, dead', kid') && kid !! other && other' <= other
    ensures Dies(dead, kid + other, dead', kid' + other')
  {
  }

  /** The death row names nodes given up, all of which are in the store. */
  ghost predicate Buried(w: World, deathRow: set<H256>, dead: set<Tree>)
  {
    && (forall h <- deathRow :: h == w.hash(NULL_RLP) || exists u <- dead :: h == HashOfTree(w.hash, u))
    && (forall u <- dead :: !u.Empty? && InStore(w, u))
  }

  /** A node still needed is not on death row. */
  lemma LiveIsNotBuried(w: World, deathRow: set<H256>, dead: set<Tree>, u: Tree)
    requires NoCollisions(w.hash, w.universe) && Buried(w, deathRow, dead)
    requires InStore(w, u) && !u.Empty? && u !in dead
    ensures HashOfTree(w.hash, u) !in deathRow
  {
    if HashOfTree(w.hash, u) in deathRow {
      if HashOfTree(w.hash, u) == w.hash(NULL_RLP) {
        NodeIsWhole(w.hash, u);
        assert false;
      } else {
        var v :| v in dead && HashOfTree(w.hash, u) == HashOfTree(w.hash, v);
        NodeRlpInjective(w.hash, w.universe, u, v);
      }
    }
  }

  // ---------------------------------------------------------------- changes of the store

  /** Trees stay readable as long as the nodes they need stay in the store. */
  lemma {:induction false} StoredSurvives(w: World, db': Db, t: Tree)
    requires StoredBelow(w.hash, w.db, t)
    requires forall u <- Below(w.hash, t) :: Holds(w.hash, db', NodeRlp(w.hash, u))
    ensures StoredBelow(w.hash, db', t)
    decreases t
  {
    if t.Branch? {
      assert Below(w.hash, t.left) <= KeptFrom(w.hash, t.left) <= Below(w.hash, t);
      assert Below(w.hash, t.right) <= KeptFrom(w.hash, t.right) <= Below(w.hash, t);
      StoredSurvives(w, db', t.left);
      StoredSurvives(w, db', t.right);
    }
  }

  lemma {:induction false} BackedSurvives(w: World, db': Db, s: Shape)
    requires Backed(w, s)
    requires forall u <- Live(w.hash, s) :: Holds(w.hash, db', NodeRlp(w.hash, u))
    ensures Backed(w.(db := db'), s)
    decreases s
  {
    if Hashed(s) {
      StoredSurvives(w, db', Abs(s));
    }
    if s.Mem? {
      NodeBackedSurvives(w, db', s.node);
    }
  }

  lemma {:induction false} NodeBackedSurvives(w: World, db': Db, g: GNode)
    requires NodeBacked(w, g)
    requires forall u <- NodeLive(w.hash, g) :: Holds(w.hash, db', NodeRlp(w.hash, u))
    ensures NodeBacked(w.(db := db'), g)
    decreases g
  {
    if g.GBranch? {
      BackedSurvives(w, db', g.left);
      BackedSurvives(w, db', g.right);
    }
  }

  lemma {:induction false} BackedGrows(w: World, db': Db, s: Shape)
    requires Backed(w, s) && Grows(w.hash, w.db, db')
    ensures Backed(w.(db := db'), s)
    decreases s
  {
    if Hashed(s) {
      StoredGrows(w.hash, w.db, db', Abs(s));
    }
    if s.Mem? {
      NodeBackedGrows(w, db', s.node);
    }
  }

  lemma {:induction false} NodeBackedGrows(w: World, db': Db, g: GNode)
    requires NodeBacked(w, g) && Grows(w.hash, w.db, db')
    ensures NodeBacked(w.(db := db'), g)
    decreases g
  {
    if g.GBranch? {
      BackedGrows(w, db', g.left);
      BackedGrows(w, db', g.right);
    }
  }

  /** Clearing the death row leaves everything still needed in the store. */
  lemma ClearedStoreBacks(w: World, deathRow: set<H256>, dead: set<Tree>, db': Db, s: Shape)
    requires NoCollisions(w.hash, w.universe) && Buried(w, deathRow, dead)
    requires Backed(w, s) && Sound(Abs(s)) && dead !! Live(w.hash, s)
    requires forall b :: Holds(w.hash, w.db, b) && (w.hash(b) !in deathRow || b == NULL_RLP) ==> Holds(w.hash, db', b)
    ensures Backed(w.(db := db'), s)
  {
    forall u <- Live(w.hash, s)
      ensures Holds(w.hash, db', NodeRlp(w.hash, u))
    {
      LiveIsPart(w, s, u);
      LiveIsNotBuried(w, deathRow, dead, u);
    }
    BackedSurvives(w, db', s);
  }
}
