/** What one removal does to a balanced tree, and what a second one can do; and what insertion and
    removal leave alone. */
module AvlRemoval {
  import opened Bytes
  import opened Order
  import opened AvlTree
  import opened AvlTheorems

  // ---------------------------------------------------------------- one removal

  /** The stored heights of siblings differ by at most one level. */
  predicate Close(t: Tree)
  {
    t.Branch? ==>
      && Close(t.left) && Close(t.right)
      && Height(t.left) <= Height(t.right) + 1 && Height(t.right) <= Height(t.left) + 1
  }

  lemma {:induction false} BalancedIsClose(t: Tree)
    requires Balanced(t)
    ensures Close(t)
  {
    if t.Branch? {
      BalancedIsClose(t.left);
      BalancedIsClose(t.right);
    }
  }

  /** r is close, and at most one level lower than t. */
  predicate ShrinksFrom(t: Tree, r: Tree)
  {
    Close(r) && Height(r) <= Height(t) <= Height(r) + 1
  }

  lemma ShrunkOnTheLeft(t: Tree, shrunk: Tree)
    requires Balanced(t) && t.Branch? && ShrinksFrom(t.left, shrunk) && CanRebalance(t.(left := shrunk))
    ensures ShrinksFrom(t, Rebalance(t.(left := shrunk)))
  {
    BalancedIsClose(t.right);
    var r, kept := Rebalance(t.(left := shrunk)), t.right;
    if Height(kept) == 2 + Height(shrunk) {
      BalancedHeights(kept);
      BalancedHeights(kept.left);
      assert r == RightRotateSuccessor(t.(left := shrunk));
      if RightHeight(kept) < LeftHeight(kept) {
        assert r.left == Branch(t.height - 1, t.key, shrunk, kept.left.left) && Close(r.left);
        assert r.right == Branch(kept.height - 1, kept.key, kept.left.right, kept.right) && Close(r.right);
      } else {
        assert r.left == Branch(t.height - 1, t.key, shrunk, kept.left) && Close(r.left);
        assert r.right == kept.right;
      }
    } else {
      assert r == t.(height := Max(Height(shrunk), Height(kept)) + 1, left := shrunk);
    }
  }

  lemma ShrunkOnTheRight(t: Tree, shrunk: Tree)
    requires Balanced(t) && t.Branch? && ShrinksFrom(t.right, shrunk) && CanRebalance(t.(right := shrunk))
    ensures ShrinksFrom(t, Rebalance(t.(right := shrunk)))
  {
    BalancedIsClose(t.left);
    var r, kept := Rebalance(t.(right := shrunk)), t.left;
    if Height(kept) == 2 + Height(shrunk) {
      BalancedHeights(kept);
      BalancedHeights(kept.right);
      assert r == LeftRotateSuccessor(t.(right := shrunk));
      if LeftHeight(kept) < RightHeight(kept) {
        assert r.right == Branch(t.height - 1, t.key, kept.right.right, shrunk) && Close(r.right);
        assert r.left == Branch(kept.height - 1, kept.key, kept.left, kept.right.left) && Close(r.left);
      } else {
        assert r.right == Branch(t.height - 1, t.key, kept.right, shrunk) && Close(r.right);
        assert r.left == kept.left;
      }
    } else {
      assert r == t.(height := Max(Height(kept), Height(shrunk)) + 1, right := shrunk);
    }
  }

  lemma PromotedIsClose(t: Tree, sibling: Tree)
    requires Balanced(t) && t.Branch? && Height(t) == 1 + Height(sibling) && Balanced(sibling)
    ensures CanRebalance(sibling) && ShrinksFrom(t, Rebalance(sibling))
  {
    BalancedIsClose(sibling);
    BalancedIsSound(sibling);
    SoundIsNearlySound(sibling);
    NearlySoundCanRebalance(sibling);
  }

  /** Removal takes a tree with exact heights and sibling difference at most one to one in which the
      stored heights of siblings still differ by at most one, and lowers it by at most one level. */
  lemma {:induction false} RemoveKeepsClose(t: Tree, key: Bytes)
    requires Balanced(t)
    ensures Sound(t) && ShrinksFrom(t, Removed(t, key))
    ensures Remove(t, key).Deleted? ==> Height(t) <= 1
  {
    BalancedIsSound(t);
    BalancedIsClose(t);
    if t.Branch? {
      BalancedHeights(t.left);
      BalancedHeights(t.right);
      if Lt(key, t.key) {
        RemoveKeepsClose(t.left, key);
        RemovedOnTheLeft(t, key);
      } else {
        RemoveKeepsClose(t.right, key);
        RemovedOnTheRight(t, key);
      }
    } else {
      var i := RemoveInspect(t, key);
      assert Removed(t, key) == if i.Deleted? then Empty else t;
    }
  }

  lemma RemovedOnTheLeft(t: Tree, key: Bytes)
    requires Balanced(t) && Sound(t) && t.Branch? && Lt(key, t.key) && ShrinksFrom(t.left, Removed(t.left, key))
    requires Remove(t.left, key).Deleted? ==> Height(t.left) <= 1
    ensures Remove(t, key).Kept? && ShrinksFrom(t, Removed(t, key))
  {
    BalancedHeights(t.left);
    BalancedHeights(t.right);
    BalancedIsClose(t);
    var i := RemoveInspect(t, key);
    match Remove(t.left, key)
    case Deleted => PromotedIsClose(t, t.right);
    case Kept(child, changed) =>
      assert i == Kept(t.(left := child), changed);
      if changed {
        ShrunkOnTheLeft(t, child);
      }
  }

  lemma RemovedOnTheRight(t: Tree, key: Bytes)
    requires Balanced(t) && Sound(t) && t.Branch? && !Lt(key, t.key) && ShrinksFrom(t.right, Removed(t.right, key))
    requires Remove(t.right, key).Deleted? ==> Height(t.right) <= 1
    ensures Remove(t, key).Kept? && ShrinksFrom(t, Removed(t, key))
  {
    BalancedHeights(t.left);
    BalancedHeights(t.right);
    BalancedIsClose(t);
    var i := RemoveInspect(t, key);
    match Remove(t.right, key)
    case Deleted => PromotedIsClose(t, t.left);
    case Kept(child, changed) =>
      assert i == Kept(t.(right := child), changed);
      if changed {
        ShrunkOnTheRight(t, child);
      }
  }

  // ---------------------------------------------------------------- a second removal

  lemma RunStep(ops: seq<Op>, op: Op)
    ensures RunTree(ops + [op]) == ApplyToTree(RunTree(ops), op)
  {
    assert (ops + [op])[..|ops|] == ops;
  }

  lemma SplitsLeaf(k: Bytes, v: Bytes, key: Bytes, value: Bytes)
    requires Lt(k, key) && k != key
    ensures Insert(Leaf(k, v), key, value) == InsertResult(Branch(2, key, Leaf(k, v), Leaf(key, value)), true, None)
  {
    var i := InsertInspect(Leaf(k, v), key, value);
    assert i == InsertResult(Branch(1, key, Leaf(k, v), Leaf(key, value)), true, None);
  }

  lemma InsertsRight(t: Tree, key: Bytes, value: Bytes, child: Tree)
    requires Sound(t) && t.Branch? && !Lt(key, t.key)
    requires Insert(t.right, key, value) == InsertResult(child, true, None)
    ensures CanRebalance(t.(right := child))
    ensures Insert(t, key, value) == InsertResult(Rebalance(t.(right := child)), true, None)
  {
    assert InsertInspect(t, key, value) == InsertResult(t.(right := child), true, None);
  }

  lemma RemovesLeftLeaf(h: nat, k: Bytes, l: Tree, r: Tree, key: Bytes)
    requires l.Leaf? && r.Leaf? && h >= 2 && Lt(key, k) && l.key == key
    ensures Remove(Branch(h, k, l, r), key) == Kept(r, true)
  {
    var t := Branch(h, k, l, r);
    assert RemoveInspect(l, key) == Deleted;
    assert RemoveInspect(t, key) == Kept(r, true);
  }

  lemma RemovesBelow(t: Tree, key: Bytes, child: Tree)
    requires Sound(t) && t.Branch?
    requires Remove(if Lt(key, t.key) then t.left else t.right, key) == Kept(child, true)
    ensures var node := if Lt(key, t.key) then t.(left := child) else t.(right := child);
            CanRebalance(node) && Remove(t, key) == Kept(Rebalance(node), true)
  {
    var node := if Lt(key, t.key) then t.(left := child) else t.(right := child);
    assert RemoveInspect(t, key) == Kept(node, true);
  }

  ghost predicate Below(a: Bytes, b: Bytes) { Lt(a, b) && !Lt(b, a) && a != b }

  /** The tree of five keys in ascending order. */
  function Five(k: seq<Bytes>, v: seq<Bytes>): Tree
    requires |k| == |v| == 5
  {
    Branch(4, k[2], Branch(2, k[1], Leaf(k[0], v[0]), Leaf(k[1], v[1])),
           Branch(3, k[3], Leaf(k[2], v[2]), Branch(2, k[4], Leaf(k[3], v[3]), Leaf(k[4], v[4]))))
  }

  ghost predicate Ascending(k: seq<Bytes>)
  {
    forall i, j | 0 <= i < j < |k| :: Below(k[i], k[j])
  }

  /** Three keys, the third to the right of the others. */
  lemma ThreeInserted(k0: Bytes, k1: Bytes, k2: Bytes, v0: Bytes, v1: Bytes, v2: Bytes)
    requires Below(k0, k1) && Below(k1, k2) && v0 != [] && v1 != [] && v2 != []
    ensures RunTree([Put(k0, v0), Put(k1, v1), Put(k2, v2)])
         == Branch(3, k1, Leaf(k0, v0), Branch(2, k2, Leaf(k1, v1), Leaf(k2, v2)))
  {
    var l0, l1, two := Leaf(k0, v0), Leaf(k1, v1), Branch(2, k2, Leaf(k1, v1), Leaf(k2, v2));
    RunStep([], Put(k0, v0));
    assert [] + [Put(k0, v0)] == [Put(k0, v0)];
    assert InsertInspect(Empty, k0, v0) == InsertResult(l0, true, None);
    assert RunTree([]) == Empty && RunTree([Put(k0, v0)]) == l0;
    RunStep([Put(k0, v0)], Put(k1, v1));
    SplitsLeaf(k0, v0, k1, v1);
    assert [Put(k0, v0)] + [Put(k1, v1)] == [Put(k0, v0), Put(k1, v1)];
    RunStep([Put(k0, v0), Put(k1, v1)], Put(k2, v2));
    SplitsLeaf(k1, v1, k2, v2);
    InsertsRight(Branch(2, k1, l0, l1), k2, v2, two);
    assert [Put(k0, v0), Put(k1, v1)] + [Put(k2, v2)] == [Put(k0, v0), Put(k1, v1), Put(k2, v2)];
  }

  lemma FourthInserted(k: seq<Bytes>, v: seq<Bytes>)
    requires |k| == |v| == 5 && Ascending(k)
    ensures var t := Branch(3, k[1], Leaf(k[0], v[0]), Branch(2, k[2], Leaf(k[1], v[1]), Leaf(k[2], v[2])));
            Insert(t, k[3], v[3]) == InsertResult(
              Branch(3, k[2], Branch(2, k[1], Leaf(k[0], v[0]), Leaf(k[1], v[1])),
                     Branch(2, k[3], Leaf(k[2], v[2]), Leaf(k[3], v[3]))), true, None)
  {
    var l1, l2, l3 := Leaf(k[1], v[1]), Leaf(k[2], v[2]), Leaf(k[3], v[3]);
    var t := Branch(3, k[1], Leaf(k[0], v[0]), Branch(2, k[2], l1, l2));
    assert Below(k[2], k[3]) && Below(k[1], k[3]);
    SplitsLeaf(k[2], v[2], k[3], v[3]);
    InsertsRight(Branch(2, k[2], l1, l2), k[3], v[3], Branch(2, k[3], l2, l3));
    InsertsRight(t, k[3], v[3], Branch(3, k[2], l1, Branch(2, k[3], l2, l3)));
  }

  lemma FifthInserted(k: seq<Bytes>, v: seq<Bytes>)
    requires |k| == |v| == 5 && Ascending(k)
    ensures var t := Branch(3, k[2], Branch(2, k[1], Leaf(k[0], v[0]), Leaf(k[1], v[1])),
                            Branch(2, k[3], Leaf(k[2], v[2]), Leaf(k[3], v[3])));
            Insert(t, k[4], v[4]) == InsertResult(Five(k, v), true, None)
  {
    var l2, l3, l4 := Leaf(k[2], v[2]), Leaf(k[3], v[3]), Leaf(k[4], v[4]);
    var t := Branch(3, k[2], Branch(2, k[1], Leaf(k[0], v[0]), Leaf(k[1], v[1])), Branch(2, k[3], l2, l3));
    assert Below(k[3], k[4]) && Below(k[2], k[4]);
    SplitsLeaf(k[3], v[3], k[4], v[4]);
    InsertsRight(Branch(2, k[3], l2, l3), k[4], v[4], Branch(2, k[4], l3, l4));
    InsertsRight(t, k[4], v[4], Branch(3, k[3], l2, Branch(2, k[4], l3, l4)));
  }

  lemma FiveInserted(k: seq<Bytes>, v: seq<Bytes>)
    requires |k| == |v| == 5 && Ascending(k) && forall j | 0 <= j < 5 :: v[j] != []
    ensures RunTree([Put(k[0], v[0]), Put(k[1], v[1]), Put(k[2], v[2]), Put(k[3], v[3]), Put(k[4], v[4])]) == Five(k, v)
  {
    assert Below(k[0], k[1]) && Below(k[1], k[2]);
    ThreeInserted(k[0], k[1], k[2], v[0], v[1], v[2]);
    var three := [Put(k[0], v[0]), Put(k[1], v[1]), Put(k[2], v[2])];
    FourthInserted(k, v);
    RunStep(three, Put(k[3], v[3]));
    FifthInserted(k, v);
    RunStep(three + [Put(k[3], v[3])], Put(k[4], v[4]));
    assert three + [Put(k[3], v[3])] + [Put(k[4], v[4])]
        == [Put(k[0], v[0]), Put(k[1], v[1]), Put(k[2], v[2]), Put(k[3], v[3]), Put(k[4], v[4])];
  }

  lemma SoundBranch(h: nat, k: Bytes, l: Tree, r: Tree)
    requires Sound(l) && Sound(r) && !l.Empty? && !r.Empty? && h > Height(l) && h > Height(r)
    ensures Sound(Branch(h, k, l, r))
  {
  }

  /** The first removal rotates: the node that comes down is stored one level too high. */
  lemma FirstRemoval(k: seq<Bytes>, v: seq<Bytes>)
    requires |k| == |v| == 5 && Ascending(k)
    ensures Sound(Five(k, v))
    ensures Removed(Five(k, v), k[0])
         == Branch(4, k[3], Branch(3, k[2], Leaf(k[1], v[1]), Leaf(k[2], v[2])),
                   Branch(2, k[4], Leaf(k[3], v[3]), Leaf(k[4], v[4])))
  {
    assert Below(k[0], k[1]) && Below(k[0], k[2]);
    RemovesLeftLeaf(2, k[1], Leaf(k[0], v[0]), Leaf(k[1], v[1]), k[0]);
    SoundBranch(2, k[1], Leaf(k[0], v[0]), Leaf(k[1], v[1]));
    SoundBranch(2, k[4], Leaf(k[3], v[3]), Leaf(k[4], v[4]));
    SoundBranch(3, k[3], Leaf(k[2], v[2]), Five(k, v).right.right);
    RemovesBelow(Five(k, v), k[0], Leaf(k[1], v[1]));
  }

  /** A second one goes by that height, and leaves a leaf beside a node stored two levels higher. */
  lemma SecondRemoval(k: seq<Bytes>, v: seq<Bytes>, t: Tree)
    requires |k| == |v| == 5 && Ascending(k)
    requires t == Branch(4, k[3], Branch(3, k[2], Leaf(k[1], v[1]), Leaf(k[2], v[2])),
                         Branch(2, k[4], Leaf(k[3], v[3]), Leaf(k[4], v[4])))
    ensures Sound(t)
    ensures Removed(t, k[3])
         == Branch(4, k[2], Leaf(k[1], v[1]), Branch(3, k[3], Leaf(k[2], v[2]), Leaf(k[4], v[4])))
  {
    assert Below(k[3], k[4]) && !Lt(k[3], k[3]) by {
      LtIsRank(k[3], k[3]);
    }
    RemovesLeftLeaf(2, k[4], Leaf(k[3], v[3]), Leaf(k[4], v[4]), k[3]);
    RemovesBelow(t, k[3], Leaf(k[4], v[4]));
  }

  /** So over whole runs that closeness is not kept: five insertions and two removals lose it. */
  lemma SecondRemovalTips(k: seq<Bytes>, v: seq<Bytes>) returns (ops: seq<Op>)
    requires |k| == |v| == 5 && Ascending(k) && forall j | 0 <= j < 5 :: v[j] != []
    ensures ops == [Put(k[0], v[0]), Put(k[1], v[1]), Put(k[2], v[2]), Put(k[3], v[3]), Put(k[4], v[4]),
                    Delete(k[0]), Delete(k[3])]
    ensures RunTree(ops) == Branch(4, k[2], Leaf(k[1], v[1]), Branch(3, k[3], Leaf(k[2], v[2]), Leaf(k[4], v[4])))
    ensures !Close(RunTree(ops))
  {
    var five := [Put(k[0], v[0]), Put(k[1], v[1]), Put(k[2], v[2]), Put(k[3], v[3]), Put(k[4], v[4])];
    FiveInserted(k, v);
    FirstRemoval(k, v);
    RunStep(five, Delete(k[0]));
    SecondRemoval(k, v, Removed(Five(k, v), k[0]));
    RunStep(five + [Delete(k[0])], Delete(k[3]));
    ops := five + [Delete(k[0])] + [Delete(k[3])];
  }

  // ---------------------------------------------------------------- flags and routing keys

  /** Insertion reports a change exactly when the key had another value or none. */
  lemma {:induction false} InsertChangesIff(t: Tree, key: Bytes, value: Bytes)
    requires Sound(t)
    ensures Insert(t, key, value).changed <==> Lookup(t, key) != Some(value)
    decreases t
  {
    var i := InsertInspect(t, key, value);
    assert Insert(t, key, value).changed == i.changed;
    if t.Branch? {
      InsertChangesIff(if Lt(key, t.key) then t.left else t.right, key, value);
    }
  }

  /** Removal reports a change exactly when the key was there. */
  lemma {:induction false} RemoveChangesIff(t: Tree, key: Bytes)
    requires Sound(t) && !t.Empty?
    ensures Remove(t, key) == Kept(t, false) <==> Lookup(t, key).None?
    ensures Remove(t, key).Kept? && !Remove(t, key).changed ==> Lookup(t, key).None?
    decreases t
  {
    var i := RemoveInspect(t, key);
    if t.Branch? {
      RemoveChangesIff(if Lt(key, t.key) then t.left else t.right, key);
    }
  }

  function BranchKeys(t: Tree): set<Bytes>
  {
    if t.Branch? then {t.key} + BranchKeys(t.left) + BranchKeys(t.right) else {}
  }

  lemma RebalanceKeepsBranchKeys(t: Tree)
    requires CanRebalance(t)
    ensures BranchKeys(Rebalance(t)) == BranchKeys(t)
  {
    if t.Branch? && LeftHeight(t) == 2 + RightHeight(t) {
      var k2 := t.left;
      if LeftHeight(k2) < RightHeight(k2) {
        assert BranchKeys(RightRotate(k2, k2.right)) == BranchKeys(k2);
        k2 := RightRotate(k2, k2.right);
      }
      assert BranchKeys(LeftRotate(t, k2)) == BranchKeys(t.(left := k2));
    } else if t.Branch? && RightHeight(t) == 2 + LeftHeight(t) {
      var k2 := t.right;
      if RightHeight(k2) < LeftHeight(k2) {
        assert BranchKeys(LeftRotate(k2, k2.left)) == BranchKeys(k2);
        k2 := LeftRotate(k2, k2.left);
      }
      assert BranchKeys(RightRotate(t, k2)) == BranchKeys(t.(right := k2));
    }
  }

  /** Insertion makes no routing key but one that was there before, or a key of the map. */
  lemma {:induction false} InsertRoutesByKeys(t: Tree, key: Bytes, value: Bytes)
    requires Sound(t)
    ensures BranchKeys(Insert(t, key, value).tree) <= BranchKeys(t) + Keys(t) + {key}
    decreases t
  {
    var i := InsertInspect(t, key, value);
    if t.Branch? {
      var child := if Lt(key, t.key) then t.left else t.right;
      InsertRoutesByKeys(child, key, value);
      assert BranchKeys(child) <= BranchKeys(t) && Keys(child) <= Keys(t);
    }
    assert BranchKeys(i.tree) <= BranchKeys(t) + Keys(t) + {key};
    if i.changed {
      RebalanceKeepsBranchKeys(i.tree);
    }
  }

  /** Removal makes none. */
  lemma {:induction false} RemoveRoutesByKeys(t: Tree, key: Bytes)
    requires Sound(t)
    ensures BranchKeys(Removed(t, key)) <= BranchKeys(t)
    decreases t
  {
    var i := RemoveInspect(t, key);
    if t.Branch? {
      RemoveRoutesByKeys(if Lt(key, t.key) then t.left else t.right, key);
      assert BranchKeys(i.tree) <= BranchKeys(t);
      if i.changed {
        RebalanceKeepsBranchKeys(i.tree);
      }
    }
  }
}
