/** The leaf-oriented AVL tree as a value: insertion, removal and rebalancing exactly as the
    mutable tree performs them, including the stale heights its rotations assign. */
module AvlTree {
  import opened Bytes
  import opened Order

  /** Branches route: keys below the branch key are on the left, the others on the right. */
  datatype Tree =
    | Empty
    | Leaf(key: Bytes, value: Bytes)
    | Branch(height: nat, key: Bytes, left: Tree, right: Tree)

  /** The stored height. */
  function Height(t: Tree): nat
  {
    match t
    case Empty => 0
    case Leaf(_, _) => 1
    case Branch(h, _, _, _) => h
  }

  function Max(a: nat, b: nat): nat { if a > b then a else b }

  function LeftHeight(t: Tree): nat { if t.Branch? then Height(t.left) else 0 }

  function RightHeight(t: Tree): nat { if t.Branch? then Height(t.right) else 0 }

  // ---------------------------------------------------------------- rotations

  /** k2, the left child of k1, becomes the root. It takes over the height stored in k1. */
  function LeftRotate(k1: Tree, k2: Tree): Tree
    requires k1.Branch? && k2.Branch? && k1.height >= 1
  {
    Branch(k1.height, k2.key, k2.left, Branch(k1.height - 1, k1.key, k2.right, k1.right))
  }

  function RightRotate(k1: Tree, k2: Tree): Tree
    requires k1.Branch? && k2.Branch? && k1.height >= 1
  {
    Branch(k1.height, k2.key, Branch(k1.height - 1, k1.key, k1.left, k2.left), k2.right)
  }

  /** No arm marked unreachable is entered and no height drops below zero. */
  predicate CanRotateLeft(t: Tree)
  {
    && t.Branch? && t.height >= 1 && t.left.Branch?
    && (LeftHeight(t.left) < RightHeight(t.left) ==> t.left.height >= 1 && t.left.right.Branch?)
  }

  predicate CanRotateRight(t: Tree)
  {
    && t.Branch? && t.height >= 1 && t.right.Branch?
    && (RightHeight(t.right) < LeftHeight(t.right) ==> t.right.height >= 1 && t.right.left.Branch?)
  }

  function LeftRotateSuccessor(k1: Tree): Tree
    requires CanRotateLeft(k1)
  {
    var k2 := k1.left;
    if LeftHeight(k2) < RightHeight(k2) then LeftRotate(k1, RightRotate(k2, k2.right)) else LeftRotate(k1, k2)
  }

  function RightRotateSuccessor(k1: Tree): Tree
    requires CanRotateRight(k1)
  {
    var k2 := k1.right;
    if RightHeight(k2) < LeftHeight(k2) then RightRotate(k1, LeftRotate(k2, k2.left)) else RightRotate(k1, k2)
  }

  /** What rebalancing a node whose children are sound needs to stay clear of unreachable arms. */
  predicate CanRebalance(t: Tree)
  {
    && (LeftHeight(t) == 2 + RightHeight(t) ==> CanRotateLeft(t))
    && (RightHeight(t) == 2 + LeftHeight(t) ==> CanRotateRight(t))
  }

  function Rebalance(t: Tree): Tree
    requires CanRebalance(t)
  {
    var lh, rh := LeftHeight(t), RightHeight(t);
    if lh == 2 + rh then LeftRotateSuccessor(t)
    else if rh == 2 + lh then RightRotateSuccessor(t)
    else if t.Branch? then t.(height := Max(lh, rh) + 1)
    else t
  }

  // ---------------------------------------------------------------- soundness of stored heights

  /** No branch has an empty child, and every stored height exceeds those of the children. */
  predicate Sound(t: Tree)
  {
    t.Branch? ==>
      && !t.left.Empty? && !t.right.Empty?
      && Sound(t.left) && Sound(t.right)
      && t.height >= 1 + Max(Height(t.left), Height(t.right))
  }

  /** A branch whose own height may be one behind: one child may have grown by one level, and if so
      that child is lopsided or a pair of leaves. */
  predicate NearlySound(t: Tree)
  {
    t.Branch? ==>
      && !t.left.Empty? && !t.right.Empty?
      && Sound(t.left) && Sound(t.right)
      && t.height >= 1
      && (t.height >= 1 + Height(t.left) || (t.height == Height(t.left) && GrownChild(t.left)))
      && (t.height >= 1 + Height(t.right) || (t.height == Height(t.right) && GrownChild(t.right)))
  }

  predicate GrownChild(t: Tree)
  {
    && t.Branch?
    && (LeftHeight(t) < t.height - 1 || RightHeight(t) < t.height - 1 || t.height <= 2)
  }

  lemma NearlySoundCanRebalance(t: Tree)
    requires NearlySound(t)
    ensures CanRebalance(t)
  {
    if t.Branch? {
      HeightPositive(t.left);
      HeightPositive(t.right);
    }
  }

  lemma HeightPositive(t: Tree)
    requires Sound(t) && !t.Empty?
    ensures Height(t) >= 1
    ensures Height(t) >= 2 ==> t.Branch?
    ensures t.Branch? ==> LeftHeight(t) >= 1 && RightHeight(t) >= 1 && t.height >= 2
  {
    if t.Branch? {
      HeightPositive(t.left);
      HeightPositive(t.right);
    }
  }

  lemma SoundIsNearlySound(t: Tree)
    requires Sound(t)
    ensures NearlySound(t)
  {
  }

  lemma LeftRotationIsSound(t: Tree)
    requires NearlySound(t) && t.Branch? && LeftHeight(t) == 2 + RightHeight(t)
    ensures CanRotateLeft(t)
    ensures var r := LeftRotateSuccessor(t); Sound(r) && !r.Empty? && r.height == t.height
  {
    NearlySoundCanRebalance(t);
    var k2 := t.left;
    HeightPositive(t.right);
    HeightPositive(k2.left);
    HeightPositive(k2.right);
    if Height(k2.left) < Height(k2.right) {
      var k3 := k2.right;
      assert Sound(Branch(k2.height - 1, k2.key, k2.left, k3.left));
      assert Sound(Branch(t.height - 1, t.key, k3.right, t.right));
    } else {
      assert Sound(Branch(t.height - 1, t.key, k2.right, t.right));
    }
  }

  lemma RightRotationIsSound(t: Tree)
    requires NearlySound(t) && t.Branch? && RightHeight(t) == 2 + LeftHeight(t)
    ensures CanRotateRight(t)
    ensures var r := RightRotateSuccessor(t); Sound(r) && !r.Empty? && r.height == t.height
  {
    NearlySoundCanRebalance(t);
    var k2 := t.right;
    HeightPositive(t.left);
    HeightPositive(k2.left);
    HeightPositive(k2.right);
    if Height(k2.right) < Height(k2.left) {
      var k3 := k2.left;
      assert Sound(Branch(k2.height - 1, k2.key, k3.right, k2.right));
      assert Sound(Branch(t.height - 1, t.key, t.left, k3.left));
    } else {
      assert Sound(Branch(t.height - 1, t.key, t.left, k2.left));
    }
  }

  /** Rebalancing restores soundness and never stores more than max(own height, 1 + taller child). */
  lemma RebalanceIsSound(t: Tree)
    requires NearlySound(t)
    ensures CanRebalance(t)
    ensures var r := Rebalance(t);
            && Sound(r) && r.Empty? == t.Empty?
            && Height(r) <= Max(Height(t), 1 + Max(LeftHeight(t), RightHeight(t)))
            && (Height(r) > Height(t) ==>
                  && r.Branch? && t.Branch? && r.left == t.left && r.right == t.right
                  && r.height == Height(t) + 1)
  {
    NearlySoundCanRebalance(t);
    if t.Branch? && LeftHeight(t) == 2 + RightHeight(t) {
      LeftRotationIsSound(t);
    } else if t.Branch? && RightHeight(t) == 2 + LeftHeight(t) {
      RightRotationIsSound(t);
    }
  }

  // ---------------------------------------------------------------- insertion and removal

  datatype InsertResult = InsertResult(tree: Tree, changed: bool, previous: Option<Bytes>)

  /** What rebalancing makes of a node that grew out of t is sound and at most one level higher. */
  predicate Grew(t: Tree, node: Tree)
  {
    && CanRebalance(node)
    && var r := Rebalance(node);
       && Sound(r) && !r.Empty? && Height(r) <= Height(t) + 1
       && (Height(r) > Height(t) && !t.Empty? ==> GrownChild(r))
  }

  /** The node insertion makes of the root of t, before it is rebalanced. */
  function InsertInspect(t: Tree, key: Bytes, value: Bytes): (r: InsertResult)
    requires Sound(t)
    ensures r.changed ==> Grew(t, r.tree)
    ensures !r.changed ==> r.tree == t && !t.Empty?
    decreases t, 0
  {
    match t
    case Empty => InsertResult(Leaf(key, value), true, None)
    case Leaf(k, v) =>
      if k == key then InsertResult(Leaf(key, value), v != value, Some(v))
      else InsertResult(SplitLeaf(k, v, key, value), true, None)
    case Branch(h, k, l, r) =>
      if Lt(key, k) then
        var i := Insert(l, key, value);
        GrownChildIsNearlySound(t, t.(left := i.tree));
        InsertResult(Branch(h, k, i.tree, r), i.changed, i.previous)
      else
        var i := Insert(r, key, value);
        GrownChildIsNearlySound(t, t.(right := i.tree));
        InsertResult(Branch(h, k, l, i.tree), i.changed, i.previous)
  }

  function Insert(t: Tree, key: Bytes, value: Bytes): (r: InsertResult)
    requires Sound(t)
    ensures Sound(r.tree) && !r.tree.Empty?
    ensures !r.changed ==> r.tree == t
    ensures Height(r.tree) <= Height(t) + 1
    ensures Height(r.tree) > Height(t) && !t.Empty? ==> GrownChild(r.tree)
    decreases t, 1
  {
    var i := InsertInspect(t, key, value);
    if i.changed then i.(tree := Rebalance(i.tree)) else i
  }

  lemma GrownChildIsNearlySound(t: Tree, node: Tree)
    requires Sound(t) && t.Branch?
    requires node.Branch? && node.height == t.height && NearlySound(node)
    requires node.left == t.left || node.right == t.right
    ensures Grew(t, node)
  {
    RebalanceIsSound(node);
    HeightPositive(t.left);
    HeightPositive(t.right);
  }

  /** A leaf and a new key become a branch routed by the larger of the two keys. */
  function SplitLeaf(k: Bytes, v: Bytes, key: Bytes, value: Bytes): Tree
  {
    if Lt(k, key) then Branch(1, key, Leaf(k, v), Leaf(key, value))
    else Branch(1, k, Leaf(key, value), Leaf(k, v))
  }

  datatype RemoveResult = Deleted | Kept(tree: Tree, changed: bool)

  /** What rebalancing makes of a node left over from t is sound and no higher. */
  predicate Shrank(t: Tree, node: Tree)
  {
    CanRebalance(node) && var r := Rebalance(node); Sound(r) && !r.Empty? && Height(r) <= Height(t)
  }

  /** The node removal leaves of the root of t, before it is rebalanced. A branch that lost a child
      is replaced by the other one. */
  function RemoveInspect(t: Tree, key: Bytes): (r: RemoveResult)
    requires Sound(t)
    ensures r.Kept? && r.changed ==> Shrank(t, r.tree)
    ensures r.Kept? && !r.changed ==> r.tree == t && !t.Empty?
    decreases t, 0
  {
    match t
    case Empty => Deleted
    case Leaf(k, v) => if k == key then Deleted else Kept(t, false)
    case Branch(h, k, l, r) =>
      if Lt(key, k) then
        match Remove(l, key)
        case Deleted =>
          SiblingIsSound(t, r);
          Kept(r, true)
        case Kept(child, changed) =>
          ShrunkChildIsSound(t, t.(left := child));
          Kept(Branch(h, k, child, r), changed)
      else
        match Remove(r, key)
        case Deleted =>
          SiblingIsSound(t, l);
          Kept(l, true)
        case Kept(child, changed) =>
          ShrunkChildIsSound(t, t.(right := child));
          Kept(Branch(h, k, l, child), changed)
  }

  function Remove(t: Tree, key: Bytes): (r: RemoveResult)
    requires Sound(t)
    ensures r.Kept? ==> Sound(r.tree) && !r.tree.Empty?
    ensures r.Kept? ==> Height(r.tree) <= Height(t)
    ensures r.Kept? && !r.changed ==> r.tree == t
    decreases t, 1
  {
    match RemoveInspect(t, key)
    case Deleted => Deleted
    case Kept(node, changed) => Kept(if changed then Rebalance(node) else node, changed)
  }

  lemma ShrunkChildIsSound(t: Tree, node: Tree)
    requires Sound(t) && t.Branch? && Sound(node) && node.Branch? && node.height == t.height
    ensures Shrank(t, node)
  {
    SoundIsNearlySound(node);
    RebalanceIsSound(node);
  }

  lemma SiblingIsSound(t: Tree, sibling: Tree)
    requires Sound(t) && t.Branch? && (sibling == t.left || sibling == t.right)
    ensures Shrank(t, sibling)
  {
    SoundIsNearlySound(sibling);
    HeightPositive(sibling);
    RebalanceIsSound(sibling);
  }

  function Lookup(t: Tree, key: Bytes): Option<Bytes>
  {
    match t
    case Empty => None
    case Leaf(k, v) => if k == key then Some(v) else None
    case Branch(_, k, l, r) => if Lt(key, k) then Lookup(l, key) else Lookup(r, key)
  }
}
