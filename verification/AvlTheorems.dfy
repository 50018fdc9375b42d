/** What the tree operations guarantee over whole runs: they refine a finite map, and as long as
    nothing is removed every stored height is exact and the tree is balanced. */
module AvlTheorems {
  import opened Bytes
  import opened Order
  import opened AvlTree

  // ---------------------------------------------------------------- search order

  /** Left keys < branch key <= right keys, everywhere, within the interval [lo, hi) of ranks. */
  ghost predicate Ordered(t: Tree, lo: real, hi: real)
  {
    match t
    case Empty => true
    case Leaf(k, _) => lo <= Rank(k) < hi
    case Branch(_, k, l, r) => lo <= Rank(k) <= hi && Ordered(l, lo, Rank(k)) && Ordered(r, Rank(k), hi)
  }

  lemma {:induction false} OrderedWidens(t: Tree, lo: real, hi: real, lo': real, hi': real)
    requires Ordered(t, lo, hi) && lo' <= lo && hi <= hi'
    ensures Ordered(t, lo', hi')
  {
    if t.Branch? {
      OrderedWidens(t.left, lo, Rank(t.key), lo', Rank(t.key));
      OrderedWidens(t.right, Rank(t.key), hi, Rank(t.key), hi');
    }
  }

  lemma {:induction false} IntervalNotEmpty(t: Tree, lo: real, hi: real)
    requires Sound(t) && !t.Empty? && Ordered(t, lo, hi)
    ensures lo < hi
  {
    if t.Branch? {
      IntervalNotEmpty(t.left, lo, Rank(t.key));
      IntervalNotEmpty(t.right, Rank(t.key), hi);
    }
  }

  lemma {:induction false} LookupOutside(t: Tree, lo: real, hi: real, q: Bytes)
    requires Ordered(t, lo, hi) && !(lo <= Rank(q) < hi)
    ensures Lookup(t, q).None?
  {
    if t.Branch? {
      LtIsRank(q, t.key);
      if Lt(q, t.key) {
        LookupOutside(t.left, lo, Rank(t.key), q);
      } else {
        LookupOutside(t.right, Rank(t.key), hi, q);
      }
    }
  }

  lemma LeftRotateKeepsAnswers(k1: Tree, k2: Tree, lo: real, hi: real, q: Bytes)
    requires k1.Branch? && k2.Branch? && k1.height >= 1
    requires Ordered(k1.(left := k2), lo, hi)
    ensures var r := LeftRotate(k1, k2);
            && Ordered(r, lo, hi)
            && Lookup(r, q) == Lookup(k1.(left := k2), q)
            && InOrder(r) == InOrder(k1.(left := k2))
  {
    LtIsRank(q, k1.key);
    LtIsRank(q, k2.key);
  }

  lemma RightRotateKeepsAnswers(k1: Tree, k2: Tree, lo: real, hi: real, q: Bytes)
    requires k1.Branch? && k2.Branch? && k1.height >= 1
    requires Ordered(k1.(right := k2), lo, hi)
    ensures var r := RightRotate(k1, k2);
            && Ordered(r, lo, hi)
            && Lookup(r, q) == Lookup(k1.(right := k2), q)
            && InOrder(r) == InOrder(k1.(right := k2))
  {
    LtIsRank(q, k1.key);
    LtIsRank(q, k2.key);
    RightRotateKeepsOrder(k1, k2);
  }

  lemma RightRotateKeepsOrder(k1: Tree, k2: Tree)
    requires k1.Branch? && k2.Branch? && k1.height >= 1
    ensures InOrder(RightRotate(k1, k2)) == InOrder(k1.(right := k2))
  {
    var a, b, c := InOrder(k1.left), InOrder(k2.left), InOrder(k2.right);
    assert InOrder(k1.(right := k2)) == a + (b + c);
    assert InOrder(RightRotate(k1, k2)) == (a + b) + c;
  }

  /** Rebalancing moves subtrees but changes neither the order nor any answer. */
  lemma RebalanceKeepsAnswers(t: Tree, lo: real, hi: real, q: Bytes)
    requires CanRebalance(t) && Ordered(t, lo, hi)
    ensures Ordered(Rebalance(t), lo, hi) && Lookup(Rebalance(t), q) == Lookup(t, q)
    ensures InOrder(Rebalance(t)) == InOrder(t)
  {
    if t.Branch? && LeftHeight(t) == 2 + RightHeight(t) {
      var k2 := t.left;
      if LeftHeight(k2) < RightHeight(k2) {
        RightRotateKeepsAnswers(k2, k2.right, lo, Rank(t.key), q);
        k2 := RightRotate(k2, k2.right);
      }
      LeftRotateKeepsAnswers(t, k2, lo, hi, q);
    } else if t.Branch? && RightHeight(t) == 2 + LeftHeight(t) {
      var k2 := t.right;
      if RightHeight(k2) < LeftHeight(k2) {
        LeftRotateKeepsAnswers(k2, k2.left, Rank(t.key), hi, q);
        k2 := LeftRotate(k2, k2.left);
      }
      RightRotateKeepsAnswers(t, k2, lo, hi, q);
    }
  }

  /** The leaves from left to right. */
  function InOrder(t: Tree): seq<(Bytes, Bytes)>
  {
    match t
    case Empty => []
    case Leaf(k, v) => [(k, v)]
    case Branch(_, _, l, r) => InOrder(l) + InOrder(r)
  }

  // ---------------------------------------------------------------- one operation

  lemma SplitMeetsMap(k: Bytes, v: Bytes, key: Bytes, value: Bytes, lo: real, hi: real, q: Bytes)
    requires k != key && lo <= Rank(k) < hi && lo <= Rank(key) < hi
    ensures var r := SplitLeaf(k, v, key, value);
            && Ordered(r, lo, hi)
            && Lookup(r, q) == if q == key then Some(value) else Lookup(Leaf(k, v), q)
  {
    LtIsRank(k, key);
    LtIsRank(q, k);
    LtIsRank(q, key);
  }

  /** r is t with the key set, and reports what the key had. */
  ghost predicate SetKey(t: Tree, r: InsertResult, key: Bytes, value: Bytes, lo: real, hi: real, q: Bytes)
  {
    && Ordered(r.tree, lo, hi)
    && Lookup(r.tree, q) == (if q == key then Some(value) else Lookup(t, q))
    && r.previous == Lookup(t, key)
  }

  lemma SetOnTheLeft(t: Tree, key: Bytes, value: Bytes, lo: real, hi: real, q: Bytes)
    requires Sound(t) && t.Branch? && Ordered(t, lo, hi) && lo <= Rank(key) < hi && Lt(key, t.key)
    requires SetKey(t.left, Insert(t.left, key, value), key, value, lo, Rank(t.key), q)
    ensures SetKey(t, Insert(t, key, value), key, value, lo, hi, q)
  {
    LtIsRank(q, key);
    LtIsRank(key, t.key);
    LtIsRank(q, t.key);
    var i := InsertInspect(t, key, value);
    assert SetKey(t, i, key, value, lo, hi, q);
    if i.changed {
      RebalanceKeepsAnswers(i.tree, lo, hi, q);
    }
  }

  lemma SetOnTheRight(t: Tree, key: Bytes, value: Bytes, lo: real, hi: real, q: Bytes)
    requires Sound(t) && t.Branch? && Ordered(t, lo, hi) && lo <= Rank(key) < hi && !Lt(key, t.key)
    requires SetKey(t.right, Insert(t.right, key, value), key, value, Rank(t.key), hi, q)
    ensures SetKey(t, Insert(t, key, value), key, value, lo, hi, q)
  {
    LtIsRank(q, key);
    LtIsRank(key, t.key);
    LtIsRank(q, t.key);
    var i := InsertInspect(t, key, value);
    assert SetKey(t, i, key, value, lo, hi, q);
    if i.changed {
      RebalanceKeepsAnswers(i.tree, lo, hi, q);
    }
  }

  lemma SetAtLeaf(t: Tree, key: Bytes, value: Bytes, lo: real, hi: real, q: Bytes)
    requires !t.Branch? && Ordered(t, lo, hi) && lo <= Rank(key) < hi
    ensures Sound(t) && SetKey(t, Insert(t, key, value), key, value, lo, hi, q)
  {
    LtIsRank(q, key);
    var i := InsertInspect(t, key, value);
    if t.Leaf? && t.key != key {
      SplitMeetsMap(t.key, t.value, key, value, lo, hi, q);
    }
    assert SetKey(t, i, key, value, lo, hi, q);
    if i.changed {
      RebalanceKeepsAnswers(i.tree, lo, hi, q);
    }
  }

  lemma {:induction false} InsertMeetsMap(t: Tree, key: Bytes, value: Bytes, lo: real, hi: real, q: Bytes)
    requires Sound(t) && Ordered(t, lo, hi) && lo <= Rank(key) < hi
    ensures SetKey(t, Insert(t, key, value), key, value, lo, hi, q)
  {
    if !t.Branch? {
      SetAtLeaf(t, key, value, lo, hi, q);
    } else {
      LtIsRank(key, t.key);
      if Lt(key, t.key) {
        InsertMeetsMap(t.left, key, value, lo, Rank(t.key), q);
        SetOnTheLeft(t, key, value, lo, hi, q);
      } else {
        InsertMeetsMap(t.right, key, value, Rank(t.key), hi, q);
        SetOnTheRight(t, key, value, lo, hi, q);
      }
    }
  }

  /** The tree left by a removal. */
  function Removed(t: Tree, key: Bytes): (r: Tree)
    requires Sound(t)
    ensures Sound(r)
  {
    match Remove(t, key)
    case Deleted => Empty
    case Kept(tree, _) => tree
  }

  /** The tree left over after one step has lost the key and nothing else. */
  ghost predicate LostKey(t: Tree, r: Tree, key: Bytes, lo: real, hi: real, q: Bytes)
  {
    Ordered(r, lo, hi) && Lookup(r, q) == if q == key then None else Lookup(t, q)
  }

  lemma {:induction false} RemoveMeetsMap(t: Tree, key: Bytes, lo: real, hi: real, q: Bytes)
    requires Sound(t) && Ordered(t, lo, hi)
    ensures LostKey(t, Removed(t, key), key, lo, hi, q)
  {
    if !t.Branch? {
      var i := RemoveInspect(t, key);
      assert Removed(t, key) == if i.Deleted? then Empty else t;
    } else {
      LtIsRank(key, t.key);
      LtIsRank(q, t.key);
      LtIsRank(q, key);
      if Lt(key, t.key) {
        RemoveMeetsMap(t.left, key, lo, Rank(t.key), q);
      } else {
        RemoveMeetsMap(t.right, key, Rank(t.key), hi, q);
      }
      RemoveStepMeetsMap(t, key, lo, hi, q);
    }
  }

  lemma RemoveStepMeetsMap(t: Tree, key: Bytes, lo: real, hi: real, q: Bytes)
    requires Sound(t) && t.Branch? && Ordered(t, lo, hi)
    requires Lt(key, t.key) ==> LostKey(t.left, Removed(t.left, key), key, lo, Rank(t.key), q)
    requires !Lt(key, t.key) ==> LostKey(t.right, Removed(t.right, key), key, Rank(t.key), hi, q)
    ensures LostKey(t, Removed(t, key), key, lo, hi, q)
  {
    LtIsRank(key, t.key);
    LtIsRank(q, t.key);
    LtIsRank(q, key);
    var i := RemoveInspect(t, key);
    if Lt(key, t.key) && Remove(t.left, key).Deleted? {
      OrderedWidens(t.right, Rank(t.key), hi, lo, hi);
      if Lt(q, t.key) {
        LookupOutside(t.right, Rank(t.key), hi, q);
      }
    }
    if !Lt(key, t.key) && Remove(t.right, key).Deleted? {
      OrderedWidens(t.left, lo, Rank(t.key), lo, hi);
      if !Lt(q, t.key) {
        LookupOutside(t.left, lo, Rank(t.key), q);
      }
    }
    assert LostKey(t, i.tree, key, lo, hi, q);
    if i.changed {
      RebalanceKeepsAnswers(i.tree, lo, hi, q);
    }
  }

  // ---------------------------------------------------------------- whole runs

  datatype Op = Put(key: Bytes, value: Bytes) | Delete(key: Bytes)

  /** insert with an empty value removes. */
  function ApplyToTree(t: Tree, op: Op): (r: Tree)
    requires Sound(t)
    ensures Sound(r)
  {
    match op
    case Put(k, v) => if v == [] then Removed(t, k) else Insert(t, k, v).tree
    case Delete(k) => Removed(t, k)
  }

  function ApplyToMap(m: map<Bytes, Bytes>, op: Op): map<Bytes, Bytes>
  {
    match op
    case Put(k, v) => if v == [] then m - {k} else m[k := v]
    case Delete(k) => m - {k}
  }

  function RunTree(ops: seq<Op>): (t: Tree)
    ensures Sound(t)
  {
    if ops == [] then Empty else ApplyToTree(RunTree(ops[..|ops| - 1]), ops[|ops| - 1])
  }

  function RunMap(ops: seq<Op>): map<Bytes, Bytes>
  {
    if ops == [] then map[] else ApplyToMap(RunMap(ops[..|ops| - 1]), ops[|ops| - 1])
  }

  function MapGet(m: map<Bytes, Bytes>, q: Bytes): Option<Bytes>
  {
    if q in m then Some(m[q]) else None
  }

  /** Every run of insertions and removals refines a finite map. */
  lemma {:induction false} RunRefinesMap(ops: seq<Op>, q: Bytes)
    ensures Ordered(RunTree(ops), 0.0, 1.0)
    ensures Lookup(RunTree(ops), q) == MapGet(RunMap(ops), q)
  {
    if ops != [] {
      var before, op := ops[..|ops| - 1], ops[|ops| - 1];
      RunRefinesMap(before, q);
      if op.Put? && op.value != [] {
        InsertMeetsMap(RunTree(before), op.key, op.value, 0.0, 1.0, q);
      } else {
        RemoveMeetsMap(RunTree(before), op.key, 0.0, 1.0, q);
        assert LostKey(RunTree(before), RunTree(ops), op.key, 0.0, 1.0, q);
      }
    }
  }

  /** insert reports the value the key had before. */
  lemma InsertReportsPrevious(ops: seq<Op>, key: Bytes, value: Bytes)
    ensures Insert(RunTree(ops), key, value).previous == MapGet(RunMap(ops), key)
  {
    RunRefinesMap(ops, key);
    InsertMeetsMap(RunTree(ops), key, value, 0.0, 1.0, key);
  }

  // ---------------------------------------------------------------- balance of insert-only runs

  /** Every stored height is the real one and siblings differ by at most one level. */
  predicate Balanced(t: Tree)
  {
    t.Branch? ==>
      && !t.left.Empty? && !t.right.Empty?
      && Balanced(t.left) && Balanced(t.right)
      && t.height == 1 + Max(Height(t.left), Height(t.right))
      && Height(t.left) <= Height(t.right) + 1 && Height(t.right) <= Height(t.left) + 1
  }

  lemma {:induction false} BalancedIsSound(t: Tree)
    requires Balanced(t)
    ensures Sound(t)
  {
    if t.Branch? {
      BalancedIsSound(t.left);
      BalancedIsSound(t.right);
    }
  }

  /** grown is balanced and at most one level above t, and if it is higher then it is lopsided,
      unless it sprang from a leaf. */
  predicate GrowsFrom(t: Tree, grown: Tree)
  {
    && Balanced(grown) && !grown.Empty?
    && Height(t) <= Height(grown) <= Height(t) + 1
    && (Height(grown) > Height(t) && t.Branch? ==> LeftHeight(grown) != RightHeight(grown))
  }

  lemma BalancedHeights(t: Tree)
    requires Balanced(t)
    ensures !t.Empty? ==> Height(t) >= 1
    ensures t.Branch? <==> Height(t) >= 2
  {
    if t.Branch? {
      BalancedHeights(t.left);
    }
  }

  lemma GrownOnTheLeft(t: Tree, grown: Tree)
    requires Balanced(t) && t.Branch? && GrowsFrom(t.left, grown) && !t.left.Empty?
    requires CanRebalance(t.(left := grown))
    ensures GrowsFrom(t, Rebalance(t.(left := grown)))
  {
    BalancedHeights(t.left);
    BalancedHeights(t.right);
    var r, h := Rebalance(t.(left := grown)), Height(t.right);
    if Height(grown) == 2 + h {
      RotatedLeftIsBalanced(t, grown);
      assert r == LeftRotateSuccessor(t.(left := grown));
    } else {
      assert r == t.(height := Max(Height(grown), h) + 1, left := grown);
    }
  }

  /** A rotation is due only when the grown child is two levels above its sibling. */
  lemma RotatedLeftIsBalanced(t: Tree, grown: Tree)
    requires t.Branch? && Balanced(grown) && grown.Branch? && Balanced(t.right) && !t.right.Empty?
    requires Height(grown) == 2 + Height(t.right) == t.height
    requires LeftHeight(grown) != RightHeight(grown) && CanRotateLeft(t.(left := grown))
    ensures var r := LeftRotateSuccessor(t.(left := grown));
            Balanced(r) && !r.Empty? && Height(r) == t.height
  {
    var outer, inner, h := grown.left, grown.right, Height(t.right);
    var r := LeftRotateSuccessor(t.(left := grown));
    BalancedHeights(outer);
    BalancedHeights(inner);
    if Height(outer) < Height(inner) {
      BalancedHeights(inner.left);
      BalancedHeights(inner.right);
      assert r.right == Branch(h + 1, t.key, inner.right, t.right) && Balanced(r.right);
      assert r.left == Branch(h + 1, grown.key, outer, inner.left) && Balanced(r.left);
    } else {
      assert r.left == outer;
      assert r.right == Branch(h + 1, t.key, inner, t.right) && Balanced(r.right);
    }
  }

  lemma GrownOnTheRight(t: Tree, grown: Tree)
    requires Balanced(t) && t.Branch? && GrowsFrom(t.right, grown) && !t.right.Empty?
    requires CanRebalance(t.(right := grown))
    ensures GrowsFrom(t, Rebalance(t.(right := grown)))
  {
    BalancedHeights(t.right);
    BalancedHeights(t.left);
    var r, h := Rebalance(t.(right := grown)), Height(t.left);
    if Height(grown) == 2 + h {
      RotatedRightIsBalanced(t, grown);
      assert r == RightRotateSuccessor(t.(right := grown));
    } else {
      assert r == t.(height := Max(h, Height(grown)) + 1, right := grown);
    }
  }

  /** A rotation is due only when the grown child is two levels above its sibling. */
  lemma RotatedRightIsBalanced(t: Tree, grown: Tree)
    requires t.Branch? && Balanced(grown) && grown.Branch? && Balanced(t.left) && !t.left.Empty?
    requires Height(grown) == 2 + Height(t.left) == t.height
    requires LeftHeight(grown) != RightHeight(grown) && CanRotateRight(t.(right := grown))
    ensures var r := RightRotateSuccessor(t.(right := grown));
            Balanced(r) && !r.Empty? && Height(r) == t.height
  {
    var outer, inner, h := grown.right, grown.left, Height(t.left);
    var r := RightRotateSuccessor(t.(right := grown));
    BalancedHeights(outer);
    BalancedHeights(inner);
    if Height(outer) < Height(inner) {
      BalancedHeights(inner.left);
      BalancedHeights(inner.right);
      assert r.left == Branch(h + 1, t.key, t.left, inner.left) && Balanced(r.left);
      assert r.right == Branch(h + 1, grown.key, inner.right, outer) && Balanced(r.right);
    } else {
      assert r.right == outer;
      assert r.left == Branch(h + 1, t.key, t.left, inner) && Balanced(r.left);
    }
  }

  lemma InsertedOnTheLeft(t: Tree, key: Bytes, value: Bytes)
    requires Balanced(t) && Sound(t) && t.Branch? && Lt(key, t.key)
    requires GrowsFrom(t.left, Insert(t.left, key, value).tree)
    ensures GrowsFrom(t, Insert(t, key, value).tree)
  {
    var i := InsertInspect(t, key, value);
    assert i.tree == t.(left := Insert(t.left, key, value).tree);
    if i.changed {
      GrownOnTheLeft(t, Insert(t.left, key, value).tree);
    }
  }

  lemma InsertedOnTheRight(t: Tree, key: Bytes, value: Bytes)
    requires Balanced(t) && Sound(t) && t.Branch? && !Lt(key, t.key)
    requires GrowsFrom(t.right, Insert(t.right, key, value).tree)
    ensures GrowsFrom(t, Insert(t, key, value).tree)
  {
    var i := InsertInspect(t, key, value);
    assert i.tree == t.(right := Insert(t.right, key, value).tree);
    if i.changed {
      GrownOnTheRight(t, Insert(t.right, key, value).tree);
    }
  }

  lemma InsertedAtLeaf(t: Tree, key: Bytes, value: Bytes)
    requires !t.Branch?
    ensures Sound(t) && GrowsFrom(t, Insert(t, key, value).tree)
  {
  }

  /** Insertion keeps the tree balanced, although rotations assign heights from before the insertion. */
  lemma {:induction false} InsertKeepsBalance(t: Tree, key: Bytes, value: Bytes)
    requires Balanced(t)
    ensures Sound(t) && GrowsFrom(t, Insert(t, key, value).tree)
  {
    BalancedIsSound(t);
    if !t.Branch? {
      InsertedAtLeaf(t, key, value);
    } else if Lt(key, t.key) {
      InsertKeepsBalance(t.left, key, value);
      InsertedOnTheLeft(t, key, value);
    } else {
      InsertKeepsBalance(t.right, key, value);
      InsertedOnTheRight(t, key, value);
    }
  }

  function Fib(n: nat): nat
  {
    if n < 2 then n else Fib(n - 1) + Fib(n - 2)
  }

  function Leaves(t: Tree): nat
  {
    match t
    case Empty => 0
    case Leaf(_, _) => 1
    case Branch(_, _, l, r) => Leaves(l) + Leaves(r)
  }

  lemma {:induction false} FibMonotone(n: nat)
    ensures Fib(n) <= Fib(n + 1)
  {
    if n >= 2 {
      FibMonotone(n - 1);
      FibMonotone(n - 2);
    }
  }

  lemma FibStep(n: nat)
    requires n >= 2
    ensures Fib(n + 1) == Fib(n) + Fib(n - 1) && Fib(n - 1) <= Fib(n)
  {
    FibMonotone(n - 1);
  }

  /** A balanced tree of height h has at least Fib(h + 1) leaves. */
  lemma {:induction false} BalancedHasManyLeaves(t: Tree)
    requires Balanced(t) && !t.Empty?
    ensures Leaves(t) >= Fib(Height(t) + 1)
  {
    BalancedHeights(t);
    if t.Branch? {
      BalancedHasManyLeaves(t.left);
      BalancedHasManyLeaves(t.right);
      FibStep(Height(t));
    }
  }

  ghost function Keys(t: Tree): set<Bytes>
  {
    match t
    case Empty => {}
    case Leaf(k, _) => {k}
    case Branch(_, _, l, r) => Keys(l) + Keys(r)
  }

  lemma {:induction false} KeysAreAnswers(t: Tree, lo: real, hi: real)
    requires Ordered(t, lo, hi)
    ensures |Keys(t)| == Leaves(t)
    ensures forall q :: q in Keys(t) <==> Lookup(t, q).Some?
    ensures forall q <- Keys(t) :: lo <= Rank(q) < hi
  {
    if t.Branch? {
      KeysAreAnswers(t.left, lo, Rank(t.key));
      KeysAreAnswers(t.right, Rank(t.key), hi);
      assert Keys(t.left) !! Keys(t.right);
      forall q
        ensures q in Keys(t) <==> Lookup(t, q).Some?
      {
        LtIsRank(q, t.key);
      }
    }
  }

  predicate InsertOnly(ops: seq<Op>)
  {
    forall op <- ops :: op.Put? && op.value != []
  }

  /** The tree has one leaf for each key of the map. */
  lemma RunHasLeafPerKey(ops: seq<Op>)
    ensures Leaves(RunTree(ops)) == |RunMap(ops)|
  {
    var t := RunTree(ops);
    RunRefinesMap(ops, []);
    KeysAreAnswers(t, 0.0, 1.0);
    forall q
      ensures q in Keys(t) <==> q in RunMap(ops).Keys
    {
      RunRefinesMap(ops, q);
    }
    assert Keys(t) == RunMap(ops).Keys;
  }

  /** In every run of insertions the tree stays balanced. */
  lemma {:induction false} InsertOnlyRunIsBalanced(ops: seq<Op>)
    requires InsertOnly(ops)
    ensures Balanced(RunTree(ops)) && (ops != [] ==> !RunTree(ops).Empty?)
  {
    if ops != [] {
      var before, op := ops[..|ops| - 1], ops[|ops| - 1];
      InsertOnlyRunIsBalanced(before);
      assert op in ops;
      InsertKeepsBalance(RunTree(before), op.key, op.value);
    }
  }

  /** So its height is logarithmic in the size of the map. */
  lemma InsertOnlyRunIsShallow(ops: seq<Op>)
    requires InsertOnly(ops) && ops != []
    ensures |RunMap(ops)| >= Fib(Height(RunTree(ops)) + 1)
  {
    InsertOnlyRunIsBalanced(ops);
    RunHasLeafPerKey(ops);
    BalancedHasManyLeaves(RunTree(ops));
  }
}
