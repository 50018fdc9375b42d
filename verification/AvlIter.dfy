/** Iterating over a committed tree with an explicit trail of crumbs. The store is honest but may miss
    nodes. */
module AvlIter {
  import opened Bytes
  import opened Rlp
  import opened Order
  import opened HashDb
  import opened AvlTree
  import opened AvlTheorems
  import opened AvlNode
  import opened AvlLookup

  datatype Status = Entering | At | AtChild(index: nat) | Exiting

  datatype Crumb = Crumb(node: RawNode, status: Status) {
    /** Moves on to the next status in the node's sequence. */
    function Increment(): Crumb
    {
      var next :=
        if node.RawEmpty? then Exiting
        else if status.Entering? then Status.At
        else if status.At? && node.RawBranch? then AtChild(0)
        else if status == AtChild(0) && node.RawBranch? then AtChild(1)
        else Exiting;
      Crumb(node, next)
    }
  }

  type Entries = seq<(Bytes, Bytes)>

  // ---------------------------------------------------------------- what is still to come

  /** The leaves of t not yet visited when its crumb has the given status; those of the child being
      visited are accounted for by the crumbs on top. */
  function Ahead(t: Tree, status: Status): Entries
  {
    match status
    case Entering => InOrder(t)
    case At => if t.Branch? then InOrder(t) else []
    case AtChild(i) => if t.Branch? && i == 0 then InOrder(t.right) else []
    case Exiting => []
  }

  function AllAhead(trees: seq<Tree>, trail: seq<Crumb>): Entries
    requires |trees| == |trail|
  {
    if trail == [] then []
    else
      var top := |trail| - 1;
      Ahead(trees[top], trail[top].status) + AllAhead(trees[..top], trail[..top])
  }

  /** Turns of the loop a visit of t takes. */
  function Turns(t: Tree, status: Status): nat
    decreases t, match status case Entering => 4 case At => 3 case AtChild(_) => 2 case Exiting => 0
  {
    match status
    case Entering => if t.Empty? then 1 else 1 + Turns(t, At)
    case At => if t.Branch? then 3 + Turns(t.left, Entering) + Turns(t.right, Entering) else 1
    case AtChild(i) => if t.Branch? && i == 0 then 2 + Turns(t.right, Entering) else 1
    case Exiting => 1
  }

  function AllTurns(trees: seq<Tree>, trail: seq<Crumb>): nat
    requires |trees| == |trail|
  {
    if trail == [] then 0
    else
      var top := |trail| - 1;
      Turns(trees[top], trail[top].status) + AllTurns(trees[..top], trail[..top])
  }

  /** The child entered on reaching a status. */
  function ChildAt(t: Tree, status: Status): Tree
  {
    if status.AtChild? && t.Branch? then (if status.index == 0 then t.left else t.right) else Empty
  }

  /** A status in which a crumb waits for its turn. */
  predicate Waiting(t: Tree, status: Status)
  {
    && (status.AtChild? ==> t.Branch? && status.index < 2)
    && (status.At? ==> !t.Empty?) && !status.Exiting?
  }

  lemma Associates(a: Entries, b: Entries, c: Entries)
    ensures (a + b) + c == a + (b + c) && [] + a == a
  {
  }

  /** On reaching a status a leaf is yielded, or a child entered; everything else is left for later. */
  predicate Accounts(t: Tree, status: Status, before: Entries, after: Entries)
  {
    before == if status.At? && t.Leaf? then [(t.key, t.value)] + after
              else if status.AtChild? then InOrder(ChildAt(t, status)) + after
              else after
  }

  /** And the turns of the loop still to take become fewer, the entered child included. */
  predicate Hastens(t: Tree, status: Status, before: nat, after: nat)
  {
    after + (if status.AtChild? then Turns(ChildAt(t, status), Entering) else 0) < before
  }

  /** What moving the crumb of t on does to all that is ahead, given what is ahead below it. */
  lemma IncrementAccounts(hash: Hasher, t: Tree, c: Crumb, below: Entries, turns: nat)
    requires c.node == RawOf(hash, t) && Waiting(t, c.status)
    ensures var b := c.Increment().status;
            && (b.Exiting? || (Waiting(t, b) && !b.Entering?))
            && Accounts(t, b, Ahead(t, c.status) + below, if b.Exiting? then below else Ahead(t, b) + below)
            && Hastens(t, b, Turns(t, c.status) + turns, if b.Exiting? then turns else Turns(t, b) + turns)
  {
    var b := c.Increment().status;
    var taken := if b.At? && t.Leaf? then [(t.key, t.value)] else InOrder(ChildAt(t, b));
    assert Ahead(t, c.status) == taken + Ahead(t, b);
    Associates(taken, Ahead(t, b), below);
    Associates(below, [], []);
  }

  lemma TopOfTrail(trees: seq<Tree>, trail: seq<Crumb>, c: Crumb)
    requires |trees| == |trail| > 0
    ensures var top := |trail| - 1; var trail' := trail[top := c];
            && AllAhead(trees, trail') == Ahead(trees[top], c.status) + AllAhead(trees[..top], trail[..top])
            && AllTurns(trees, trail') == Turns(trees[top], c.status) + AllTurns(trees[..top], trail[..top])
  {
    assert trail[|trail| - 1 := c][..|trail| - 1] == trail[..|trail| - 1];
  }

  /** The entries with keys above the given one. */
  function Above(entries: Entries, key: Bytes): Entries
  {
    if entries == [] then []
    else (if Lt(key, entries[0].0) then [entries[0]] else []) + Above(entries[1..], key)
  }

  /** They are those entries, in the order they had. */
  lemma {:induction false} AboveIs(entries: Entries, key: Bytes, e: (Bytes, Bytes))
    ensures e in Above(entries, key) <==> e in entries && Lt(key, e.0)
    decreases |entries|
  {
    if entries != [] {
      AboveIs(entries[1..], key, e);
      assert entries == [entries[0]] + entries[1..];
    }
  }

  lemma {:induction false} AboveAscends(entries: Entries, key: Bytes)
    requires forall i, j | 0 <= i < j < |entries| :: Lt(entries[i].0, entries[j].0)
    ensures forall i, j | 0 <= i < j < |Above(entries, key)| :: Lt(Above(entries, key)[i].0, Above(entries, key)[j].0)
    decreases |entries|
  {
    if entries != [] {
      var rest := entries[1..];
      AboveAscends(rest, key);
      forall e | e in Above(rest, key)
        ensures Lt(entries[0].0, e.0)
      {
        AboveIs(rest, key, e);
        var i :| 0 <= i < |rest| && rest[i] == e;
        assert entries[i + 1] == e;
      }
    }
  }

  /** What a seek leaves ahead, in terms of the map: exactly its entries with greater keys, ascending. */
  lemma SeekMeaning(t: Tree, lo: real, hi: real, key: Bytes)
    requires Ordered(t, lo, hi)
    ensures forall k, v :: (k, v) in Above(InOrder(t), key) <==> Lookup(t, k) == Some(v) && Lt(key, k)
    ensures var es := Above(InOrder(t), key); forall i, j | 0 <= i < j < |es| :: Lt(es[i].0, es[j].0)
  {
    forall k, v
      ensures (k, v) in Above(InOrder(t), key) <==> Lookup(t, k) == Some(v) && Lt(key, k)
    {
      AboveIs(InOrder(t), key, (k, v));
      InOrderIsMap(t, lo, hi, k, v);
    }
    InOrderAscends(t, lo, hi);
    AboveAscends(InOrder(t), key);
  }

  lemma {:induction false} AboveAppend(a: Entries, b: Entries, key: Bytes)
    ensures Above(a + b, key) == Above(a, key) + Above(b, key)
    decreases |a|
  {
    if a == [] {
      assert a + b == b;
    } else {
      assert (a + b)[1..] == a[1..] + b;
      AboveAppend(a[1..], b, key);
    }
  }

  lemma {:induction false} AboveAll(t: Tree, lo: real, hi: real, key: Bytes)
    requires Ordered(t, lo, hi) && Rank(key) < lo
    ensures Above(InOrder(t), key) == InOrder(t)
  {
    match t
    case Empty =>
    case Leaf(k, _) => LtIsRank(key, k);
    case Branch(_, k, l, r) =>
      AboveAll(l, lo, Rank(k), key);
      AboveAll(r, Rank(k), hi, key);
      AboveAppend(InOrder(l), InOrder(r), key);
  }

  lemma {:induction false} AboveNone(t: Tree, lo: real, hi: real, key: Bytes)
    requires Ordered(t, lo, hi) && hi <= Rank(key)
    ensures Above(InOrder(t), key) == []
  {
    match t
    case Empty =>
    case Leaf(k, _) => LtIsRank(key, k);
    case Branch(_, k, l, r) =>
      AboveNone(l, lo, Rank(k), key);
      AboveNone(r, Rank(k), hi, key);
      AboveAppend(InOrder(l), InOrder(r), key);
  }

  /** Seeking decides at each branch which side still holds entries above the key. */
  lemma AboveSplits(t: Tree, lo: real, hi: real, key: Bytes)
    requires Ordered(t, lo, hi)
    ensures t.Leaf? ==> Above(InOrder(t), key) == if Lt(key, t.key) then InOrder(t) else []
    ensures t.Branch? && Lt(key, t.key) ==>
              Above(InOrder(t), key) == Above(InOrder(t.left), key) + Ahead(t, AtChild(0))
    ensures t.Branch? && !Lt(key, t.key) ==>
              Above(InOrder(t), key) == Above(InOrder(t.right), key) + Ahead(t, AtChild(1))
  {
    if t.Branch? {
      LtIsRank(key, t.key);
      AboveAppend(InOrder(t.left), InOrder(t.right), key);
      if Lt(key, t.key) {
        AboveAll(t.right, Rank(t.key), hi, key);
      } else {
        AboveNone(t.left, lo, Rank(t.key), key);
      }
    }
  }

  lemma SeekEnds(t: Tree, lo: real, hi: real, key: Bytes, rest: Entries)
    requires Ordered(t, lo, hi) && t.Leaf?
    ensures Above(InOrder(t), key) + rest == Ahead(t, if Lt(key, t.key) then Entering else Status.At) + rest
  {
    AboveSplits(t, lo, hi, key);
  }

  lemma SeekGoesOn(t: Tree, lo: real, hi: real, key: Bytes, index: nat, rest: Entries)
    requires Ordered(t, lo, hi) && t.Branch? && index == if Lt(key, t.key) then 0 else 1
    ensures Above(InOrder(t), key) + rest
         == Above(InOrder(ChildAt(t, AtChild(index))), key) + (Ahead(t, AtChild(index)) + rest)
  {
    AboveSplits(t, lo, hi, key);
    Associates(Above(InOrder(ChildAt(t, AtChild(index))), key), Ahead(t, AtChild(index)), rest);
  }

  /** The leaves come in strictly ascending key order, so each of them once. */
  lemma {:induction false} InOrderAscends(t: Tree, lo: real, hi: real)
    requires Ordered(t, lo, hi)
    ensures forall i | 0 <= i < |InOrder(t)| :: lo <= Rank(InOrder(t)[i].0) < hi
    ensures forall i, j | 0 <= i < j < |InOrder(t)| :: Lt(InOrder(t)[i].0, InOrder(t)[j].0)
  {
    if t.Branch? {
      var l, r := InOrder(t.left), InOrder(t.right);
      InOrderAscends(t.left, lo, Rank(t.key));
      InOrderAscends(t.right, Rank(t.key), hi);
      var both: Entries := l + r;
      forall i, j | 0 <= i < j < |both|
        ensures Lt(both[i].0, both[j].0)
      {
        LtIsRank(both[i].0, both[j].0);
      }
    }
  }

  /** The leaves are exactly the entries of the map. */
  lemma {:induction false} InOrderIsMap(t: Tree, lo: real, hi: real, k: Bytes, v: Bytes)
    requires Ordered(t, lo, hi)
    ensures (k, v) in InOrder(t) <==> Lookup(t, k) == Some(v)
  {
    if t.Branch? {
      LtIsRank(k, t.key);
      InOrderIsMap(t.left, lo, Rank(t.key), k, v);
      InOrderIsMap(t.right, Rank(t.key), hi, k, v);
      if Lt(k, t.key) {
        LookupOutside(t.right, Rank(t.key), hi, k);
      } else {
        LookupOutside(t.left, lo, Rank(t.key), k);
      }
    }
  }

  // ---------------------------------------------------------------- the iterator

  /** A sound tree has leaves. */
  lemma {:induction false} SoundHasLeaves(t: Tree)
    requires Sound(t) && !t.Empty?
    ensures InOrder(t) != []
  {
    if t.Branch? {
      SoundHasLeaves(t.left);
    }
  }

  /** The entries that an answer of the iterator takes: an error stands for those of the missing tree. */
  function Taken(r: Option<Result<(Bytes, Bytes), AVLError>>, missing: Tree): Entries
  {
    match r
    case None => []
    case Some(Ok(e)) => [e]
    case Some(Err(_)) => InOrder(missing)
  }

  /** What came of one call: a leaf, or an error that stands for a missing tree. */
  datatype Answer = Found(entry: (Bytes, Bytes)) | Gap(missing: Tree, error: AVLError)

  /** The entries the answers take, those below missing nodes at the place where they would be. */
  function AllTaken(log: seq<Answer>): Entries
  {
    if log == [] then []
    else
      var last := log[|log| - 1];
      AllTaken(log[..|log| - 1]) + match last case Found(e) => [e] case Gap(t, _) => InOrder(t)
  }

  /** The entries among the answers. */
  function LeavesOf(log: seq<Answer>): Entries
  {
    if log == [] then []
    else
      var last := log[|log| - 1];
      LeavesOf(log[..|log| - 1]) + match last case Found(e) => [e] case Gap(_, _) => []
  }

  /** The errors among them. */
  function ErrorsOf(log: seq<Answer>): seq<AVLError>
  {
    if log == [] then []
    else
      var last := log[|log| - 1];
      ErrorsOf(log[..|log| - 1]) + match last case Found(_) => [] case Gap(_, e) => [e]
  }

  lemma OneMoreAnswer(log: seq<Answer>, a: Answer, left: Entries)
    ensures AllTaken(log + [a]) + left
         == AllTaken(log) + ((match a case Found(e) => [e] case Gap(t, _) => InOrder(t)) + left)
    ensures LeavesOf(log + [a]) == LeavesOf(log) + match a case Found(e) => [e] case Gap(_, _) => []
    ensures ErrorsOf(log + [a]) == ErrorsOf(log) + match a case Found(_) => [] case Gap(_, e) => [e]
  {
    assert (log + [a])[..|log|] == log;
  }

  /** Without errors the entries are all there was to take. */
  lemma {:induction false} NoErrorsNoGaps(log: seq<Answer>)
    requires ErrorsOf(log) == []
    ensures LeavesOf(log) == AllTaken(log)
    decreases |log|
  {
    if log != [] {
      NoErrorsNoGaps(log[..|log| - 1]);
    }
  }

  class AVLDBIterator {
    const hash: Hasher
    const db: Db
    const root: H256
    var trail: seq<Crumb>
    ghost const universe: iset<Bytes>
    ghost const tree: Tree
    ghost var trees: seq<Tree>

    /** A part of the tree, with nothing missing if nothing is missing of the whole. */
    ghost predicate Readable(t: Tree)
    {
      && Storable(hash, t) && Sound(t) && Within(hash, universe, t)
      && (StoredBelow(hash, db, tree) ==> StoredBelow(hash, db, t))
    }

    /** The store has not got the node. */
    ghost predicate Missing(t: Tree)
    {
      IsBig(hash, t) && HashDb.Get(hash, db, hash(NodeRlp(hash, t))).None?
    }

    ghost function ErrorAt(t: Tree): Option<AVLError>
    {
      if Missing(t) then Some(IncompleteDatabase(hash(NodeRlp(hash, t)))) else None
    }

    /** How the program refers to a node: by its bytes, or by the slot in its parent. */
    ghost predicate RefersTo(slot: Bytes, t: Tree)
    {
      if slot == NodeRlp(hash, t) then !Missing(t) else !t.Empty? && slot == Slot(hash, t)
    }

    /** The crumb is one of the node at the root of t, in a status that node can be in. */
    ghost predicate Fits(c: Crumb, t: Tree)
    {
      c.node == RawOf(hash, t) && Waiting(t, c.status)
    }

    ghost predicate AllFit(trees: seq<Tree>, trail: seq<Crumb>)
    {
      |trees| == |trail| && forall i | 0 <= i < |trail| :: Readable(trees[i]) && Fits(trail[i], trees[i])
    }

    ghost predicate Valid()
      reads this
    {
      && Names(hash, universe, db, root, tree) && Holds(hash, db, NodeRlp(hash, tree))
      && LowHeights(tree) && Ordered(tree, 0.0, 1.0) && AllFit(trees, trail)
    }

    /** What the iterator will still yield, if nothing is missing. */
    ghost function Pending(): Entries
      requires |trees| == |trail|
      reads this
    {
      AllAhead(trees, trail)
    }

    lemma OthersFit(trees: seq<Tree>, trail: seq<Crumb>, c: Crumb)
      requires trail != [] && AllFit(trees, trail)
      ensures var top := |trail| - 1;
              && Readable(trees[top]) && Fits(trail[top], trees[top]) && AllFit(trees[..top], trail[..top])
              && (Fits(c, trees[top]) ==> AllFit(trees, trail[top := c]))
    {
    }

    lemma ChildIsReadable(t: Tree, index: nat, slot: Bytes)
      requires Readable(t) && t.Branch? && index < 2
      requires slot == if index == 0 then Slot(hash, t.left) else Slot(hash, t.right)
      ensures var child := ChildAt(t, AtChild(index));
              && Readable(child) && InOrder(child) != [] && RefersTo(slot, child)
              && (StoredBelow(hash, db, tree) ==> !Missing(child))
    {
      var child := ChildAt(t, AtChild(index));
      SoundHasLeaves(child);
      SlotIsWhole(hash, child);
      NodeIsWhole(hash, child);
    }

    /** The iterator over the tree under a root, if the store has that root. */
    static method New(hash: Hasher, db: Db, root: H256, ghost universe: iset<Bytes>, ghost t: Tree)
      returns (r: Result<AVLDBIterator, AVLError>)
      requires Names(hash, universe, db, root, t) && LowHeights(t) && Ordered(t, 0.0, 1.0)
      ensures r.Err? <==> HashDb.Get(hash, db, root).None?
      ensures r.Err? ==> r.error == InvalidStateRoot(root)
      ensures r.Ok? ==>
                && r.value.Valid() && fresh(r.value) && r.value.Pending() == InOrder(t)
                && r.value.hash == hash && r.value.db == db && r.value.tree == t
    {
      if HashDb.Get(hash, db, root).None? {
        return Err(InvalidStateRoot(root));
      }
      var it := new AVLDBIterator.OnRoot(hash, db, root, universe, t);
      return Ok(it);
    }

    constructor OnRoot(hash: Hasher, db: Db, root: H256, ghost universe: iset<Bytes>, ghost t: Tree)
      requires Names(hash, universe, db, root, t) && HashDb.Get(hash, db, root).Some?
      requires LowHeights(t) && Ordered(t, 0.0, 1.0)
      ensures Valid() && Pending() == InOrder(t)
      ensures this.hash == hash && this.db == db && tree == t
    {
      this.hash, this.db, this.root, this.universe, this.tree := hash, db, root, universe, t;
      trail, trees := [], [];
      new;
      var error := Descend(HashDb.Get(hash, db, root).value, t);
    }

    /** The bytes of the node a slot refers to. */
    method GetRawOrLookup(slot: Bytes, ghost t: Tree) returns (r: Result<Bytes, AVLError>)
      requires Valid() && Readable(t) && RefersTo(slot, t)
      ensures r == match ErrorAt(t) case Some(e) => Err(e) case None => Ok(NodeRlp(hash, t))
    {
      NodeIsWhole(hash, t);
      SlotIsWhole(hash, t);
      if IsHashSlot(slot) {
        var key := DecodeHash(slot).value;
        var found := HashDb.Get(hash, db, key);
        r := if found.Some? then Ok(found.value) else Err(IncompleteDatabase(key));
      } else {
        r := Ok(slot);
      }
    }

    /** Enters the node behind a slot. */
    method Descend(slot: Bytes, ghost t: Tree) returns (error: Option<AVLError>)
      requires Valid() && Readable(t) && RefersTo(slot, t)
      modifies this`trail, this`trees
      ensures Valid() && error == ErrorAt(t)
      ensures error.Some? ==> trail == old(trail) && trees == old(trees)
      ensures error.None? ==>
                && trees == old(trees) + [t] && trail == old(trail) + [Crumb(RawOf(hash, t), Entering)]
                && Pending() == InOrder(t) + old(Pending())
                && AllTurns(trees, trail) == Turns(t, Entering) + old(AllTurns(trees, trail))
    {
      var b := GetRawOrLookup(slot, t);
      if b.Err? {
        return Some(b.error);
      }
      DecodedNode(hash, t);
      PushCrumb(Decoded(b.value).value, Entering, t);
      return None;
    }

    /** Moves the top crumb on, and drops it when its node is done with. */
    method Advance() returns (b: Crumb, ghost t: Tree)
      requires Valid() && trail != []
      modifies this`trail, this`trees
      ensures Valid() && Readable(t) && b.node == RawOf(hash, t)
      ensures !b.status.Exiting? ==> Fits(b, t) && !b.status.Entering?
      ensures Accounts(t, b.status, old(Pending()), Pending())
      ensures Hastens(t, b.status, old(AllTurns(trees, trail)), AllTurns(trees, trail))
    {
      var top := |trail| - 1;
      t := trees[top];
      b := trail[top].Increment();
      OthersFit(trees, trail, b);
      IncrementAccounts(hash, t, trail[top],
                        AllAhead(trees[..top], trail[..top]), AllTurns(trees[..top], trail[..top]));
      TopOfTrail(trees, trail, b);
      if b.status.Exiting? {
        trail, trees := trail[..top], trees[..top];
      } else {
        trail := trail[top := b];
      }
    }

    /** Yields the next leaf, or nothing when all have been visited. A child the store has not got is
        reported, and passed over. */
    method Next() returns (r: Option<Result<(Bytes, Bytes), AVLError>>, ghost missing: Tree)
      requires Valid()
      modifies this`trail, this`trees
      ensures Valid() && old(Pending()) == Taken(r, missing) + Pending()
      ensures r.None? <==> old(Pending()) == []
      ensures r.Some? ==> Taken(r, missing) != []
      ensures r.Some? && r.value.Err? ==> Some(r.value.error) == ErrorAt(missing) && !StoredBelow(hash, db, tree)
    {
      missing := Empty;
      while true
        invariant Valid() && Pending() == old(Pending())
        decreases AllTurns(trees, trail)
      {
        if trail == [] {
          return None, missing;
        }
        var b;
        ghost var t;
        b, t := Advance();
        match b.status
        case Exiting =>
        case At =>
          if b.node.RawLeaf? {
            return Some(Ok((b.node.key, b.node.value))), missing;
          }
        case AtChild(index) =>
          var slot := if index == 0 then b.node.left else b.node.right;
          ghost var child := ChildAt(t, b.status);
          ChildIsReadable(t, index, slot);
          var error := Descend(slot, child);
          if error.Some? {
            return Some(Err(error.value)), child;
          }
      }
    }

    /** Every error among the answers is that of its missing tree. */
    ghost predicate Honest(log: seq<Answer>)
    {
      forall i | 0 <= i < |log| && log[i].Gap? :: ErrorAt(log[i].missing) == Some(log[i].error)
    }

    /** Iterating to the end yields all that is ahead, in order, but for the leaves below missing nodes,
        each of which is reported in their place. */
    method Collect() returns (entries: Entries, errors: seq<AVLError>, ghost log: seq<Answer>)
      requires Valid()
      modifies this`trail, this`trees
      ensures Valid() && Pending() == [] && Honest(log) && AllTaken(log) == old(Pending())
      ensures entries == LeavesOf(log) && errors == ErrorsOf(log)
      ensures errors == [] ==> entries == old(Pending())
      ensures StoredBelow(hash, db, tree) ==> errors == []
    {
      entries, errors, log := [], [], [];
      ghost var left, all := Pending(), Pending();
      Associates(left, [], []);
      while true
        invariant Valid() && left == Pending() && AllTaken(log) + left == all && Honest(log)
        invariant entries == LeavesOf(log) && errors == ErrorsOf(log)
        invariant StoredBelow(hash, db, tree) ==> errors == []
        decreases |left|
      {
        var next;
        ghost var missing, before := Empty, left;
        next, missing := Next();
        left := Pending();
        assert |left| + |Taken(next, missing)| == |before|;
        if next.None? {
          assert AllTaken(log) + before == AllTaken(log);
          if errors == [] {
            NoErrorsNoGaps(log);
          }
          return;
        }
        ghost var a := match next.value case Ok(entry) => Found(entry) case Err(e) => Gap(missing, e);
        OneMoreAnswer(log, a, left);
        log := log + [a];
        match next.value
        case Ok(entry) => entries := entries + [entry];
        case Err(e) => errors := errors + [e];
      }
    }

    /** Positions the iterator behind the given key. */
    method Seek(key: Bytes) returns (error: Option<AVLError>, ghost missing: Tree)
      requires Valid()
      modifies this`trail, this`trees
      ensures Valid() && Above(InOrder(tree), key) == Above(InOrder(missing), key) + Pending()
      ensures error == ErrorAt(missing)
      ensures error.None? ==> missing == Empty
      ensures error.Some? ==> !StoredBelow(hash, db, tree)
    {
      trail, trees := [], [];
      error, missing := SeekDescend(HashDb.Get(hash, db, root).value, key, tree, 0.0, 1.0);
    }

    method SeekDescend(data: Bytes, key: Bytes, ghost t: Tree, ghost lo: real, ghost hi: real)
      returns (error: Option<AVLError>, ghost missing: Tree)
      requires Valid() && Readable(t) && data == NodeRlp(hash, t) && Ordered(t, lo, hi)
      modifies this`trail, this`trees
      ensures Valid() && Above(InOrder(t), key) + old(Pending()) == Above(InOrder(missing), key) + Pending()
      ensures error == ErrorAt(missing)
      ensures error.None? ==> missing == Empty
      ensures error.Some? ==> !StoredBelow(hash, db, tree)
      decreases t
    {
      error, missing := None, Empty;
      DecodedNode(hash, t);
      var node := Decoded(data).value;
      match node
      case RawEmpty =>
      case RawLeaf(k, _) =>
        SeekEnds(t, lo, hi, key, Pending());
        PushCrumb(node, if Lt(key, k) then Entering else Status.At, t);
      case RawBranch(_, k, left, right) =>
        var index := if Lt(key, k) then 0 else 1;
        var slot := if index == 0 then left else right;
        ghost var child := ChildAt(t, AtChild(index));
        ghost var lo', hi' := if index == 0 then lo else Rank(k), if index == 0 then Rank(k) else hi;
        ChildIsReadable(t, index, slot);
        SeekGoesOn(t, lo, hi, key, index, Pending());
        assert Ordered(child, lo', hi') && child < t;
        PushCrumb(node, AtChild(index), t);
        var next := GetRawOrLookup(slot, child);
        if next.Err? {
          return Some(next.error), child;
        }
        error, missing := SeekDescend(next.value, key, child, lo', hi');
    }

    /** Puts the crumb of a node on top of the trail. */
    method PushCrumb(node: RawNode, status: Status, ghost t: Tree)
      requires Valid() && Readable(t) && Fits(Crumb(node, status), t)
      modifies this`trail, this`trees
      ensures Valid() && trees == old(trees) + [t] && trail == old(trail) + [Crumb(node, status)]
      ensures Pending() == Ahead(t, status) + old(Pending())
      ensures AllTurns(trees, trail) == Turns(t, status) + old(AllTurns(trees, trail))
    {
      trail, trees := trail + [Crumb(node, status)], trees + [t];
      assert trail[..|trail| - 1] == old(trail) && trees[..|trees| - 1] == old(trees);
    }
  }
}
