/** Tree nodes as RLP: the format in which a node refers to its children, inlined below 32 bytes
    and by hash otherwise. */
module AvlNode {
  import opened Bytes
  import opened Rlp
  import opened RlpInt
  import opened Order
  import opened HashDb
  import opened AvlTree

  /** A node read from bytes; the children still are encoded slots. */
  datatype RawNode =
    | RawEmpty
    | RawLeaf(key: Bytes, value: Bytes)
    | RawBranch(height: nat, key: Bytes, left: Bytes, right: Bytes)

  /** The payload of the item at the given index. */
  function DataAt(b: Bytes, index: nat): Result<Bytes, DecoderError>
  {
    var item :- At(b, index);
    Payload(item)
  }

  type Field = Result<Bytes, DecoderError>

  function LeafOf(k: Field, v: Field): Option<RawNode>
  {
    if k.Ok? && v.Ok? then Some(RawLeaf(k.value, v.value)) else None
  }

  /** The height field is taken out of its item and then decoded as an item again. */
  function BranchOf(l: Field, r: Field, h: Field, k: Field): Option<RawNode>
  {
    if l.Err? || r.Err? || h.Err? || k.Err? || DecodeUint(h.value, 4).Err? then None
    else Some(RawBranch(DecodeUint(h.value, 4).value, k.value, l.value, r.value))
  }

  /** Reads a node; None where the program panics on an invalid node. */
  function Decoded(b: Bytes): Option<RawNode>
  {
    if IsData(b) then (if Size(b) == 0 then Some(RawEmpty) else None)
    else if ItemCount(b) == Ok(2) then LeafOf(DataAt(b, 0), DataAt(b, 1))
    else if ItemCount(b) == Ok(4) then BranchOf(At(b, 0), At(b, 1), DataAt(b, 2), DataAt(b, 3))
    else None
  }

  /** A slot that stands for a node kept elsewhere. */
  predicate IsHashSlot(slot: Bytes) { IsData(slot) && Size(slot) == 32 }

  /** decode of a 32-byte hash. */
  function DecodeHash(slot: Bytes): Result<H256, DecoderError>
  {
    var v :- DecodeValue(slot);
    if |v| < 32 then Err(RlpIsTooShort) else if |v| > 32 then Err(RlpIsTooBig) else Ok(v)
  }

  // ---------------------------------------------------------------- the encoding of a whole tree

  function NodeRlp(hash: Hasher, t: Tree): Bytes
    decreases t, 0
  {
    match t
    case Empty => NULL_RLP
    case Leaf(k, v) => EncodeList(Concat([EncodeValue(k), EncodeValue(v)]))
    case Branch(h, k, l, r) =>
      EncodeList(Concat([Slot(hash, l), Slot(hash, r), EncodeValue(BE(h)), EncodeValue(k)]))
  }

  predicate IsBig(hash: Hasher, t: Tree)
    decreases t, 1
  {
    |NodeRlp(hash, t)| >= 32
  }

  /** How a parent refers to t. */
  function Slot(hash: Hasher, t: Tree): Bytes
    decreases t, 2
  {
    if IsBig(hash, t) then EncodeValue(hash(NodeRlp(hash, t))) else NodeRlp(hash, t)
  }

  /** Node sizes fit 32 bits. */
  ghost predicate Sized(hash: Hasher, t: Tree)
  {
    |NodeRlp(hash, t)| < U32_LIMIT && (t.Branch? ==> Sized(hash, t.left) && Sized(hash, t.right))
  }

  /** Heights survive being decoded twice. */
  predicate LowHeights(t: Tree)
  {
    t.Branch? ==> 1 <= t.height <= 127 && LowHeights(t.left) && LowHeights(t.right)
  }

  /** The heights on the way to a key decode to something, be it another height. */
  predicate Legible(t: Tree, key: Bytes)
  {
    t.Branch? ==> DecodeUint(BE(t.height), 4).Ok? && Legible(if Lt(key, t.key) then t.left else t.right, key)
  }

  lemma {:induction false} LowIsLegible(t: Tree, key: Bytes)
    requires LowHeights(t)
    ensures Legible(t, key)
  {
    if t.Branch? {
      HeightDecodedTwice(t.height);
      LowIsLegible(if Lt(key, t.key) then t.left else t.right, key);
    }
  }

  /** Trees the format can carry. */
  ghost predicate Storable(hash: Hasher, t: Tree) { Sized(hash, t) && LowHeights(t) }

  /** The node read back, its children as slots. */
  function RawOf(hash: Hasher, t: Tree): RawNode
  {
    match t
    case Empty => RawEmpty
    case Leaf(k, v) => RawLeaf(k, v)
    case Branch(h, k, l, r) => RawBranch(h, k, Slot(hash, l), Slot(hash, r))
  }

  lemma SlotIsWhole(hash: Hasher, t: Tree)
    requires Sized(hash, t)
    ensures Whole(Slot(hash, t)) && |Slot(hash, t)| <= 33
    ensures t.Empty? ==> IsEmpty(Slot(hash, t))
    ensures !t.Empty? ==> !IsEmpty(Slot(hash, t)) && (IsHashSlot(Slot(hash, t)) <==> IsBig(hash, t))
    ensures IsBig(hash, t) ==> DecodeHash(Slot(hash, t)) == Ok(hash(NodeRlp(hash, t)))
    ensures !t.Empty? && !IsBig(hash, t) ==> IsList(Slot(hash, t))
  {
    if IsBig(hash, t) {
      ValueIsWhole(hash(NodeRlp(hash, t)));
    } else {
      NodeIsWhole(hash, t);
    }
  }

  /** A node shorter than a hash is inlined as it is; a longer one is referred to by its hash. */
  lemma SlotForm(hash: Hasher, t: Tree)
    ensures var b := NodeRlp(hash, t); Slot(hash, t) == if |b| < 32 then b else [0xa0] + hash(b)
  {
  }

  lemma NodeIsWhole(hash: Hasher, t: Tree)
    requires Sized(hash, t)
    ensures Whole(NodeRlp(hash, t))
    ensures t.Empty? <==> IsData(NodeRlp(hash, t))
    ensures !t.Empty? ==> IsList(NodeRlp(hash, t)) && NodeRlp(hash, t)[0] != 0xc0
  {
    match t
    case Empty =>
    case Leaf(k, v) =>
      ListIsWhole(Concat([EncodeValue(k), EncodeValue(v)]));
      assert Concat([EncodeValue(k), EncodeValue(v)]) == EncodeValue(k) + Concat([EncodeValue(v)]);
    case Branch(h, k, l, r) =>
      var parts := [Slot(hash, l), Slot(hash, r), EncodeValue(BE(h)), EncodeValue(k)];
      ListIsWhole(Concat(parts));
      assert |parts[2]| >= 1;
      ConcatPartLength(parts, 2);
  }

  lemma ReadParts(parts: seq<Bytes>)
    requires AllWhole(parts) && |EncodeList(Concat(parts))| < U32_LIMIT
    ensures var b := EncodeList(Concat(parts));
            !IsData(b) && ItemCount(b) == Ok(|parts|) && forall i | 0 <= i < |parts| :: At(b, i) == Ok(parts[i])
  {
    ListReadsBack(parts);
  }

  lemma ReadData(b: Bytes, i: nat, v: Bytes)
    requires At(b, i) == Ok(EncodeValue(v)) && |EncodeValue(v)| < U32_LIMIT
    ensures DataAt(b, i) == Ok(v)
  {
    ValueIsWhole(v);
  }

  lemma DecodedPair(parts: seq<Bytes>, k: Bytes, v: Bytes)
    requires |parts| == 2 && parts[0] == EncodeValue(k) && parts[1] == EncodeValue(v)
    requires |EncodeList(Concat(parts))| < U32_LIMIT
    ensures Decoded(EncodeList(Concat(parts))) == Some(RawLeaf(k, v))
  {
    PartsFit(parts);
    ValueIsWhole(k);
    ValueIsWhole(v);
    ReadParts(parts);
    var b := EncodeList(Concat(parts));
    ReadData(b, 0, k);
    ReadData(b, 1, v);
  }

  /** What stands where in a node. */
  lemma NodeLayout(hash: Hasher, t: Tree)
    requires Sized(hash, t)
    ensures var b := NodeRlp(hash, t);
            match t
            case Empty => b == [0x80]
            case Leaf(k, v) =>
              && IsList(b) && ItemCount(b) == Ok(2) && At(b, 0) == Ok(EncodeValue(k)) && At(b, 1) == Ok(EncodeValue(v))
            case Branch(h, k, l, r) =>
              && IsList(b) && ItemCount(b) == Ok(4) && At(b, 0) == Ok(Slot(hash, l)) && At(b, 1) == Ok(Slot(hash, r))
              && At(b, 2) == Ok(EncodeValue(BE(h))) && At(b, 3) == Ok(EncodeValue(k))
  {
    match t
    case Empty =>
    case Leaf(k, v) =>
      var parts := [EncodeValue(k), EncodeValue(v)];
      PartsFit(parts);
      assert |parts[0]| < U32_LIMIT && |parts[1]| < U32_LIMIT;
      ValueIsWhole(k);
      ValueIsWhole(v);
      NodeIsWhole(hash, t);
      ReadParts(parts);
    case Branch(h, k, l, r) =>
      var parts := [Slot(hash, l), Slot(hash, r), EncodeValue(BE(h)), EncodeValue(k)];
      PartsFit(parts);
      assert |parts[2]| < U32_LIMIT && |parts[3]| < U32_LIMIT;
      ValueIsWhole(BE(h));
      ValueIsWhole(k);
      SlotIsWhole(hash, l);
      SlotIsWhole(hash, r);
      AllFour(parts);
      NodeIsWhole(hash, t);
      ReadParts(parts);
  }

  /** A branch as it is read back, with the height that its own height reads as. */
  function BranchRead(h: nat, k: Bytes, l: Bytes, r: Bytes): Option<RawNode>
  {
    match DecodeUint(BE(h), 4)
    case Ok(h') => Some(RawBranch(h', k, l, r))
    case Err(_) => None
  }

  /** Any node as it is read back. */
  function NodeRead(hash: Hasher, t: Tree): Option<RawNode>
  {
    match t
    case Branch(h, k, l, r) => BranchRead(h, k, Slot(hash, l), Slot(hash, r))
    case _ => Some(RawOf(hash, t))
  }

  lemma DecodedFields(b: Bytes, l: Bytes, r: Bytes, h: nat, k: Bytes)
    requires !IsData(b) && ItemCount(b) == Ok(4)
    requires At(b, 0) == Ok(l) && At(b, 1) == Ok(r) && DataAt(b, 2) == Ok(BE(h)) && DataAt(b, 3) == Ok(k)
    ensures Decoded(b) == BranchRead(h, k, l, r)
  {
  }

  lemma AllFour(parts: seq<Bytes>)
    requires |parts| == 4 && Whole(parts[0]) && Whole(parts[1]) && Whole(parts[2]) && Whole(parts[3])
    ensures AllWhole(parts)
  {
  }

  lemma DecodedQuad(parts: seq<Bytes>, h: nat, k: Bytes)
    requires |parts| == 4 && Whole(parts[0]) && Whole(parts[1])
    requires parts[2] == EncodeValue(BE(h)) && parts[3] == EncodeValue(k)
    requires |EncodeList(Concat(parts))| < U32_LIMIT
    ensures Decoded(EncodeList(Concat(parts))) == BranchRead(h, k, parts[0], parts[1])
  {
    PartsFit(parts);
    ValueIsWhole(BE(h));
    ValueIsWhole(k);
    AllFour(parts);
    var b := EncodeList(Concat(parts));
    ReadParts(parts);
    ReadData(b, 2, BE(h));
    ReadData(b, 3, k);
    DecodedFields(b, parts[0], parts[1], h, k);
  }

  /** What any written node is read back as: only the height of a branch can come out changed, or not at
      all. */
  lemma DecodedAs(hash: Hasher, t: Tree)
    requires Sized(hash, t)
    ensures Decoded(NodeRlp(hash, t)) == NodeRead(hash, t)
  {
    match t
    case Empty =>
    case Leaf(k, v) => DecodedPair([EncodeValue(k), EncodeValue(v)], k, v);
    case Branch(h, k, l, r) =>
      SlotIsWhole(hash, l);
      SlotIsWhole(hash, r);
      DecodedQuad([Slot(hash, l), Slot(hash, r), EncodeValue(BE(h)), EncodeValue(k)], h, k);
  }

  /** Reading a node undoes writing it exactly when it is no branch, or one of height 1 to 127. */
  lemma DecodedNodeIff(hash: Hasher, t: Tree)
    requires Sized(hash, t)
    ensures Decoded(NodeRlp(hash, t)) == Some(RawOf(hash, t)) <==> (t.Branch? ==> 1 <= t.height <= 127)
  {
    DecodedAs(hash, t);
    if t.Branch? {
      HeightDecodedTwice(t.height);
    }
  }

  /** Reading a node undoes writing it. */
  lemma DecodedNode(hash: Hasher, t: Tree)
    requires Storable(hash, t)
    ensures Decoded(NodeRlp(hash, t)) == Some(RawOf(hash, t))
  {
    DecodedNodeIff(hash, t);
  }

  lemma PartsFit(parts: seq<Bytes>)
    requires |EncodeList(Concat(parts))| < U32_LIMIT
    ensures forall i | 0 <= i < |parts| :: |parts[i]| < U32_LIMIT
  {
    forall i | 0 <= i < |parts|
      ensures |parts[i]| < U32_LIMIT
    {
      ConcatPartLength(parts, i);
    }
  }

  // ---------------------------------------------------------------- trees and their bytes

  /** Every node of the tree, encoded, belongs to the universe. */
  ghost predicate Within(hash: Hasher, universe: iset<Bytes>, t: Tree)
  {
    && NodeRlp(hash, t) in universe
    && (t.Branch? ==> Within(hash, universe, t.left) && Within(hash, universe, t.right))
  }

  /** Without collisions the bytes of a node determine the whole tree below it. */
  lemma {:induction false} NodeRlpInjective(hash: Hasher, universe: iset<Bytes>, t: Tree, u: Tree)
    requires NoCollisions(hash, universe) && Within(hash, universe, t) && Within(hash, universe, u)
    requires Storable(hash, t) && Storable(hash, u) && Sound(t) && Sound(u)
    requires NodeRlp(hash, t) == NodeRlp(hash, u)
    ensures t == u
    decreases t
  {
    DecodedNode(hash, t);
    DecodedNode(hash, u);
    if t.Branch? {
      SlotInjective(hash, universe, t.left, u.left);
      SlotInjective(hash, universe, t.right, u.right);
      NodeRlpInjective(hash, universe, t.left, u.left);
      NodeRlpInjective(hash, universe, t.right, u.right);
    }
  }

  lemma SlotInjective(hash: Hasher, universe: iset<Bytes>, t: Tree, u: Tree)
    requires NoCollisions(hash, universe) && NodeRlp(hash, t) in universe && NodeRlp(hash, u) in universe
    requires Storable(hash, t) && Storable(hash, u) && !t.Empty? && !u.Empty?
    requires Slot(hash, t) == Slot(hash, u)
    ensures NodeRlp(hash, t) == NodeRlp(hash, u)
  {
    SlotIsWhole(hash, t);
    SlotIsWhole(hash, u);
  }

  /** The store holds every hashed node below the root of t. */
  ghost predicate StoredBelow(hash: Hasher, db: Db, t: Tree)
  {
    t.Branch? ==>
      && (IsBig(hash, t.left) ==> Holds(hash, db, NodeRlp(hash, t.left)))
      && (IsBig(hash, t.right) ==> Holds(hash, db, NodeRlp(hash, t.right)))
      && StoredBelow(hash, db, t.left) && StoredBelow(hash, db, t.right)
  }

  lemma {:induction false} StoredGrows(hash: Hasher, db: Db, db': Db, t: Tree)
    requires StoredBelow(hash, db, t) && Grows(hash, db, db')
    ensures StoredBelow(hash, db', t)
  {
    if t.Branch? {
      StoredGrows(hash, db, db', t.left);
      StoredGrows(hash, db, db', t.right);
    }
  }

  /** The whole tree can be read from the store, starting at the hash of its root. */
  ghost predicate Rooted(hash: Hasher, universe: iset<Bytes>, db: Db, t: Tree)
  {
    && Holds(hash, db, NodeRlp(hash, t)) && StoredBelow(hash, db, t)
    && Storable(hash, t) && Within(hash, universe, t) && Sound(t)
  }
}
