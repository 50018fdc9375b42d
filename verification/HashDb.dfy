/** The backing store: byte strings kept under their hash with a count of references.
    The hash is a parameter; nothing is assumed of it but its length, and that it does not
    collide on the strings under consideration. */
module HashDb {
  import opened Bytes

  type H256 = b: Bytes | |b| == 32 witness seq(32, _ => 0)
  type Hasher = Bytes -> H256

  /** The encoding of the empty node, always present. */
  const NULL_RLP: Bytes := [0x80]

  /** Removals can be owed, so the count is signed. */
  datatype Entry = Entry(value: Bytes, refs: int)
  type Db = map<H256, Entry>

  function Get(hash: Hasher, db: Db, h: H256): Option<Bytes>
  {
    if h == hash(NULL_RLP) then Some(NULL_RLP)
    else if h in db && db[h].refs > 0 then Some(db[h].value)
    else None
  }

  function Insert(hash: Hasher, db: Db, b: Bytes): Db
  {
    var h := hash(b);
    if b == NULL_RLP then db
    else if h in db then
      db[h := Entry(if db[h].refs > 0 then db[h].value else b, db[h].refs + 1)]
    else db[h := Entry(b, 1)]
  }

  function Remove(hash: Hasher, db: Db, h: H256): Db
  {
    if h == hash(NULL_RLP) then db
    else if h in db then db[h := Entry(db[h].value, db[h].refs - 1)]
    else db[h := Entry([], -1)]
  }

  /** No two strings of the universe have the same hash. */
  ghost predicate NoCollisions(hash: Hasher, universe: iset<Bytes>)
  {
    NULL_RLP in universe && forall a, b :: a in universe && b in universe && hash(a) == hash(b) ==> a == b
  }

  /** Nothing is owed, and every live entry is a string of the universe under its own hash. */
  ghost predicate DbOk(hash: Hasher, universe: iset<Bytes>, db: Db)
  {
    forall h <- db :: db[h].refs >= 0 && (db[h].refs > 0 ==> db[h].value in universe && hash(db[h].value) == h)
  }

  ghost predicate Holds(hash: Hasher, db: Db, b: Bytes)
  {
    Get(hash, db, hash(b)) == Some(b)
  }

  /** What db holds, db' holds as well. */
  ghost predicate Grows(hash: Hasher, db: Db, db': Db)
  {
    forall b :: Holds(hash, db, b) ==> Holds(hash, db', b)
  }

  lemma InsertHolds(hash: Hasher, universe: iset<Bytes>, db: Db, b: Bytes)
    requires NoCollisions(hash, universe) && DbOk(hash, universe, db) && b in universe
    ensures DbOk(hash, universe, Insert(hash, db, b))
    ensures Holds(hash, Insert(hash, db, b), b) && Grows(hash, db, Insert(hash, db, b))
  {
  }

  /** Kills every hash of the list once. */
  method RemoveAll(hash: Hasher, start: Db, hashes: set<H256>) returns (db: Db)
    requires forall h <- start :: start[h].refs >= 0
    requires forall h <- hashes :: Get(hash, start, h).Some?
    ensures db.Keys == start.Keys
    ensures forall h <- db :: db[h] == if h in hashes && h != hash(NULL_RLP)
                                      then Entry(start[h].value, start[h].refs - 1) else start[h]
  {
    db := start;
    var rest := hashes;
    while rest != {}
      invariant rest <= hashes && db.Keys == start.Keys
      invariant forall h <- db :: db[h] == if h in hashes - rest && h != hash(NULL_RLP)
                                          then Entry(start[h].value, start[h].refs - 1) else start[h]
      decreases rest
    {
      var h :| h in rest;
      rest := rest - {h};
      db := Remove(hash, db, h);
    }
  }

  /** Removing other hashes leaves a string in place. */
  lemma RemovalSpares(hash: Hasher, universe: iset<Bytes>, start: Db, hashes: set<H256>, db: Db)
    requires DbOk(hash, universe, start)
    requires forall h <- hashes :: Get(hash, start, h).Some?
    requires db.Keys == start.Keys
    requires forall h <- db :: db[h] == if h in hashes && h != hash(NULL_RLP)
                                        then Entry(start[h].value, start[h].refs - 1) else start[h]
    ensures DbOk(hash, universe, db)
    ensures forall b :: Holds(hash, start, b) && (hash(b) !in hashes || b == NULL_RLP) ==> Holds(hash, db, b)
  {
  }
}
