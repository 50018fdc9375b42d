/** The order of keys: byte strings compared as slices are. It embeds into the reals, which lets
    proofs about intervals of keys run on linear arithmetic. */
module Order {
  import opened Bytes

  predicate Lt(a: Bytes, b: Bytes)
    decreases |a|
  {
    if b == [] then false
    else if a == [] then true
    else a[0] < b[0] || (a[0] == b[0] && Lt(a[1..], b[1..]))
  }

  ghost function Rank(k: Bytes): (r: real)
    ensures 0.0 <= r < 1.0
  {
    if k == [] then 0.0 else ((k[0] as int + 1) as real + Rank(k[1..])) / 257.0
  }

  lemma {:induction false} LtIsRank(a: Bytes, b: Bytes)
    ensures Lt(a, b) <==> Rank(a) < Rank(b)
    ensures a == b <==> Rank(a) == Rank(b)
    decreases |a|
  {
    if a != [] && b != [] {
      LtIsRank(a[1..], b[1..]);
      if a[0] == b[0] {
        assert a == [a[0]] + a[1..] && b == [b[0]] + b[1..];
      }
    }
  }

  /** The first byte in which two strings differ decides, and a proper prefix comes first. */
  lemma {:induction false} LtIsLexicographic(a: Bytes, b: Bytes)
    ensures Lt(a, b) <==>
            || (|a| < |b| && a == b[..|a|])
            || (exists i :: DiffersFirst(a, b, i) && a[i] < b[i])
    decreases |a|
  {
    if a != [] && b != [] {
      LtIsLexicographic(a[1..], b[1..]);
      if a[0] == b[0] {
        SamePrefix(a, b);
      } else {
        assert DiffersFirst(a, b, 0);
      }
    }
  }

  /** Byte i is the first in which a and b differ. */
  predicate DiffersFirst(a: Bytes, b: Bytes, i: int)
  {
    0 <= i < |a| && i < |b| && a[..i] == b[..i] && a[i] != b[i]
  }

  lemma SamePrefix(a: Bytes, b: Bytes)
    requires a != [] && b != [] && a[0] == b[0]
    ensures |a| < |b| && a == b[..|a|] <==> |a| < |b| && a[1..] == b[1..][..|a| - 1]
    ensures (exists i :: DiffersFirst(a, b, i) && a[i] < b[i])
       <==> (exists i :: DiffersFirst(a[1..], b[1..], i) && a[1..][i] < b[1..][i])
  {
    var c, d := a[1..], b[1..];
    if |a| < |b| {
      assert a == [a[0]] + c && b[..|a|] == [b[0]] + d[..|a| - 1];
    }
    forall i | DiffersFirst(a, b, i)
      ensures DiffersFirst(c, d, i - 1) && c[i - 1] == a[i] && d[i - 1] == b[i]
    {
      assert c[..i - 1] == a[..i][1..] && d[..i - 1] == b[..i][1..];
    }
    forall i | DiffersFirst(c, d, i)
      ensures DiffersFirst(a, b, i + 1) && a[i + 1] == c[i] && b[i + 1] == d[i]
    {
      assert a[..i + 1] == [a[0]] + c[..i] && b[..i + 1] == [b[0]] + d[..i];
    }
  }
}
