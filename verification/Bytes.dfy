/** Bytes, results and the big-endian numerals shared by every other module. */
module Bytes {

  type byte = x: int | 0 <= x < 256
  type Bytes = seq<byte>

  const USIZE_LIMIT: nat := 0x1_0000_0000_0000_0000
  const U32_LIMIT: nat := 0x1_0000_0000

  datatype Option<+T> = None | Some(value: T)

  datatype Result<+T, +E> = Ok(value: T) | Err(error: E) {
    predicate IsFailure() { Err? }

    function PropagateFailure<U>(): Result<U, E>
      requires Err?
    {
      Err(error)
    }

    function Extract(): T
      requires Ok?
    {
      value
    }
  }

  /** The big-endian digits of n without leading zero bytes; zero has no digits. */
  function BE(n: nat): (b: Bytes)
  {
    if n == 0 then [] else BE(n / 256) + [n % 256]
  }

  /** The number a big-endian byte string stands for. */
  function FromBE(b: Bytes): nat
  {
    if b == [] then 0 else FromBE(b[..|b| - 1]) * 256 + b[|b| - 1]
  }

  function Pow256(k: nat): (p: nat)
    ensures p > 0
  {
    if k == 0 then 1 else 256 * Pow256(k - 1)
  }

  lemma Pow256Values()
    ensures Pow256(1) == 256 && Pow256(4) == U32_LIMIT && Pow256(8) == USIZE_LIMIT
  {
    assert Pow256(2) == 0x1_0000;
    assert Pow256(3) == 0x100_0000;
    assert Pow256(4) == U32_LIMIT;
    assert Pow256(5) == 0x100_0000_0000;
    assert Pow256(6) == 0x1_0000_0000_0000;
    assert Pow256(7) == 0x100_0000_0000_0000;
    assert Pow256(8) == USIZE_LIMIT;
  }

  lemma {:induction false} BERoundTrip(n: nat)
    ensures FromBE(BE(n)) == n
  {
    if n != 0 {
      BERoundTrip(n / 256);
      assert BE(n)[..|BE(n)| - 1] == BE(n / 256);
    }
  }

  lemma {:induction false} FromBERoundTrip(b: Bytes)
    requires b == [] || b[0] != 0
    ensures BE(FromBE(b)) == b
  {
    if b != [] {
      var init, last := b[..|b| - 1], b[|b| - 1];
      FromBERoundTrip(init);
      if init == [] {
        assert FromBE(b) == last;
      } else {
        FromBEPositive(init);
        assert FromBE(b) == FromBE(init) * 256 + last;
      }
      assert FromBE(b) / 256 == FromBE(init) && FromBE(b) % 256 == last;
    }
  }

  lemma {:induction false} FromBEPositive(b: Bytes)
    requires b != [] && b[0] != 0
    ensures FromBE(b) > 0
  {
    if |b| > 1 {
      FromBEPositive(b[..|b| - 1]);
    }
  }

  lemma {:induction false} FromBEBound(b: Bytes)
    ensures FromBE(b) < Pow256(|b|)
  {
    if b != [] {
      FromBEBound(b[..|b| - 1]);
    }
  }

  /** k bytes hold exactly the numbers below 256^k. */
  lemma {:induction false} BELength(n: nat, k: nat)
    ensures |BE(n)| <= k <==> n < Pow256(k)
    decreases n
  {
    if n != 0 && k != 0 {
      BELength(n / 256, k - 1);
    }
  }

  lemma {:induction false} BENonzeroLead(n: nat)
    ensures BE(n) == [] <==> n == 0
    ensures n != 0 ==> BE(n)[0] != 0
  {
    if n >= 256 {
      BENonzeroLead(n / 256);
    }
  }

  /** n in exactly k big-endian bytes; higher digits are cut off. */
  function FixedBE(n: nat, k: nat): (b: Bytes)
    ensures |b| == k
  {
    if k == 0 then [] else FixedBE(n / 256, k - 1) + [n % 256]
  }

  /** Leading zero bytes of a k-byte integer, that is leading_zeros() / 8. */
  function LeadingEmptyBytes(n: nat, k: nat): (z: nat)
    requires n < Pow256(k)
    ensures z <= k
  {
    BELength(n, k);
    k - |BE(n)|
  }

  /** Dropping the leading zero bytes of a fixed-width number leaves its digits. */
  lemma {:induction false} TrimmedFixedBE(n: nat, k: nat)
    requires n < Pow256(k)
    ensures FixedBE(n, k)[LeadingEmptyBytes(n, k)..] == BE(n)
  {
    BELength(n, k);
    if k > 0 {
      TrimmedFixedBE(n / 256, k - 1);
      BELength(n / 256, k - 1);
    }
  }

  function Concat(parts: seq<Bytes>): Bytes
  {
    if parts == [] then [] else parts[0] + Concat(parts[1..])
  }

  lemma {:induction false} ConcatAppend(a: seq<Bytes>, b: seq<Bytes>)
    ensures Concat(a + b) == Concat(a) + Concat(b)
  {
    if a == [] {
      assert a + b == b;
    } else {
      ConcatAppend(a[1..], b);
      assert (a + b)[1..] == a[1..] + b;
      assert a[0] + (Concat(a[1..]) + Concat(b)) == (a[0] + Concat(a[1..])) + Concat(b);
    }
  }

  lemma ConcatSnoc(a: seq<Bytes>, x: Bytes)
    ensures Concat(a + [x]) == Concat(a) + x
  {
    ConcatAppend(a, [x]);
    assert Concat([x]) == x;
  }
}
