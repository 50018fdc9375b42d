/** Fixed-width unsigned integers as little-endian 64-bit words: their value, addition, subtraction,
    comparison, and multiplication by a small number. */
module BigWords {

  const W: nat := 0x1_0000_0000_0000_0000
  const H: nat := 0x1_0000_0000

  type u64 = x: int | 0 <= x < 0x1_0000_0000_0000_0000
  type Words = seq<u64>

  /** The number a word sequence stands for, least significant word first. */
  function Val(w: Words): nat
  {
    if w == [] then 0 else w[0] + W * Val(w[1..])
  }

  function WPow(n: nat): (p: nat)
    ensures p > 0
  {
    if n == 0 then 1 else W * WPow(n - 1)
  }

  // ---------------------------------------------------------------- arithmetic helpers

  lemma MulMono(a: nat, b: nat, c: nat)
    requires a <= b
    ensures a * c <= b * c && c * a <= c * b
  {
  }

  lemma Scale(lo: nat, p: nat, hi: nat)
    ensures W * (lo + p * hi) == W * lo + (W * p) * hi
  {
    assert W * (p * hi) == (W * p) * hi;
  }

  /** Quotient and remainder are determined by the division equation. */
  lemma DivModUnique(x: nat, p: nat, q: nat, r: nat)
    requires x == q * p + r && r < p
    ensures x / p == q && x % p == r
  {
    var q', r' := x / p, x % p;
    assert x == q' * p + r' && r' < p;
    if q < q' {
      MulMono(q + 1, q', p);
    } else if q' < q {
      MulMono(q' + 1, q, p);
    }
  }

  lemma {:induction false} WPowAdd(a: nat, b: nat)
    ensures WPow(a + b) == WPow(a) * WPow(b)
  {
    if a != 0 {
      WPowAdd(a - 1, b);
      assert W * WPow(a - 1) * WPow(b) == W * (WPow(a - 1) * WPow(b));
    }
  }

  // ---------------------------------------------------------------- values

  lemma {:induction false} ValBound(w: Words)
    ensures Val(w) < WPow(|w|)
  {
    if w != [] {
      ValBound(w[1..]);
      assert W * Val(w[1..]) <= W * (WPow(|w| - 1) - 1);
    }
  }

  lemma {:induction false} ValSplit(w: Words, k: nat)
    requires k <= |w|
    ensures Val(w) == Val(w[..k]) + WPow(k) * Val(w[k..])
  {
    if k == 0 {
      assert w[0..] == w;
    } else {
      ValSplit(w[1..], k - 1);
      assert w[..k][1..] == w[1..][..k - 1] && w[1..][k - 1..] == w[k..];
      Scale(Val(w[1..][..k - 1]), WPow(k - 1), Val(w[k..]));
    }
  }

  lemma ValSnoc(w: Words, k: nat)
    requires k < |w|
    ensures Val(w[..k + 1]) == Val(w[..k]) + w[k] * WPow(k)
  {
    var p := w[..k + 1];
    ValSplit(p, k);
    assert p[..k] == w[..k] && p[k..] == [w[k]];
    assert Val([w[k]]) == w[k] + W * Val([w[k]][1..]);
  }

  lemma {:induction false} ValUpdate(w: Words, k: nat, x: u64)
    requires k < |w|
    ensures Val(w[k := x]) + w[k] * WPow(k) == Val(w) + x * WPow(k)
  {
    if k == 0 {
      assert w[0 := x][1..] == w[1..];
    } else {
      ValUpdate(w[1..], k - 1, x);
      assert w[k := x][1..] == w[1..][k - 1 := x];
      UpdateStep(Val(w[1..][k - 1 := x]), Val(w[1..]), WPow(k - 1), w[k], x);
    }
  }

  lemma UpdateStep(a: nat, b: nat, p: nat, before: nat, after: nat)
    requires a + before * p == b + after * p
    ensures W * a + before * (W * p) == W * b + after * (W * p)
  {
    assert before * (W * p) == W * (before * p) && after * (W * p) == W * (after * p);
  }

  lemma {:induction false} ValZero(w: Words)
    ensures Val(w) == 0 <==> forall i | 0 <= i < |w| :: w[i] == 0
  {
    if w != [] {
      ValZero(w[1..]);
      assert forall i | 0 <= i < |w| - 1 :: w[1..][i] == w[i + 1];
      if forall i | 0 <= i < |w| :: w[i] == 0 {
        assert forall i | 0 <= i < |w| - 1 :: w[1..][i] == 0;
      }
    }
  }

  /** Words of the same length with the same value are the same. */
  lemma {:induction false} ValInjective(a: Words, b: Words)
    requires |a| == |b| && Val(a) == Val(b)
    ensures a == b
  {
    if a != [] {
      var x, y := Val(a[1..]), Val(b[1..]);
      assert a[0] + W * x == b[0] + W * y;
      assert x == y;
      ValInjective(a[1..], b[1..]);
    }
  }

  // ---------------------------------------------------------------- constants

  function Zeros(n: nat): (w: Words)
    ensures |w| == n && forall i | 0 <= i < n :: w[i] == 0
  {
    seq(n, _ => 0)
  }

  lemma ZerosVal(n: nat)
    ensures Val(Zeros(n)) == 0
  {
    ValZero(Zeros(n));
  }

  /** A single word extended to n words. */
  function FromU64(x: u64, n: nat): (w: Words)
    requires n >= 1
    ensures |w| == n
  {
    Zeros(n)[0 := x]
  }

  lemma FromU64Val(x: u64, n: nat)
    requires n >= 1
    ensures Val(FromU64(x, n)) == x
  {
    ZerosVal(n);
    ValUpdate(Zeros(n), 0, x);
  }

  // ---------------------------------------------------------------- word operations

  /** The high and the low half of a word. */
  function Split(a: u64): (r: (u64, u64))
    ensures a == r.0 * H + r.1 && r.0 < H && r.1 < H
  {
    (a / H, a % H)
  }

  function OverflowingAddWord(a: u64, b: u64): (r: (u64, u64))
    ensures a + b == r.0 + W * r.1 && r.1 <= 1
  {
    if a + b < W then (a + b, 0) else (a + b - W, 1)
  }

  function OverflowingSubWord(a: u64, b: u64): (r: (u64, u64))
    ensures a - b == r.0 - W * r.1 && r.1 <= 1
  {
    if a >= b then (a - b, 0) else (a - b + W, 1)
  }

  /** Shifting left by 32 bits, the upper half being lost. */
  function ShlHalf(a: u64): (r: u64)
    ensures a * H == r + W * (a / H)
  {
    var r := (a % H) * H;
    assert r <= (H - 1) * H;
    r
  }

  /** A word, given in halves, times a 32-bit number, plus a carry: low word and carry out. */
  function MulU32(a: (u64, u64), b: u64, carry: u64): (r: (u64, u64))
    requires a.0 < H && a.1 < H && b < H
    ensures r.0 + W * r.1 == (a.0 * H + a.1) * b + carry
  {
    assert b * a.0 <= (H - 1) * (H - 1) && b * a.1 <= (H - 1) * (H - 1) by {
      MulMono(b, H - 1, a.0);
      MulMono(a.0, H - 1, H - 1);
      MulMono(b, H - 1, a.1);
      MulMono(a.1, H - 1, H - 1);
    }
    var upper: u64 := b * a.0;
    var lower: u64 := b * a.1;
    var (res1, overflow1) := OverflowingAddWord(lower, ShlHalf(upper));
    var (res2, overflow2) := OverflowingAddWord(res1, carry);
    assert (a.0 * H + a.1) * b == upper * H + lower;
    (res2, upper / H + overflow1 + overflow2)
  }

  // ---------------------------------------------------------------- addition and subtraction

  /** Word by word with carry; the flag says that the sum does not fit. */
  method OverflowingAdd(me: Words, you: Words) returns (r: Words, overflow: bool)
    requires |me| == |you|
    ensures |r| == |me|
    ensures Val(r) + (if overflow then WPow(|me|) else 0) == Val(me) + Val(you)
  {
    var n := |me|;
    var ret := new u64[n](_ => 0);
    var carry: u64 := 0;
    for i := 0 to n
      invariant carry <= 1
      invariant Val(ret[..i]) + carry * WPow(i) == Val(me[..i]) + Val(you[..i])
    {
      ghost var before := ret[..i];
      var (res1, overflow1) := OverflowingAddWord(me[i], you[i]);
      var (res2, overflow2) := OverflowingAddWord(res1, carry);
      ret[i] := res2;
      ValSnoc(me, i);
      ValSnoc(you, i);
      ValSnoc(ret[..], i);
      assert ret[..i] == before && ret[..][..i] == before && ret[..][..i + 1] == ret[..i + 1];
      AddStep(WPow(i), me[i], you[i], carry, res2, overflow1 + overflow2);
      carry := overflow1 + overflow2;
    }
    assert ret[..n] == ret[..] && me[..n] == me && you[..n] == you;
    r, overflow := ret[..], carry > 0;
  }

  lemma CarryStep(p: nat, sum: nat, low: nat, carry: nat)
    requires sum == low + W * carry
    ensures sum * p == low * p + carry * (W * p)
  {
    assert (low + W * carry) * p == low * p + carry * (W * p);
  }

  lemma AddStep(p: nat, a: nat, b: nat, carry: nat, low: nat, carry': nat)
    requires a + b + carry == low + W * carry'
    ensures a * p + b * p + carry * p == low * p + carry' * (W * p)
  {
    CarryStep(p, a + b + carry, low, carry');
    assert (a + b + carry) * p == a * p + b * p + carry * p;
  }

  /** Word by word with borrow; the flag says that the difference is negative. */
  method OverflowingSub(me: Words, you: Words) returns (r: Words, overflow: bool)
    requires |me| == |you|
    ensures |r| == |me| && (overflow <==> Val(me) < Val(you))
    ensures Val(r) == Val(me) - Val(you) + if overflow then WPow(|me|) else 0
  {
    var n := |me|;
    var ret := new u64[n](_ => 0);
    var carry: u64 := 0;
    for i := 0 to n
      invariant carry <= 1
      invariant Val(ret[..i]) + Val(you[..i]) == Val(me[..i]) + carry * WPow(i)
    {
      ghost var before := ret[..i];
      var (res1, overflow1) := OverflowingSubWord(me[i], you[i]);
      var (res2, overflow2) := OverflowingSubWord(res1, carry);
      ret[i] := res2;
      ValSnoc(me, i);
      ValSnoc(you, i);
      ValSnoc(ret[..], i);
      assert ret[..i] == before && ret[..][..i] == before && ret[..][..i + 1] == ret[..i + 1];
      BorrowStep(WPow(i), me[i], you[i], carry, res2, overflow1 + overflow2);
      carry := overflow1 + overflow2;
    }
    assert ret[..n] == ret[..] && me[..n] == me && you[..n] == you;
    r, overflow := ret[..], carry > 0;
    ValBound(r);
  }

  lemma BorrowStep(p: nat, a: nat, b: nat, borrow: nat, low: nat, borrow': nat)
    requires a - b - borrow == low - W * borrow'
    ensures low * p + b * p + borrow * p == a * p + borrow' * (W * p)
  {
    assert (low + b + borrow) * p == (a + W * borrow') * p;
    assert (low + b + borrow) * p == low * p + b * p + borrow * p;
    assert (a + W * borrow') * p == a * p + borrow' * (W * p);
  }

  /** Times a 32-bit number. */
  method OverflowingMulU32(me: Words, other: u64) returns (r: Words, overflow: bool)
    requires other < H
    ensures |r| == |me|
    ensures Val(r) == (Val(me) * other) % WPow(|me|)
    ensures overflow <==> Val(me) * other >= WPow(|me|)
    ensures !overflow ==> Val(r) == Val(me) * other
  {
    var n := |me|;
    var ret := new u64[n](_ => 0);
    var carry: u64 := 0;
    for i := 0 to n
      invariant Val(ret[..i]) + carry * WPow(i) == Val(me[..i]) * other
    {
      ghost var before := ret[..i];
      var (res, carry2) := MulU32(Split(me[i]), other, carry);
      ret[i] := res;
      ValSnoc(me, i);
      ValSnoc(ret[..], i);
      assert ret[..i] == before && ret[..][..i] == before && ret[..][..i + 1] == ret[..i + 1];
      MulU32Step(WPow(i), Val(me[..i]), me[i], other, carry, res, carry2);
      carry := carry2;
    }
    assert ret[..n] == ret[..] && me[..n] == me;
    r, overflow := ret[..], carry > 0;
    ValBound(r);
    DivModUnique(Val(me) * other, WPow(n), carry, Val(r));
    if carry > 0 {
      MulMono(1, carry, WPow(n));
    }
  }

  lemma MulU32Step(p: nat, done: nat, a: nat, other: nat, carry: nat, res: nat, carry2: nat)
    requires res + W * carry2 == a * other + carry
    ensures (done + a * p) * other + carry * p == done * other + res * p + carry2 * (W * p)
  {
    CarryStep(p, a * other + carry, res, carry2);
    assert (a * other + carry) * p == a * other * p + carry * p;
    assert (done + a * p) * other == done * other + a * other * p;
  }

  // ---------------------------------------------------------------- comparison

  datatype Ordering = Less | Equal | Greater

  /** Compares from the most significant word down. */
  method Cmp(me: Words, you: Words) returns (r: Ordering)
    requires |me| == |you|
    ensures r.Less? <==> Val(me) < Val(you)
    ensures r.Greater? <==> Val(me) > Val(you)
  {
    var i := |me|;
    assert me[i..] == you[i..] == [];
    while i > 0
      invariant i <= |me| && me[i..] == you[i..]
    {
      i := i - 1;
      if me[i] != you[i] {
        CmpAt(me, you, i);
        return if me[i] < you[i] then Less else Greater;
      }
      assert me[i..] == [me[i]] + me[i + 1..] && you[i..] == [you[i]] + you[i + 1..];
    }
    assert me[0..] == me && you[0..] == you;
    return Equal;
  }

  lemma HigherWordDecides(lo: nat, a: nat, lo': nat, b: nat, p: nat)
    requires lo < p && a < b
    ensures lo + a * p < lo' + b * p
  {
    MulMono(a + 1, b, p);
    assert (a + 1) * p == a * p + p;
  }

  lemma CmpAt(me: Words, you: Words, i: nat)
    requires |me| == |you| && i < |me| && me[i + 1..] == you[i + 1..] && me[i] != you[i]
    ensures me[i] < you[i] <==> Val(me) < Val(you)
    ensures Val(me) != Val(you)
  {
    ValSplit(me, i + 1);
    ValSplit(you, i + 1);
    ValSnoc(me, i);
    ValSnoc(you, i);
    ValBound(me[..i]);
    ValBound(you[..i]);
    if me[i] < you[i] {
      HigherWordDecides(Val(me[..i]), me[i], Val(you[..i]), you[i], WPow(i));
    } else {
      HigherWordDecides(Val(you[..i]), you[i], Val(me[..i]), me[i], WPow(i));
    }
  }

  method IsZero(me: Words) returns (r: bool)
    ensures r <==> Val(me) == 0
  {
    ValZero(me);
    for i := 0 to |me|
      invariant forall j | 0 <= j < i :: me[j] == 0
    {
      if me[i] != 0 {
        return false;
      }
    }
    return true;
  }
}
