/** Schoolbook multiplication on 32-bit halves. */
module BigMul {
  import opened BigWords

  /** The two halves of a partial product put back together. */
  function JoinHalves(low: u64, high: u64): (r: u64)
    ensures r + W * (high / H) == low % H + high * H
  {
    assert (high % H) * H <= (H - 1) * H;
    low % H + ShlHalf(high)
  }

  /** One cell of the product table: me[j] * you[i] on top of what position i + j and its neighbour
      hold, with the carry of the cell before. At most one carry leaves it. */
  method MulCell(a: u64, b: u64, low: u64, high: u64, carry: u64) returns (low': u64, high': u64, carry': u64)
    requires carry <= 1
    ensures low' + W * high' + W * W * carry' == a * b + low + W * (high + carry)
    ensures carry' <= 1
  {
    var (bu, bl) := Split(b);
    var (cl, overflowL) := MulU32(Split(a), bl, low);
    var (cu, overflowU) := MulU32(Split(a), bu, cl / H);
    low' := JoinHalves(cl, cu);
    CellBounds(a, b, low, bl, bu, cl, overflowL, cu, overflowU);
    var res := cu / H + overflowU * H;
    var (res1, o1) := OverflowingAddWord(res, overflowL);
    var (res2, o2) := OverflowingAddWord(res1, carry);
    var (res3, o3) := OverflowingAddWord(res2, high);
    high' := res3;
    CellSum(a, b, low, bl, bu, cl, overflowL, cu, overflowU, low');
    CellCarry(a, b, low, high, carry, low', high', o1 + o2 + o3);
    // of the three additions at most one overflows, so joining the flags is adding them
    carry' := if o1 == 1 || o2 == 1 || o3 == 1 then 1 else 0;
  }

  /** The upper half product leaves room for the shift by 32 bits. */
  lemma CellBounds(a: u64, b: u64, low: u64, bl: u64, bu: u64, cl: u64, overflowL: u64, cu: u64, overflowU: u64)
    requires bl < H && bu < H
    requires cu + W * overflowU == a * bu + cl / H
    ensures overflowU * H + cu / H < W
  {
    MulMono(a, W - 1, bu);
    MulMono(bu, H - 1, W - 1);
    assert a * bu <= (W - 1) * (H - 1);
  }

  lemma CellSum(a: u64, b: u64, low: u64, bl: u64, bu: u64, cl: u64, overflowL: u64, cu: u64, overflowU: u64, low': u64)
    requires b == bu * H + bl
    requires cl + W * overflowL == a * bl + low
    requires cu + W * overflowU == a * bu + cl / H
    requires low' + W * (cu / H) == cl % H + cu * H
    ensures low' + W * (cu / H + overflowU * H + overflowL) == a * b + low
  {
    assert a * b == (a * bu) * H + a * bl;
    assert cl == (cl / H) * H + cl % H;
    assert (cu + W * overflowU) * H == (a * bu + cl / H) * H;
  }

  lemma CellCarry(a: u64, b: u64, low: u64, high: u64, carry: u64, low': u64, high': u64, carries: nat)
    requires carry <= 1
    requires low' + W * (high' + W * carries) == a * b + low + W * (high + carry)
    ensures carries <= 1
    ensures W * (W * carries) == W * W * carries
  {
    MulMono(a, W - 1, b);
    MulMono(b, W - 1, W - 1);
    assert a * b <= (W - 1) * (W - 1);
    assert W * (W * carries) == W * W * carries;
  }

  /** The whole product, in twice as many words. No carry is lost at the end of a row. */
  method FullMul(me: Words, you: Words) returns (r: Words)
    requires |me| == |you|
    ensures |r| == 2 * |me| && Val(r) == Val(me) * Val(you)
  {
    var n := |me|;
    var ret := new u64[2 * n](_ => 0);
    ValZero(ret[..]);
    for i := 0 to n
      invariant Val(ret[..]) == Val(me) * Val(you[..i])
    {
      ValSnoc(you, i);
      RowStep(Val(me), Val(you[..i]), you[i], WPow(i));
      if you[i] != 0 {
        ValBound(you[..i]);
        MulRow(me, you[i], ret, i, Val(you[..i]));
        assert me[..n] == me;
      }
    }
    assert you[..n] == you;
    r := ret[..];
  }

  lemma RowStep(a: nat, b: nat, x: nat, p: nat)
    ensures a * (b + x * p) == a * b + x * p * a
  {
  }

  /** What one word b at position i contributes to the table over the first j words of me. */
  ghost function RowSum(me: Words, b: u64, i: nat, j: nat): nat
    requires j <= |me|
  {
    b * WPow(i) * Val(me[..j])
  }

  lemma RowSumSnoc(me: Words, b: u64, i: nat, j: nat)
    requires j < |me|
    ensures RowSum(me, b, i, j + 1) == RowSum(me, b, i, j) + b * WPow(i) * (me[j] * WPow(j))
    ensures me[j] == 0 ==> RowSum(me, b, i, j + 1) == RowSum(me, b, i, j)
  {
    ValSnoc(me, j);
    RowSumStep(b * WPow(i), Val(me[..j]), me[j] * WPow(j));
  }

  /** A carry waiting to be added at position k. */
  ghost function CarryAt(carry: nat, k: nat): nat
  {
    carry * WPow(k)
  }

  /** Adds one row, me times one word at position i, to the table. */
  method MulRow(me: Words, b: u64, ret: array<u64>, i: nat, ghost above: nat)
    requires ret.Length == 2 * |me| && i < |me|
    requires Val(ret[..]) == Val(me) * above && above < WPow(i)
    modifies ret
    ensures Val(ret[..]) == old(Val(ret[..])) + RowSum(me, b, i, |me|)
  {
    var n := |me|;
    var carry: u64 := 0;
    for j := 0 to n
      invariant carry <= 1
      invariant Val(ret[..]) + CarryAt(carry, i + j + 1) == old(Val(ret[..])) + RowSum(me, b, i, j)
    {
      RowSumSnoc(me, b, i, j);
      if me[j] == 0 && carry == 0 {
        continue;
      }
      carry := MulInTable(me[j], b, ret, i, j, carry);
    }
    ValBound(me);
    assert me[..n] == me;
    NoCarryLost(Val(me), n, above, b, i, Val(ret[..]), carry);
  }

  /** Works one cell into the table. */
  method MulInTable(a: u64, b: u64, ret: array<u64>, i: nat, j: nat, carry: u64) returns (carry': u64)
    requires i + j + 1 < ret.Length && carry <= 1
    modifies ret
    ensures carry' <= 1
    ensures Val(ret[..]) + CarryAt(carry', i + j + 2)
            == old(Val(ret[..])) + CarryAt(carry, i + j + 1) + b * WPow(i) * (a * WPow(j))
  {
    ghost var before := ret[..];
    var low, high;
    low, high, carry' := MulCell(a, b, ret[i + j], ret[i + j + 1], carry);
    ret[i + j] := low;
    ret[i + j + 1] := high;
    assert ret[..] == before[i + j := low][i + j + 1 := high];
    CellInTable(before, i, j, low, high, a, b, carry, carry');
  }

  lemma RowSumStep(c: nat, a: nat, x: nat)
    ensures c * (a + x) == c * a + c * x
  {
  }

  /** What a cell does to the value of the table. */
  lemma CellInTable(table: Words, i: nat, j: nat, low: u64, high: u64, a: u64, b: u64, carry: nat, carry': nat)
    requires i + j + 1 < |table|
    requires low + W * high + W * W * carry' == a * b + table[i + j] + W * (table[i + j + 1] + carry)
    ensures Val(table[i + j := low][i + j + 1 := high]) + CarryAt(carry', i + j + 2)
            == Val(table) + CarryAt(carry, i + j + 1) + b * WPow(i) * (a * WPow(j))
  {
    var k, p := i + j, WPow(i + j);
    var mid := table[k := low];
    ValUpdate(table, k, low);
    ValUpdate(mid, k + 1, high);
    WPowAdd(i, j);
    assert mid[k + 1] == table[k + 1];
    CellArithmetic(p, low, high, carry', a * b, table[k], table[k + 1], carry);
    ProductOrder(a, b, WPow(i), WPow(j));
    assert WPow(k + 1) == W * p && WPow(k + 2) == W * (W * p);
  }

  lemma ProductOrder(a: nat, b: nat, p: nat, q: nat)
    ensures b * p * (a * q) == a * b * (p * q)
  {
    assert b * p * (a * q) == b * (p * (a * q)) == b * (a * (p * q)) == a * b * (p * q);
  }

  lemma CellArithmetic(p: nat, low: nat, high: nat, carry': nat, product: nat, low0: nat, high0: nat, carry: nat)
    requires low + W * high + W * W * carry' == product + low0 + W * (high0 + carry)
    ensures low * p + high * (W * p) + carry' * (W * (W * p)) ==
            product * p + low0 * p + high0 * (W * p) + carry * (W * p)
  {
    assert (low + W * high + W * W * carry') * p == low * p + high * (W * p) + carry' * (W * (W * p));
    assert (product + low0 + W * (high0 + carry)) * p ==
           product * p + low0 * p + high0 * (W * p) + carry * (W * p);
  }

  /** After the row the table stands for me times the words used so far, which leaves no carry. */
  lemma NoCarryLost(me: nat, n: nat, above: nat, b: u64, i: nat, table: nat, carry: nat)
    requires me < WPow(n) && above < WPow(i)
    requires table + carry * WPow(i + n + 1) == me * above + b * WPow(i) * me
    ensures carry == 0
  {
    var p, q := WPow(n), WPow(i + 1);
    var used := above + b * WPow(i);
    MulMono(b, W - 1, WPow(i));
    assert used < q;
    assert me * used == me * above + b * WPow(i) * me;
    MulMono(me, p, used);
    StrictMul(p, used, q);
    WPowAdd(n, i + 1);
    if carry > 0 {
      MulMono(1, carry, WPow(i + n + 1));
    }
  }

  lemma StrictMul(p: nat, a: nat, b: nat)
    requires p > 0 && a < b
    ensures p * a < p * b
  {
    MulMono(a + 1, b, p);
    assert p * (a + 1) == p * a + p;
  }

  /** The product cut to the word count; the flag says that the cut lost something. */
  method OverflowingMul(me: Words, you: Words) returns (r: Words, overflow: bool)
    requires |me| == |you|
    ensures |r| == |me|
    ensures Val(r) == (Val(me) * Val(you)) % WPow(|me|)
    ensures overflow <==> Val(me) * Val(you) >= WPow(|me|)
  {
    var n := |me|;
    var ret := FullMul(me, you);
    var res := new u64[n](_ => 0);
    for i := 0 to n
      invariant res[..i] == ret[..i]
    {
      res[i] := ret[i];
    }
    overflow := false;
    for i := n to 2 * n
      invariant overflow <==> exists k | n <= k < i :: ret[k] != 0
    {
      overflow := overflow || ret[i] != 0;
    }
    r := res[..];
    assert r == ret[..n];
    ValSplit(ret, n);
    ValZero(ret[n..]);
    assert forall k | n <= k < 2 * n :: ret[k] == ret[n..][k - n];
    ValBound(r);
    CutProduct(Val(r), Val(ret[n..]), WPow(n));
  }

  lemma CutProduct(low: nat, high: nat, p: nat)
    requires low < p
    ensures (low + p * high) % p == low && (low + p * high >= p <==> high > 0)
  {
    assert p * high == high * p;
    DivModUnique(low + p * high, p, high, low);
    if high > 0 {
      MulMono(1, high, p);
    }
  }
}
