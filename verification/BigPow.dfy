/** Exponentiation by squaring, with wrap-around and an overflow flag. */
module BigPow {
  import opened BigWords
  import opened Powers
  import opened BigShift
  import opened BigMul
  import opened BigDiv

  function Power(b: nat, e: nat): nat
  {
    if e == 0 then 1 else b * Power(b, e - 1)
  }

  lemma {:induction false} PowerOfSquare(b: nat, k: nat)
    ensures Power(b, 2 * k) == Power(b * b, k)
  {
    if k > 0 {
      PowerOfSquare(b, k - 1);
      assert Power(b, 2 * k) == b * Power(b, 2 * k - 1);
      assert Power(b, 2 * k - 1) == b * Power(b, 2 * (k - 1));
      assert b * (b * Power(b, 2 * (k - 1))) == (b * b) * Power(b, 2 * (k - 1));
    }
  }

  lemma {:induction false} PowerPositive(b: nat, e: nat)
    requires b > 0
    ensures Power(b, e) > 0 && (e > 0 ==> Power(b, e) >= b)
  {
    if e > 0 {
      PowerPositive(b, e - 1);
      MulMono(1, Power(b, e - 1), b);
    }
  }

  // ---------------------------------------------------------------- congruence

  /** One factor may be cut before multiplying. */
  lemma CutFactor(a: nat, b: nat, m: nat)
    requires m > 0
    ensures ((a % m) * b) % m == (a * b) % m
  {
    var q, r := a / m, a % m;
    var q', r' := (r * b) / m, (r * b) % m;
    Regroup(q, m, r, b, q', r');
    DivModUnique(a * b, m, q * b + q', r');
  }

  lemma Regroup(q: nat, m: nat, r: nat, b: nat, q': nat, r': nat)
    requires r * b == q' * m + r'
    ensures (q * m + r) * b == (q * b + q') * m + r'
  {
    assert (q * m) * b == (q * b) * m;
  }

  lemma Associate(x: nat, p: nat, y: nat)
    ensures (x * p) * y == p * (x * y)
  {
  }

  lemma SameProduct(a: nat, a': nat, b: nat, b': nat, m: nat)
    requires m > 0 && a % m == a' % m && b % m == b' % m
    ensures (a * b) % m == (a' * b') % m
  {
    CutFactor(a, b, m);
    CutFactor(a', b, m);
    CutFactor(b, a', m);
    CutFactor(b', a', m);
    assert a' * b == b * a' && a' * b' == b' * a';
  }

  lemma {:induction false} SamePower(a: nat, a': nat, e: nat, m: nat)
    requires m > 0 && a % m == a' % m
    ensures Power(a, e) % m == Power(a', e) % m
  {
    if e > 0 {
      SamePower(a, a', e - 1, m);
      SameProduct(a, a', Power(a, e - 1), Power(a', e - 1), m);
    }
  }

  lemma CutTwice(a: nat, m: nat)
    requires m > 0
    ensures (a % m) % m == a % m
  {
    DivModUnique(a % m, m, 0, a % m);
  }

  // ---------------------------------------------------------------- the loop

  /** What squaring keeps: the result is x to the n times y modulo m; exactly so until something
      overflows, and then the result itself does not fit. */
  ghost predicate Keeps(b: nat, goal: nat, x: nat, n: nat, y: nat, overflow: bool, m: nat)
    requires m > 0
  {
    && (Power(x, n) * y) % m == goal % m
    && (!overflow ==> Power(x, n) * y == goal && (b == 0 ==> x == 0))
    && (overflow ==> goal >= m)
  }

  /** A product of x with itself or with y that does not fit divides a result that does not fit. */
  lemma StepTooBig(b: nat, e: nat, x: nat, n: nat, y: nat, m: nat)
    requires m > 0 && Keeps(b, Power(b, e), x, n, y, false, m)
    ensures n >= 1 && x * y >= m ==> Power(b, e) >= m
    ensures n >= 2 && x * x >= m ==> Power(b, e) >= m
  {
    if x > 0 && n >= 1 {
      PowerPositive(b, e);
      PowerPositive(x, n);
      assert y > 0;
      MulMono(x, Power(x, n), y);
      if n >= 2 {
        PowerPositive(x, n - 1);
        MulMono(x, Power(x, n - 1), x);
        MulMono(x * x, Power(x, n), y);
        MulMono(1, y, x * x);
      }
    }
  }

  lemma SquareStep(b: nat, e: nat, x: nat, half: nat, y: nat, overflow: bool, m: nat, x': nat, o: bool)
    requires m > 0 && half >= 1 && Keeps(b, Power(b, e), x, 2 * half, y, overflow, m)
    requires x' == (x * x) % m && (o <==> x * x >= m)
    ensures Keeps(b, Power(b, e), x', half, y, overflow || o, m)
  {
    PowerOfSquare(x, half);
    CutTwice(x * x, m);
    SamePower(x', x * x, half, m);
    SameProduct(Power(x', half), Power(x * x, half), y, y, m);
    if !overflow {
      StepTooBig(b, e, x, 2 * half, y, m);
      if !o {
        DivModUnique(x * x, m, 0, x * x);
      }
    }
  }

  lemma MultiplyStep(b: nat, e: nat, x: nat, n: nat, y: nat, overflow: bool, m: nat, y': nat, o: bool)
    requires m > 0 && Keeps(b, Power(b, e), x, n, y, overflow, m)
    requires n >= 1
    requires y' == (x * y) % m && (o <==> x * y >= m)
    ensures Keeps(b, Power(b, e), x, n - 1, y', overflow || o, m)
  {
    var p := Power(x, n - 1);
    Associate(x, p, y);
    CutTwice(x * y, m);
    SameProduct(p, p, y', x * y, m);
    if !overflow {
      StepTooBig(b, e, x, n, y, m);
      if !o {
        DivModUnique(x * y, m, 0, x * y);
      }
    }
  }

  lemma Finish(goal: nat, b: nat, x: nat, r: nat, overflow: bool, m: nat)
    requires m > 0 && r < m && Keeps(b, goal, x, 0, r, overflow, m)
    ensures r == goal % m && (overflow <==> goal >= m)
  {
    DivModUnique(r, m, 0, r);
  }

  /** One round of the loop: halve the exponent and square, multiplying first if it is odd. */
  method PowStep(x: Words, n: Words, y: Words, one: Words, overflow: bool, ghost b: nat, ghost e: nat)
    returns (x': Words, n': Words, y': Words, overflow': bool)
    requires |x| == |n| == |y| == |one| >= 1 && Val(one) == 1 && Val(n) > 1
    requires Keeps(b, Power(b, e), Val(x), Val(n), Val(y), overflow, WPow(|x|))
    ensures |x'| == |n'| == |y'| == |x| && 1 <= Val(n') < Val(n)
    ensures Keeps(b, Power(b, e), Val(x'), Val(n'), Val(y'), overflow', WPow(|x|))
  {
    ghost var half := LowBit(n);
    var o: bool;
    if n[0] % 2 == 0 {
      y' := y;
      x', o := OverflowingMul(x, x);
      SquareStep(b, e, Val(x), half, Val(y), overflow, WPow(|x|), Val(x'), o);
      overflow' := overflow || o;
      n' := Shr(n, 1);
    } else {
      y', o := OverflowingMul(x, y);
      MultiplyStep(b, e, Val(x), Val(n), Val(y), overflow, WPow(|x|), Val(y'), o);
      overflow' := overflow || o;
      x', o := OverflowingMul(x, x);
      SquareStep(b, e, Val(x), half, Val(y'), overflow', WPow(|x|), Val(x'), o);
      overflow' := overflow' || o;
      var less, borrow := OverflowingSub(n, one);
      n' := Shr(less, 1);
    }
  }

  lemma LowBit(n: Words) returns (half: nat)
    requires n != []
    ensures Val(n) == 2 * half + n[0] % 2 && (2 * half) / Pow2(1) == half
  {
    half := n[0] / 2 + 0x8000_0000_0000_0000 * Val(n[1..]);
    assert Pow2(1) == 2 * Pow2(0);
  }

  /** The power modulo the word range, and whether the true power leaves it. */
  method OverflowingPow(me: Words, expon: Words) returns (r: Words, overflow: bool)
    requires |me| == |expon| >= 1
    ensures |r| == |me|
    ensures Val(r) == Power(Val(me), Val(expon)) % WPow(|me|)
    ensures overflow <==> Power(Val(me), Val(expon)) >= WPow(|me|)
  {
    var one := FromU64(1, |me|);
    FromU64Val(1, |me|);
    ghost var b, e, m := Val(me), Val(expon), WPow(|me|);
    ValBound(one);
    var zero := IsZero(expon);
    if zero {
      DivModUnique(1, m, 0, 1);
      return one, false;
    }
    var y, n, x := one, expon, me;
    overflow := false;
    var order := Cmp(n, one);
    while order.Greater?
      invariant |x| == |y| == |n| == |me|
      invariant order.Greater? <==> Val(n) > 1
      invariant Val(n) >= 1
      invariant Keeps(b, Power(b, e), Val(x), Val(n), Val(y), overflow, m)
      decreases Val(n)
    {
      x, n, y, overflow := PowStep(x, n, y, one, overflow, b, e);
      order := Cmp(n, one);
    }
    var o;
    r, o := OverflowingMul(x, y);
    MultiplyStep(b, e, Val(x), 1, Val(y), overflow, m, Val(r), o);
    ValBound(r);
    Finish(Power(b, e), b, Val(x), Val(r), overflow || o, m);
    overflow := overflow || o;
  }
}
