/** Bitwise long division. */
module BigDiv {
  import opened BigWords
  import opened Powers
  import opened BigShift
  import opened BigMul

  /** x |= 1 << k. */
  function SetBit(x: nat, k: nat): nat
  {
    if k == 0 then (if x % 2 == 1 then x else x + 1) else 2 * SetBit(x / 2, k - 1) + x % 2
  }

  /** The k lowest bits of x are clear. */
  predicate LowClear(x: nat, k: nat)
  {
    k == 0 || (x % 2 == 0 && LowClear(x / 2, k - 1))
  }

  lemma {:induction false} LowClearLowers(x: nat, k: nat)
    requires LowClear(x, k + 1)
    ensures LowClear(x, k)
  {
    if k > 0 {
      LowClearLowers(x / 2, k - 1);
    }
  }

  lemma {:induction false} ZeroIsClear(k: nat)
    ensures LowClear(0, k)
  {
    if k > 0 {
      ZeroIsClear(k - 1);
    }
  }

  lemma Halve(y: nat, b: nat)
    requires b < 2
    ensures (2 * y + b) / 2 == y && (2 * y + b) % 2 == b
  {
  }

  /** Setting a bit above clear ones only adds it, and does not leave a word of m bits. */
  lemma {:induction false} SetBitAdds(x: nat, k: nat, m: nat)
    requires LowClear(x, k + 1) && x < Pow2(m) && k < m
    ensures SetBit(x, k) == x + Pow2(k) < Pow2(m) && LowClear(SetBit(x, k), k)
  {
    var y := x / 2;
    assert x == 2 * y && y < Pow2(m - 1);
    if k > 0 {
      SetBitAdds(y, k - 1, m - 1);
      Halve(SetBit(y, k - 1), 0);
    }
  }

  /** Every bit of the words below position s is clear. */
  ghost predicate ClearBelow(w: Words, s: nat)
  {
    forall i | 0 <= i < |w| :: ClearIn(w[i], s - 64 * i)
  }

  ghost predicate ClearIn(x: u64, s: int)
  {
    if s >= 64 then x == 0 else s > 0 ==> LowClear(x, s)
  }

  lemma ClearInLowers(x: u64, s: int)
    requires ClearIn(x, s + 1)
    ensures ClearIn(x, s) && (0 <= s < 64 ==> LowClear(x, s + 1))
  {
    if 0 <= s < 64 {
      ZeroIsClear(s + 1);
      LowClearLowers(x, s);
    }
  }

  lemma SetBitInWords(w: Words, s: nat)
    requires s / 64 < |w| && ClearBelow(w, s + 1)
    ensures var x := SetBit(w[s / 64], s % 64);
            && x < W && ClearBelow(w[s / 64 := x], s)
            && Val(w[s / 64 := x]) == Val(w) + Pow2(s)
  {
    var i, k := s / 64, s % 64;
    forall j | 0 <= j < |w|
      ensures ClearIn(w[j], s - 64 * j) && (j == i ==> LowClear(w[i], k + 1))
    {
      assert ClearIn(w[j], (s - 64 * j) + 1);
      ClearInLowers(w[j], s - 64 * j);
    }
    Pow2Word();
    SetBitAdds(w[i], k, 64);
    BitValue(w, i, k);
  }

  lemma Distribute(x: nat, y: nat, w: nat)
    ensures (x + y) * w == x * w + w * y
  {
  }

  lemma BitValue(w: Words, i: nat, k: nat)
    requires i < |w| && w[i] + Pow2(k) < W
    ensures Val(w[i := w[i] + Pow2(k)]) == Val(w) + Pow2(64 * i + k)
  {
    ValUpdate(w, i, w[i] + Pow2(k));
    WPowIsPow2(i);
    Pow2Add(64 * i, k);
    Distribute(w[i], Pow2(k), WPow(i));
  }

  lemma ClearLowers(w: Words, s: nat)
    requires ClearBelow(w, s + 1)
    ensures ClearBelow(w, s)
  {
    forall i | 0 <= i < |w|
      ensures ClearIn(w[i], s - 64 * i)
    {
      assert ClearIn(w[i], (s - 64 * i) + 1);
      ClearInLowers(w[i], s - 64 * i);
    }
  }

  lemma ZerosAreClear(n: nat, s: nat)
    ensures ClearBelow(Zeros(n), s)
  {
    forall i | 0 <= i < n
      ensures ClearIn(Zeros(n)[i], s - 64 * i)
    {
      if s - 64 * i > 0 {
        ZeroIsClear(s - 64 * i);
      }
    }
  }

  // ---------------------------------------------------------------- the loop

  /** After the bits from shift upwards have been tried: what is found, and what remains. */
  ghost predicate Divides(a: nat, b: nat, found: nat, rest: nat, shift: nat)
  {
    a == found * b + rest && rest < b * Pow2(shift)
  }

  lemma DivideStep(a: nat, b: nat, found: nat, rest: nat, shift: nat)
    requires Divides(a, b, found, rest, shift + 1)
    ensures var c := b * Pow2(shift);
            if rest >= c then Divides(a, b, found + Pow2(shift), rest - c, shift) else Divides(a, b, found, rest, shift)
  {
    var c := b * Pow2(shift);
    assert b * Pow2(shift + 1) == c + c;
    assert (found + Pow2(shift)) * b == found * b + c;
  }

  lemma HalveCopy(b: nat, shift: nat)
    requires shift > 0
    ensures (b * Pow2(shift)) / Pow2(1) == b * Pow2(shift - 1)
  {
    assert b * Pow2(shift) == b * Pow2(shift - 1) * 2;
  }

  /** Moving the divisor up to the dividend loses no bits, and one bit more would be too much. */
  lemma InitialShift(a: nat, b: nat, aBits: nat, bBits: nat, n: nat)
    requires HasBits(a, aBits) && HasBits(b, bBits) && b > 0 && bBits <= aBits <= 64 * n
    ensures (b * Pow2(aBits - bBits)) % WPow(n) == b * Pow2(aBits - bBits)
    ensures Divides(a, b, 0, a, aBits - bBits + 1)
  {
    var s := aBits - bBits;
    WPowIsPow2(n);
    Pow2Mono(aBits, 64 * n);
    Pow2Add(s, bBits);
    StrictMul(Pow2(s), b, Pow2(bBits));
    assert b * Pow2(s) == Pow2(s) * b;
    DivModUnique(b * Pow2(s), WPow(n), 0, b * Pow2(s));
    assert bBits > 0;
    Pow2Add(bBits - 1, s + 1);
    MulMono(Pow2(bBits - 1), b, Pow2(s + 1));
  }

  /** Division; a divisor of zero panics. */
  method Div(me: Words, other: Words) returns (r: Words)
    requires |me| == |other| >= 1 && Val(other) != 0
    ensures |r| == |me| && Val(r) == Val(me) / Val(other)
  {
    var n := |me|;
    ghost var a, b := Val(me), Val(other);
    var ret := new u64[n](_ => 0);
    ZerosVal(n);
    assert ret[..] == Zeros(n);
    var myBits := Bits(me);
    var yourBits := Bits(other);
    if myBits < yourBits {
      Pow2Mono(myBits, yourBits - 1);
      DivModUnique(a, b, 0, a);
      return ret[..];
    }
    var shift: nat := myBits - yourBits;
    InitialShift(a, b, myBits, yourBits, n);
    var subCopy, shiftCopy := me, other;
    shiftCopy := Shl(shiftCopy, shift);
    ZerosAreClear(n, shift + 1);
    while true
      invariant |subCopy| == |shiftCopy| == n && shift < 64 * n
      invariant Val(shiftCopy) == b * Pow2(shift)
      invariant ClearBelow(ret[..], shift + 1)
      invariant Divides(a, b, Val(ret[..]), Val(subCopy), shift + 1)
      decreases shift
    {
      subCopy := TryBit(subCopy, shiftCopy, ret, shift, a, b);
      shiftCopy := Shr(shiftCopy, 1);
      if shift == 0 {
        break;
      }
      HalveCopy(b, shift);
      shift := shift - 1;
    }
    r := ret[..];
    assert b * Pow2(0) == b;
    DivModUnique(a, b, Val(r), Val(subCopy));
  }

  /** Subtracts the shifted divisor if it fits, and notes that in the quotient. */
  method TryBit(subCopy: Words, shiftCopy: Words, ret: array<u64>, shift: nat, ghost a: nat, ghost b: nat)
    returns (rest: Words)
    requires |subCopy| == |shiftCopy| && shift < 64 * ret.Length
    requires Val(shiftCopy) == b * Pow2(shift) && ClearBelow(ret[..], shift + 1)
    requires Divides(a, b, Val(ret[..]), Val(subCopy), shift + 1)
    modifies ret
    ensures |rest| == |subCopy| && ClearBelow(ret[..], shift)
    ensures Divides(a, b, Val(ret[..]), Val(rest), shift)
  {
    DivideStep(a, b, Val(ret[..]), Val(subCopy), shift);
    rest := subCopy;
    var order := Cmp(subCopy, shiftCopy);
    if !order.Less? {
      ghost var before := ret[..];
      SetBitInWords(before, shift);
      ret[shift / 64] := SetBit(ret[shift / 64], shift % 64);
      assert ret[..] == before[shift / 64 := SetBit(before[shift / 64], shift % 64)];
      var negative;
      rest, negative := OverflowingSub(subCopy, shiftCopy);
    } else {
      ClearLowers(ret[..], shift);
    }
  }

  /** The remainder, by multiplying back. Neither the product nor the difference overflows. */
  method Rem(me: Words, other: Words) returns (r: Words)
    requires |me| == |other| >= 1 && Val(other) != 0
    ensures |r| == |me| && Val(r) == Val(me) % Val(other)
  {
    var times := Div(me, other);
    ValBound(me);
    MultipliedBack(Val(me), Val(other), Val(times), WPow(|me|));
    var product, overflow := OverflowingMul(times, other);
    var borrow;
    r, borrow := OverflowingSub(me, product);
    assert !overflow && !borrow;
  }

  lemma MultipliedBack(a: nat, b: nat, q: nat, m: nat)
    requires b > 0 && q == a / b && a < m
    ensures q * b <= a && (q * b) % m == q * b && a - q * b == a % b
  {
    assert a == q * b + a % b;
    DivModUnique(q * b, m, 0, q * b);
  }
}
