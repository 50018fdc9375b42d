/** Decimal input and output of the fixed-width integers. */
module BigDec {
  import opened Bytes
  import opened BigWords
  import opened BigDiv

  datatype FromDecStrErr = InvalidCharacter | InvalidLength

  predicate IsDigit(c: char) { '0' <= c <= '9' }

  predicate AllDigits(s: string)
  {
    forall i | 0 <= i < |s| :: IsDigit(s[i])
  }

  function DigitOf(c: char): (d: nat)
    requires IsDigit(c)
    ensures d < 10
  {
    c as int - '0' as int
  }

  function CharOf(d: nat): (c: char)
    requires d < 10
    ensures IsDigit(c) && DigitOf(c) == d
  {
    ('0' as int + d) as char
  }

  /** The number a digit string stands for; the empty string stands for zero. */
  function Value(s: string): nat
    requires AllDigits(s)
  {
    if s == [] then 0 else 10 * Value(s[..|s| - 1]) + DigitOf(s[|s| - 1])
  }

  /** The decimal numeral of a number. */
  function Numeral(x: nat): (s: string)
    ensures s != [] && AllDigits(s)
  {
    if x < 10 then [CharOf(x)] else Numeral(x / 10) + [CharOf(x % 10)]
  }

  /** The numerals as they are written. */
  lemma KnownNumerals()
    ensures Numeral(0) == "0" && Numeral(7) == "7" && Numeral(10) == "10" && Numeral(907) == "907"
  {
    assert CharOf(0) == '0' && CharOf(1) == '1' && CharOf(7) == '7' && CharOf(9) == '9';
    assert Numeral(9) == "9" && Numeral(90) == "90";
  }

  /** Reading a numeral gives the number back. */
  lemma {:induction false} NumeralValue(x: nat)
    ensures Value(Numeral(x)) == x
  {
    if x >= 10 {
      NumeralValue(x / 10);
      assert Numeral(x)[..|Numeral(x)| - 1] == Numeral(x / 10);
    } else {
      assert Numeral(x)[..0] == [];
    }
  }

  /** And a digit string without superfluous leading zeros is the numeral of what it stands for. */
  lemma {:induction false} ValueNumeral(s: string)
    requires s != [] && AllDigits(s) && (|s| == 1 || s[0] != '0')
    ensures Numeral(Value(s)) == s
    ensures s[0] != '0' ==> Value(s) > 0
  {
    var front, d := s[..|s| - 1], s[|s| - 1];
    assert s == front + [d];
    assert CharOf(DigitOf(d)) == d;
    if |s| == 1 {
      assert front == [];
    } else {
      ValueNumeral(front);
    }
  }

  /** Longer digit strings do not stand for less. */
  lemma {:induction false} PrefixIsLess(s: string, k: nat)
    requires AllDigits(s) && k <= |s|
    ensures Value(s[..k]) <= Value(s)
  {
    if k < |s| {
      PrefixIsLess(s[..|s| - 1], k);
      assert s[..|s| - 1][..k] == s[..k];
    } else {
      assert s[..k] == s;
    }
  }

  lemma NextDigit(s: string, k: nat)
    requires AllDigits(s) && k < |s|
    ensures Value(s[..k + 1]) == 10 * Value(s[..k]) + DigitOf(s[k]) <= Value(s)
  {
    assert s[..k + 1][..k] == s[..k];
    PrefixIsLess(s, k + 1);
  }

  /** Reading a decimal string. */
  method FromDecStr(value: string, n: nat) returns (r: Result<Words, FromDecStrErr>)
    requires n >= 1
    ensures r == Err(InvalidCharacter) <==> !AllDigits(value)
    ensures AllDigits(value) ==> (r == Err(InvalidLength) <==> Value(value) >= WPow(n))
    ensures r.Ok? ==> AllDigits(value) && |r.value| == n && Val(r.value) == Value(value)
  {
    for i := 0 to |value|
      invariant forall j | 0 <= j < i :: IsDigit(value[j])
    {
      if !IsDigit(value[i]) {
        return Err(InvalidCharacter);
      }
    }
    var res := Zeros(n);
    ZerosVal(n);
    for i := 0 to |value|
      invariant |res| == n && Val(res) == Value(value[..i])
    {
      NextDigit(value, i);
      var r1, overflow := OverflowingMulU32(res, 10);
      if overflow {
        return Err(InvalidLength);
      }
      var digit: u64 := DigitOf(value[i]);
      FromU64Val(digit, n);
      r1, overflow := OverflowingAdd(r1, FromU64(digit, n));
      if overflow {
        return Err(InvalidLength);
      }
      res := r1;
    }
    assert value[..|value|] == value;
    ValBound(res);
    return Ok(res);
  }

  lemma SmallIsFirstWord(w: Words)
    requires w != [] && Val(w) < 10
    ensures w[0] == Val(w)
  {
  }

  /** What is printed so far, after what is still to print. */
  function Remaining(x: nat): string
  {
    if x == 0 then [] else Numeral(x)
  }

  /** Printing: the digits come out last first, each put in front. */
  method Display(me: Words) returns (s: string)
    requires |me| >= 1
    ensures s == Numeral(Val(me))
  {
    var zero := IsZero(me);
    if zero {
      return "0";
    }
    s := "";
    var current := me;
    var ten := FromU64(10, |me|);
    FromU64Val(10, |me|);
    zero := IsZero(current);
    while !zero
      invariant |current| == |me| && (zero <==> Val(current) == 0)
      invariant Remaining(Val(current)) + s == Numeral(Val(me))
      decreases Val(current)
    {
      var digit := Rem(current, ten);
      SmallIsFirstWord(digit);
      assert Remaining(Val(current)) == Remaining(Val(current) / 10) + [CharOf(digit[0])];
      s := [CharOf(digit[0])] + s;
      current := Div(current, ten);
      zero := IsZero(current);
    }
  }

  /** Every integer survives being printed and read again. */
  method PrintAndRead(me: Words) returns (r: Result<Words, FromDecStrErr>)
    requires |me| >= 1
    ensures r == Ok(me)
  {
    var s := Display(me);
    NumeralValue(Val(me));
    ValBound(me);
    r := FromDecStr(s, |me|);
    assert r.Err? ==> r.error == InvalidCharacter || r.error == InvalidLength;
    ValInjective(r.value, me);
  }
}
