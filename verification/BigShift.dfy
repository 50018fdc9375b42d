/** Shifts by any number of bits, and the number of bits of a value. */
module BigShift {
  import opened BigWords
  import opened Powers

  lemma Pow2Word()
    ensures Pow2(64) == W
  {
    assert Pow2(8) == 256;
    Pow2Add(8, 8);
    assert Pow2(16) == 0x1_0000;
    Pow2Add(16, 16);
    assert Pow2(32) == 0x1_0000_0000;
    Pow2Add(32, 32);
  }

  lemma {:induction false} WPowIsPow2(n: nat)
    ensures WPow(n) == Pow2(64 * n)
  {
    if n != 0 {
      WPowIsPow2(n - 1);
      Pow2Word();
      Pow2Add(64, 64 * (n - 1));
    }
  }

  /** A shift amount below 64 and what remains to 64 split a word. */
  lemma BitShift(s: nat)
    requires s < 64
    ensures Pow2(s) * Pow2(64 - s) == W
  {
    Pow2Add(s, 64 - s);
    Pow2Word();
  }

  // ---------------------------------------------------------------- one word

  /** x << s, bits beyond the word being lost; p is 2^s. */
  function ShlWord(x: u64, p: nat): u64 { (x * p) % W }

  /** x >> s; p is 2^s. */
  function ShrWord(x: u64, p: nat): (r: u64)
    requires p > 0
  {
    ShrWordBound(x, p);
    x / p
  }

  lemma ShrWordBound(x: u64, p: nat)
    requires p > 0
    ensures 0 <= x / p <= x
  {
    assert x == p * (x / p) + x % p;
    MulMono(1, p, x / p);
  }

  /** What is lost at the top of one word is what the complementary right shift brings in. */
  lemma ShlSplits(x: u64, p: nat, q: nat)
    requires p > 0 && q > 0 && p * q == W
    ensures x * p == W * (x / q) + (x * p) % W
    ensures (x * p) % W == (x % q) * p <= W - p
    ensures x / q < p
  {
    var a, r := x / q, x % q;
    assert x == q * a + r;
    assert (q * a + r) * p == (p * q) * a + r * p;
    MulMono(r, q - 1, p);
    assert (q - 1) * p == W - p;
    DivModUnique(x * p, W, a, r * p);
    if a >= p {
      MulMono(p, a, q);
    }
  }

  // ---------------------------------------------------------------- left shift

  /** Word k of the shifted number: the word itself and what the one below loses. */
  function ShlAt(x: Words, p: nat, q: nat, k: nat): (r: u64)
    requires k < |x| && p > 0 && q > 0 && p * q == W
  {
    ShlSplits(x[k], p, q);
    if k == 0 then ShlWord(x[0], p)
    else
      ShlSplits(x[k - 1], p, q);
      ShlWord(x[k], p) + x[k - 1] / q
  }

  function ShlBits(x: Words, p: nat, q: nat, m: nat): (r: Words)
    requires m <= |x| && p > 0 && q > 0 && p * q == W
    ensures |r| == m
  {
    seq(m, k requires 0 <= k < m => ShlAt(x, p, q, k))
  }

  /** When every word splits into a kept and a lost part, moving the lost parts one word up
      multiplies the value by p, but for what the last word loses. */
  lemma {:induction false} MovedUp(x: Words, p: nat, kept: seq<nat>, lost: seq<nat>, r: Words, m: nat)
    requires m <= |x| == |kept| == |lost| && m <= |r|
    requires forall k | 0 <= k < m :: x[k] * p == W * lost[k] + kept[k]
    requires forall k | 0 <= k < m :: r[k] == kept[k] + if k == 0 then 0 else lost[k - 1]
    ensures Val(r[..m]) + WPow(m) * (if m == 0 then 0 else lost[m - 1]) == Val(x[..m]) * p
  {
    if m != 0 {
      var k := m - 1;
      MovedUp(x, p, kept, lost, r, k);
      ValSnoc(r, k);
      ValSnoc(x, k);
      assert x[..k + 1] == x[..m] && r[..k + 1] == r[..m];
      ShlStep(WPow(k), Val(x[..k]), x[k], p, kept[k], lost[k], if k == 0 then 0 else lost[k - 1], Val(r[..k]));
    }
  }

  lemma ShlBitsValue(x: Words, p: nat, q: nat, m: nat)
    requires m <= |x| && p > 0 && q > 0 && p * q == W
    ensures Val(ShlBits(x, p, q, m)) + WPow(m) * (if m == 0 then 0 else x[m - 1] / q) == Val(x[..m]) * p
  {
    var kept := seq(|x|, k requires 0 <= k < |x| => ShlWord(x[k], p) as nat);
    var lost := seq(|x|, k requires 0 <= k < |x| => ShrWord(x[k], q) as nat);
    WordsSplit(x, p, q, kept, lost);
    var r := ShlBits(x, p, q, m);
    assert forall k | 0 <= k < m :: r[k] == kept[k] + if k == 0 then 0 else lost[k - 1];
    MovedUp(x, p, kept, lost, r, m);
    assert r[..m] == r;
  }

  lemma WordsSplit(x: Words, p: nat, q: nat, kept: seq<nat>, lost: seq<nat>)
    requires p > 0 && q > 0 && p * q == W && |kept| == |lost| == |x|
    requires forall k | 0 <= k < |x| :: kept[k] == ShlWord(x[k], p) && lost[k] == ShrWord(x[k], q)
    ensures forall k | 0 <= k < |x| :: x[k] * p == W * lost[k] + kept[k]
  {
    forall k | 0 <= k < |x|
      ensures x[k] * p == W * lost[k] + kept[k]
    {
      ShlSplits(x[k], p, q);
    }
  }

  lemma ShlStep(w: nat, done: nat, x: nat, p: nat, kept: nat, lost: nat, c: nat, r: nat)
    requires x * p == W * lost + kept && r + w * c == done * p
    ensures r + (kept + c) * w + (W * w) * lost == (done + x * w) * p
  {
    assert (done + x * w) * p == done * p + (x * p) * w;
    assert (W * lost + kept) * w == (W * w) * lost + kept * w;
    assert (kept + c) * w == kept * w + w * c;
  }

  /** Shifts first by whole words, then adds the bits that cross word boundaries. */
  method Shl(original: Words, shift: nat) returns (r: Words)
    ensures |r| == |original|
    ensures Val(r) == (Val(original) * Pow2(shift)) % WPow(|original|)
  {
    var n := |original|;
    var wordShift, bitShift := shift / 64, shift % 64;
    BitShift(bitShift);
    ShlValue(original, wordShift, bitShift);
    var ret := new u64[n](_ => 0);
    if wordShift < n {
      ShlIntoWords(original, ret, wordShift, bitShift);
    }
    r := ret[..];
    assert r == ShlWords(original, wordShift, Pow2(bitShift), Pow2(64 - bitShift));
  }

  method ShlIntoWords(original: Words, ret: array<u64>, wordShift: nat, bitShift: nat)
    requires ret.Length == |original| && wordShift < ret.Length
    requires bitShift < 64 && Pow2(bitShift) * Pow2(64 - bitShift) == W
    requires forall k | 0 <= k < ret.Length :: ret[k] == 0
    modifies ret
    ensures ret[..] == ShlWords(original, wordShift, Pow2(bitShift), Pow2(64 - bitShift))
  {
    var n := ret.Length;
    var p, q := Pow2(bitShift), Pow2(64 - bitShift);
    for i := wordShift to n
      invariant forall k | 0 <= k < n && (k < wordShift || k >= i) :: ret[k] == 0
      invariant forall k | wordShift <= k < i :: ret[k] == ShlWord(original[k - wordShift], p)
    {
      ret[i] := ShlWord(original[i - wordShift], p);
    }
    if bitShift > 0 {
      for i := wordShift + 1 to n
        invariant forall k | 0 <= k < wordShift :: ret[k] == 0
        invariant forall k | wordShift <= k < i :: ret[k] == ShlAt(original, p, q, k - wordShift)
        invariant forall k | i <= k < n :: ret[k] == ShlWord(original[k - wordShift], p)
      {
        ShlSplits(original[i - wordShift], p, q);
        ShlSplits(original[i - 1 - wordShift], p, q);
        ret[i] := ret[i] + ShrWord(original[i - 1 - wordShift], q);
      }
    }
    ShlWordsAreBits(original, wordShift, bitShift, ret[..]);
  }

  lemma ShlWordsAreBits(x: Words, ws: nat, bitShift: nat, r: Words)
    requires ws < |r| == |x|
    requires bitShift < 64 && Pow2(bitShift) * Pow2(64 - bitShift) == W
    requires forall k | 0 <= k < ws :: r[k] == 0
    requires var p, q := Pow2(bitShift), Pow2(64 - bitShift);
             forall k | ws <= k < |x| :: r[k] == if bitShift > 0 then ShlAt(x, p, q, k - ws) else ShlWord(x[k - ws], p)
    ensures r == ShlWords(x, ws, Pow2(bitShift), Pow2(64 - bitShift))
  {
    if bitShift == 0 {
      Pow2Word();
    }
  }

  /** The shifted words: whole words below, then the words with their bits moved up. */
  function ShlWords(x: Words, ws: nat, p: nat, q: nat): (r: Words)
    requires p > 0 && q > 0 && p * q == W
    ensures |r| == |x|
  {
    if ws < |x| then Zeros(ws) + ShlBits(x, p, q, |x| - ws) else Zeros(|x|)
  }

  lemma ShlWordsValue(x: Words, ws: nat, p: nat, q: nat) returns (quotient: nat)
    requires p > 0 && q > 0 && p * q == W
    ensures Val(x) * (WPow(ws) * p) == quotient * WPow(|x|) + Val(ShlWords(x, ws, p, q))
  {
    if ws < |x| {
      var m := |x| - ws;
      ShlBitsValue(x, p, q, m);
      quotient := ShlWithin(x, ws, p, ShlBits(x, p, q, m), x[m - 1] / q);
    } else {
      quotient := ShlBeyond(x, ws, p);
    }
  }

  lemma ShlValue(x: Words, ws: nat, bs: nat)
    requires bs < 64 && Pow2(bs) * Pow2(64 - bs) == W
    ensures Val(ShlWords(x, ws, Pow2(bs), Pow2(64 - bs))) == (Val(x) * Pow2(64 * ws + bs)) % WPow(|x|)
  {
    ShiftFactor(ws, bs);
    var r := ShlWords(x, ws, Pow2(bs), Pow2(64 - bs));
    ValBound(r);
    var quotient := ShlWordsValue(x, ws, Pow2(bs), Pow2(64 - bs));
    RemainderOf(Val(x) * Pow2(64 * ws + bs), WPow(|x|), quotient, Val(r));
  }

  lemma ShiftFactor(ws: nat, bs: nat)
    ensures WPow(ws) * Pow2(bs) == Pow2(64 * ws + bs)
  {
    Pow2Add(64 * ws, bs);
    WPowIsPow2(ws);
  }

  lemma RemainderOf(v: nat, m: nat, quotient: nat, r: nat)
    requires r < m && v == quotient * m + r
    ensures r == v % m
  {
    DivModUnique(v, m, quotient, r);
  }

  lemma ZerosInFront(ws: nat, body: Words)
    ensures Val(Zeros(ws) + body) == WPow(ws) * Val(body)
  {
    var r := Zeros(ws) + body;
    ValSplit(r, ws);
    assert r[..ws] == Zeros(ws) && r[ws..] == body;
    ZerosVal(ws);
  }

  /** What is shifted out is a multiple of the modulus. */
  lemma ShlWithin(x: Words, ws: nat, p: nat, body: Words, lost: nat) returns (quotient: nat)
    requires ws < |x| && |body| == |x| - ws
    requires Val(body) + WPow(|body|) * lost == Val(x[..|body|]) * p
    ensures Val(x) * (WPow(ws) * p) == quotient * WPow(|x|) + Val(Zeros(ws) + body)
  {
    var m := |body|;
    ZerosInFront(ws, body);
    ValSplit(x, m);
    WPowAdd(ws, m);
    assert |x| == ws + m;
    quotient := lost + Val(x[m..]) * p;
    ShlTotal(WPow(ws), WPow(m), p, Val(x[..m]), Val(x[m..]), Val(body), lost);
  }

  lemma ShlBeyond(x: Words, ws: nat, p: nat) returns (quotient: nat)
    requires ws >= |x|
    ensures Val(x) * (WPow(ws) * p) == quotient * WPow(|x|) + Val(Zeros(|x|))
  {
    var n := |x|;
    ZerosVal(n);
    WPowAdd(n, ws - n);
    quotient := WPow(ws - n) * p * Val(x);
    Rearrange(Val(x), WPow(n), WPow(ws - n), p);
  }

  lemma Rearrange(v: nat, a: nat, b: nat, p: nat)
    ensures v * ((a * b) * p) == (b * p * v) * a
  {
    assert (a * b) * p == a * (b * p);
    assert v * (a * (b * p)) == (v * (b * p)) * a;
  }

  lemma ShlTotal(a: nat, m: nat, p: nat, lo: nat, hi: nat, body: nat, lost: nat)
    requires body + m * lost == lo * p
    ensures (lo + m * hi) * (a * p) == (lost + hi * p) * (a * m) + a * body
  {
    assert (lo + m * hi) * (a * p) == a * (lo * p) + a * (m * (hi * p));
    assert a * (body + m * lost) == a * body + a * (m * lost);
    assert (lost + hi * p) * (a * m) == a * (m * lost) + a * (m * (hi * p));
  }

  // ---------------------------------------------------------------- right shift

  /** The words shifted right by less than a word: each takes in the low bits of the next. */
  function ShrBits(y: Words, p: nat, q: nat): (r: Words)
    requires p > 0 && q > 0 && p * q == W
    ensures |r| == |y|
  {
    if y == [] then [] else [ShrAt(y, p, q, 0)] + ShrBits(y[1..], p, q)
  }

  function ShrAt(y: Words, p: nat, q: nat, k: nat): (r: u64)
    requires k < |y| && p > 0 && q > 0 && p * q == W
  {
    ShrSum(y[k], if k + 1 < |y| then y[k + 1] else 0, p, q);
    if k + 1 < |y| then ShrWord(y[k], p) + ShlWord(y[k + 1], q) else ShrWord(y[k], p)
  }

  lemma ShrSum(x: u64, next: u64, p: nat, q: nat)
    requires p > 0 && q > 0 && p * q == W
    ensures x / p + (next * q) % W < W
  {
    assert q * p == W;
    ShlSplits(next, q, p);
    ShlSplits(x, q, p);
  }

  lemma {:induction false} ShrBitsAt(y: Words, p: nat, q: nat, k: nat)
    requires k < |y| && p > 0 && q > 0 && p * q == W
    ensures ShrBits(y, p, q)[k] == ShrAt(y, p, q, k)
  {
    if k > 0 {
      ShrBitsAt(y[1..], p, q, k - 1);
    }
  }

  lemma {:induction false} ShrBitsValue(y: Words, p: nat, q: nat)
    requires p > 0 && q > 0 && p * q == W
    ensures Val(y) == p * Val(ShrBits(y, p, q)) + (if y == [] then 0 else y[0] % p)
  {
    if y != [] {
      ShrBitsValue(y[1..], p, q);
      ShrFirst(y, p, q);
      assert ShrBits(y, p, q)[1..] == ShrBits(y[1..], p, q);
      ShrStep(p, q, y[0] / p, y[0] % p, if |y| > 1 then y[1] % p else 0, Val(ShrBits(y[1..], p, q)));
      assert y[0] == p * (y[0] / p) + y[0] % p;
    }
  }

  lemma ShrFirst(y: Words, p: nat, q: nat)
    requires y != [] && p > 0 && q > 0 && p * q == W
    ensures ShrAt(y, p, q, 0) == y[0] / p + (if |y| > 1 then y[1] % p else 0) * q
  {
    if |y| > 1 {
      assert q * p == W;
      ShlSplits(y[1], q, p);
    }
  }

  lemma ShrStep(p: nat, q: nat, a: nat, r: nat, r1: nat, v: nat)
    requires p * q == W
    ensures p * a + r + W * (p * v + r1) == p * ((a + r1 * q) + W * v) + r
  {
    assert p * (r1 * q) == (p * q) * r1;
    assert W * (p * v) == p * (W * v);
    assert p * ((a + r1 * q) + W * v) == p * a + p * (r1 * q) + p * (W * v);
  }

  method Shr(original: Words, shift: nat) returns (r: Words)
    ensures |r| == |original|
    ensures Val(r) == Val(original) / Pow2(shift)
  {
    var n := |original|;
    var wordShift, bitShift := shift / 64, shift % 64;
    BitShift(bitShift);
    var ret := new u64[n](_ => 0);
    if wordShift < n {
      ShrIntoWords(original, ret, wordShift, bitShift);
    }
    r := ret[..];
    if wordShift < n {
      ShrWordsAreBits(original[wordShift..], bitShift, r[..n - wordShift]);
      assert r == r[..n - wordShift] + Zeros(wordShift);
    } else {
      assert r == Zeros(n);
    }
    ShrValue(original, shift, r);
  }

  method ShrIntoWords(original: Words, ret: array<u64>, wordShift: nat, bitShift: nat)
    requires ret.Length == |original| && wordShift < ret.Length
    requires bitShift < 64 && Pow2(bitShift) * Pow2(64 - bitShift) == W
    requires forall k | 0 <= k < ret.Length :: ret[k] == 0
    modifies ret
    ensures var y, m := original[wordShift..], ret.Length - wordShift;
            && (forall k | m <= k < ret.Length :: ret[k] == 0)
            && forall k | 0 <= k < m :: ret[k] == if bitShift > 0 then ShrAt(y, Pow2(bitShift), Pow2(64 - bitShift), k)
                                                 else ShrWord(y[k], Pow2(bitShift))
  {
    var n := ret.Length;
    var p, q := Pow2(bitShift), Pow2(64 - bitShift);
    for i := wordShift to n
      invariant forall k | i - wordShift <= k < n :: ret[k] == 0
      invariant forall k | 0 <= k < i - wordShift :: ret[k] == ShrWord(original[k + wordShift], p)
    {
      ret[i - wordShift] := ShrWord(original[i], p);
    }
    ghost var y := original[wordShift..];
    if bitShift > 0 {
      for i := wordShift + 1 to n
        invariant forall k | n - wordShift <= k < n :: ret[k] == 0
        invariant forall k | 0 <= k < i - wordShift - 1 :: ret[k] == ShrAt(y, p, q, k)
        invariant forall k | i - wordShift - 1 <= k < n - wordShift :: ret[k] == ShrWord(y[k], p)
      {
        ShrSum(original[i - 1], original[i], p, q);
        ret[i - wordShift - 1] := ret[i - wordShift - 1] + ShlWord(original[i], q);
      }
    }
  }

  /** Without a bit shift nothing crosses the words, so plain copies are the shifted words too. */
  lemma ShrWordsAreBits(y: Words, bitShift: nat, r: Words)
    requires bitShift < 64 && Pow2(bitShift) * Pow2(64 - bitShift) == W && |r| == |y|
    requires forall k | 0 <= k < |y| :: r[k] == if bitShift > 0 then ShrAt(y, Pow2(bitShift), Pow2(64 - bitShift), k)
                                                else ShrWord(y[k], Pow2(bitShift))
    ensures r == ShrBits(y, Pow2(bitShift), Pow2(64 - bitShift))
  {
    var p, q := Pow2(bitShift), Pow2(64 - bitShift);
    forall k | 0 <= k < |y|
      ensures r[k] == ShrBits(y, p, q)[k]
    {
      ShrBitsAt(y, p, q, k);
      if bitShift == 0 {
        Pow2Word();
        assert q == W && p == 1;
        if k + 1 < |y| {
          DivModUnique(y[k + 1] * W, W, y[k + 1], 0);
        }
      }
    }
  }

  lemma ShrValue(x: Words, shift: nat, r: Words)
    requires |r| == |x|
    requires var ws, bs := shift / 64, shift % 64;
             Pow2(bs) * Pow2(64 - bs) == W &&
             r == if ws < |x| then ShrBits(x[ws..], Pow2(bs), Pow2(64 - bs)) + Zeros(ws) else Zeros(|x|)
    ensures Val(r) == Val(x) / Pow2(shift)
  {
    var n, ws, bs := |x|, shift / 64, shift % 64;
    var p, q := Pow2(bs), Pow2(64 - bs);
    Pow2Add(64 * ws, bs);
    WPowIsPow2(ws);
    if ws < n {
      var y := x[ws..];
      ShrBitsValue(y, p, q);
      ValSplit(r, n - ws);
      assert r[..n - ws] == ShrBits(y, p, q) && r[n - ws..] == Zeros(ws);
      ZerosVal(ws);
      ValSplit(x, ws);
      ValBound(x[..ws]);
      ShrConclude(WPow(ws), p, Val(x[..ws]), Val(y), y[0] % p, Val(ShrBits(y, p, q)));
    } else {
      ZerosVal(n);
      ValBound(x);
      WPowIsPow2(n);
      Pow2Mono(64 * n, shift);
      DivModUnique(Val(x), Pow2(shift), 0, Val(x));
    }
  }

  lemma ShrTotal(a: nat, p: nat, lo: nat, r0: nat, v: nat)
    requires lo < a && r0 < p
    ensures lo + a * (p * v + r0) == v * (a * p) + (lo + a * r0)
    ensures lo + a * r0 < a * p
  {
    assert a * (p * v + r0) == v * (a * p) + a * r0;
    MulMono(r0, p - 1, a);
    assert a * (p - 1) == a * p - a;
  }

  lemma ShrConclude(a: nat, p: nat, lo: nat, y: nat, r0: nat, v: nat)
    requires lo < a && r0 < p && y == p * v + r0 && a * p > 0
    ensures (lo + a * y) / (a * p) == v
  {
    ShrTotal(a, p, lo, r0, v);
    DivModUnique(lo + a * y, a * p, v, lo + a * r0);
  }

  // ---------------------------------------------------------------- bit length

  /** 64 - leading_zeros(x). */
  function BitLen(x: nat): nat
  {
    if x == 0 then 0 else 1 + BitLen(x / 2)
  }

  lemma {:induction false} BitLenBounds(x: nat)
    ensures x < Pow2(BitLen(x)) && (x > 0 ==> Pow2(BitLen(x) - 1) <= x)
  {
    if x != 0 {
      BitLenBounds(x / 2);
    }
  }

  lemma BitLenWord(x: u64)
    ensures BitLen(x) <= 64
  {
    BitLenBounds(x);
    Pow2Word();
    if BitLen(x) > 64 {
      Pow2Mono(64, BitLen(x) - 1);
    }
  }

  /** b is the least number of bits v fits into. */
  predicate HasBits(v: nat, b: nat)
  {
    v < Pow2(b) && (b > 0 ==> Pow2(b - 1) <= v)
  }

  method Bits(me: Words) returns (r: nat)
    requires |me| >= 1
    ensures HasBits(Val(me), r) && r <= 64 * |me|
  {
    var n := |me|;
    for i := 1 to n
      invariant Val(me[n - i + 1..]) == 0
    {
      if me[n - i] > 0 {
        TopWordBits(me, n - i);
        var leadingZeros := 64 - BitLen(me[n - i]);
        return 64 * (n - i + 1) - leadingZeros;
      }
      assert me[n - i..][1..] == me[n - i + 1..];
    }
    TopWordBits(me, 0);
    var leadingZeros := 64 - BitLen(me[0]);
    return 64 - leadingZeros;
  }

  lemma TopWordBits(me: Words, k: nat)
    requires k < |me| && Val(me[k + 1..]) == 0 && (me[k] > 0 || k == 0)
    ensures HasBits(Val(me), 64 * k + BitLen(me[k])) && BitLen(me[k]) <= 64
  {
    var b := BitLen(me[k]);
    BitLenBounds(me[k]);
    BitLenWord(me[k]);
    HighWordsZero(me, k);
    ValBound(me[..k]);
    WPowIsPow2(k);
    Pow2Add(64 * k, b);
    if b > 0 {
      Pow2Add(64 * k, b - 1);
    }
    TopBits(Val(me[..k]), me[k], WPow(k), Pow2(b), if b > 0 then Pow2(b - 1) else 0);
  }

  lemma HighWordsZero(me: Words, k: nat)
    requires k < |me| && Val(me[k + 1..]) == 0
    ensures Val(me) == Val(me[..k]) + me[k] * WPow(k)
  {
    ValSplit(me, k + 1);
    ValSnoc(me, k);
  }

  lemma TopBits(lo: nat, x: nat, w: nat, above: nat, below: nat)
    requires lo < w && below <= x < above
    ensures lo + x * w < w * above && w * below <= lo + x * w
  {
    MulMono(x + 1, above, w);
    assert (x + 1) * w == x * w + w;
    MulMono(below, x, w);
  }
}
