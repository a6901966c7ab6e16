/** Signed big integers over digit arrays, with the memoized division the worker uses for printing. */
module BigIntegers {
  import opened DigitArithmetic
  import opened DigitRoutines
  import opened BigDivision

  /** Sign, digits and the number of digits in use. The digits are shared freely and never changed. */
  datatype BigInt = BigInt(neg: bool, digits: array<Digit>, used: nat) {
    ghost predicate Valid()
      reads digits
    {
      used <= digits.Length && (used > 0 ==> digits[used - 1] != 0) && (used == 0 ==> !neg)
    }

    ghost function Magnitude(): (v: int)
      requires Valid()
      reads digits
      ensures v >= 0
    {
      Val(digits[..used])
    }

    ghost function Value(): int
      requires Valid()
      reads digits
    {
      if neg then -Magnitude() else Magnitude()
    }
  }

  /** Division rounding toward zero. */
  function TruncQuot(x: int, d: int): int
    requires d != 0
  {
    if (x < 0) == (d < 0) then Abs(x) / Abs(d) else -(Abs(x) / Abs(d))
  }

  function TruncRem(x: int, d: int): int
    requires d != 0
  {
    if x < 0 then -(Abs(x) % Abs(d)) else Abs(x) % Abs(d)
  }

  function Abs(x: int): nat { if x < 0 then -x else x }

  /** Truncated division is exact: the remainder is smaller than the divisor and has the
      dividend's sign, and no other pair of numbers satisfies that. */
  lemma TruncatedDivisionLaw(x: int, d: int, q: int, r: int)
    requires d != 0
    ensures q == TruncQuot(x, d) && r == TruncRem(x, d) <==>
            x == q * d + r && Abs(r) < Abs(d) && (r == 0 || (r < 0 <==> x < 0))
  {
    if q == TruncQuot(x, d) && r == TruncRem(x, d) { TruncatedDivides(x, d, q, r); }
    if x == q * d + r && Abs(r) < Abs(d) && (r == 0 || (r < 0 <==> x < 0)) { TruncatedUnique(x, d, q, r); }
  }

  lemma TruncatedDivides(x: int, d: int, q: int, r: int)
    requires d != 0 && q == TruncQuot(x, d) && r == TruncRem(x, d)
    ensures x == q * d + r && Abs(r) < Abs(d) && (r == 0 || (r < 0 <==> x < 0))
  {
    hide Times;
    var aq := Abs(x) / Abs(d);
    DivisionSplits(Abs(x), Abs(d));
    SignedProduct(aq, Abs(d), d, q, x);
    TimesIs(q, d);
  }

  lemma DivisionSplits(ax: nat, ad: nat)
    requires ad > 0
    ensures ax == Times(ax / ad, ad) + ax % ad
  {}

  lemma TruncatedUnique(x: int, d: int, q: int, r: int)
    requires d != 0 && x == q * d + r && Abs(r) < Abs(d) && (r == 0 || (r < 0 <==> x < 0))
    ensures q == TruncQuot(x, d) && r == TruncRem(x, d)
  {
    hide Times;
    var sq := if (x < 0) == (d < 0) then q else -q;
    if x == 0 { ZeroDividend(q, d, r); }
    SignedProduct(sq, Abs(d), d, q, x);
    TimesIs(q, d);
    MagnitudeDivision(Abs(x), Abs(d), sq, Abs(r));
  }

  lemma MagnitudeDivision(ax: nat, ad: nat, q: int, r: nat)
    requires r < ad && ax == Times(q, ad) + r
    ensures q == ax / ad && r == ax % ad
  {
    DivModUnique(ad, r, q, ax % ad, ax / ad);
  }

  lemma ZeroDividend(q: int, d: int, r: int)
    requires 0 == q * d + r && Abs(r) < Abs(d)
    ensures q == 0 && r == 0
  {
    if q > 0 { MulMono(1, q, Abs(d)); } else if q < 0 { MulMono(q, -1, Abs(d)); }
  }

  lemma SignedProduct(aq: int, ad: int, d: int, q: int, x: int)
    requires ad == Abs(d) && q == if (x < 0) == (d < 0) then aq else -aq
    ensures Times(q, d) == if x < 0 then -Times(aq, ad) else Times(aq, ad)
  {
    if d < 0 { assert q * d == -(q * ad); } else { assert q * d == q * ad; }
    assert (-aq) * ad == -(aq * ad);
  }

  lemma ValueIs(x: BigInt)
    requires x.Valid()
    ensures x.used <= x.digits.Length && (x.used > 0 ==> x.digits[x.used - 1] != 0)
    ensures x.Magnitude() == Val(x.digits[..x.used])
    ensures x.Value() == if x.neg then -x.Magnitude() else x.Magnitude()
  {}

  lemma ZeroIffUnused(x: BigInt)
    requires x.Valid()
    ensures x.used == 0 <==> x.Value() == 0
    ensures x.used == 0 ==> x.Magnitude() == 0
  {
    if x.used > 0 { ValTop(x.digits[..x.used]); } else { ZeroDigits(); assert x.digits[..0] == []; }
  }

  /** Wraps a digit array, dropping leading zeros; zero is never negative. */
  method Make(neg: bool, digits: array<Digit>, length: nat) returns (r: BigInt)
    requires length <= digits.Length
    ensures r.digits == digits && r.Valid() && (!neg ==> !r.neg)
    ensures r.Magnitude() == Val(digits[..length])
    ensures r.Value() == if neg then -Val(digits[..length]) else Val(digits[..length])
  {
    var n := Normalize(length, digits);
    r := BigInt(n != 0 && neg, digits, n);
    if n == 0 { ZeroDigits(); assert digits[..0] == []; }
    hide Val;
  }

  method Negate(x: BigInt) returns (r: BigInt)
    requires x.Valid()
    ensures r.Valid() && r.Value() == -x.Value()
    ensures r.Magnitude() == x.Magnitude()
  {
    hide *;
    ValueIs(x);
    ZeroIffUnused(x);
    if x.used == 0 { return x; }
    r := Make(!x.neg, x.digits, x.used);
  }

  /** The big integer of a machine integer: one digit, two, or as many as its bits need. */
  method FromInt(v: int) returns (r: BigInt)
    ensures fresh(r.digits) && r.Valid() && r.Value() == v
    ensures v >= 0 ==> !r.neg
  {
    hide Val;
    var neg, a := v < 0, Abs(v);
    if v == -0x8000_0000_0000_0000 {
      var s := new Digit[4](_ => 0);
      s[3] := 32768;
      FourDigits(s[..4]);
      r := Make(true, s, 4);
    } else if a < 65536 {
      var s := new Digit[1](_ => 0);
      s[0] := a;
      assert s[..1] == [s[0]];
      OneDigit([s[0]]);
      r := Make(neg, s, 1);
    } else if a <= 0xFFFF_FFFF {
      var s := new Digit[2](_ => 0);
      s[0], s[1] := a % 65536, a / 65536;
      assert s[..2] == [s[0]] + [s[1]];
      OneDigit([s[1]]);
      ValCons(s[0], [s[1]]);
      r := Make(neg, s, 2);
    } else {
      var n := (BitLength(a) - 1) / 16 + 1;
      BitLengthBounds(a);
      var s := SplitDigits(a, n);
      r := Make(neg, s, n);
    }
  }

  lemma FourDigits(s: seq<Digit>)
    requires |s| == 4 && s[0] == 0 && s[1] == 0 && s[2] == 0 && s[3] == 32768
    ensures Val(s) == 0x8000_0000_0000_0000
  {
    hide *;
    OneDigit([s[3]]);
    ValCons(s[2], [s[3]]);
    ValCons(s[1], [s[2]] + [s[3]]);
    ValCons(s[0], [s[1]] + ([s[2]] + [s[3]]));
    assert s == [s[0]] + ([s[1]] + ([s[2]] + [s[3]]));
  }

  /** The digits of a number, lowest first. */
  method SplitDigits(v: nat, n: nat) returns (s: array<Digit>)
    requires v > 0 && n == (BitLength(v) - 1) / 16 + 1
    ensures fresh(s) && s.Length == n && Val(s[..n]) == v
  {
    hide *;
    s := new Digit[n](_ => 0);
    BitLengthFits(v, n);
    var a, q := v, 0;
    ghost var done: seq<Digit> := [];
    NothingSplit(v);
    while a != 0
      invariant |done| == q <= n && s[..q] == done && 0 <= a < Pow(n - q)
      invariant SplitSoFar(done, a, v)
      invariant forall i :: q <= i < n ==> s[i] == 0
      decreases n - q
    {
      if q == n { ZeroDigits(); }
      var d: Digit := a % 65536;
      SplitDigit(done, a, v, n - q);
      s[q] := d;
      assert s[..q + 1] == done + [d];
      done := done + [d];
      a, q := a / 65536, q + 1;
    }
    assert s[..n] == done + s[q..];
    AllSplit(done, s[q..], v);
  }

  ghost predicate SplitSoFar(done: seq<Digit>, rest: int, v: int) {
    Val(done) + Times(rest, Pow(|done|)) == v
  }

  lemma NothingSplit(v: int)
    ensures SplitSoFar([], v, v)
  {
    ZeroDigits();
    TimesIs(v, 1);
  }

  lemma SplitDigit(done: seq<Digit>, a: nat, v: int, left: nat)
    requires SplitSoFar(done, a, v) && a < Pow(left) && left > 0
    ensures SplitSoFar(done + [a % 65536], a / 65536, v) && a / 65536 < Pow(left - 1)
  {
    var p := Pow(|done|);
    ValSnoc(done, a % 65536);
    CarrySplit(a, p);
    hide Val;
  }

  lemma AllSplit(done: seq<Digit>, zeros: seq<Digit>, v: int)
    requires SplitSoFar(done, 0, v) && forall i :: 0 <= i < |zeros| ==> zeros[i] == 0
    ensures Val(done + zeros) == v
  {
    ValZeros(zeros);
    ValConcat(done, zeros);
    hide Val;
    TimesZero(Pow(|done|));
    assert Pow(|done|) * 0 == 0;
  }

  lemma BitLengthFits(v: nat, n: nat)
    requires v > 0 && n == (BitLength(v) - 1) / 16 + 1
    ensures v < Pow(n)
  {
    BitLengthBounds(v);
    Pow2Mono(BitLength(v), 16 * n);
    PowIsPow2(n);
  }

  lemma {:induction false} PowIsPow2(n: nat)
    ensures Pow(n) == Pow2(16 * n)
  {
    if n > 0 {
      PowIsPow2(n - 1);
      Pow2Up16(16 * (n - 1));
    }
  }

  lemma Pow2Up4(m: nat)
    ensures Pow2(m + 4) == 16 * Pow2(m)
  {
    assert Pow2(m + 1) == 2 * Pow2(m);
    assert Pow2(m + 2) == 2 * Pow2(m + 1);
    assert Pow2(m + 3) == 2 * Pow2(m + 2);
  }

  lemma Pow2Up16(m: nat)
    ensures Pow2(m + 16) == 65536 * Pow2(m)
  {
    hide Pow2;
    Pow2Up4(m);
    Pow2Up4(m + 4);
    Pow2Up4(m + 8);
    Pow2Up4(m + 12);
  }

  /** Magnitude addition; the result takes the given sign. */
  method AddMagnitudes(x: BigInt, y: BigInt, neg: bool) returns (r: BigInt)
    requires x.Valid() && y.Valid()
    ensures r.Valid()
    ensures r.Value() == if neg then -(x.Magnitude() + y.Magnitude()) else x.Magnitude() + y.Magnitude()
    decreases x.used < y.used
  {
    hide *;
    if x.used < y.used {
      r := AddMagnitudes(y, x, neg);
      return;
    }
    ZeroIffUnused(x);
    ZeroIffUnused(y);
    ValueIs(x);
    ValueIs(y);
    if x.used == 0 {
      r := FromInt(0);
      return;
    }
    if y.used == 0 {
      if x.neg == neg { return x; }
      r := Negate(x);
      return;
    }
    var s := new Digit[x.used + 1](_ => 0);
    Add(x.digits, x.used, y.digits, y.used, s);
    r := Make(neg, s, x.used + 1);
  }

  /** Magnitude subtraction of a smaller magnitude; the result takes the given sign. */
  method SubMagnitudes(x: BigInt, y: BigInt, neg: bool) returns (r: BigInt)
    requires x.Valid() && y.Valid() && x.Magnitude() >= y.Magnitude()
    ensures r.Valid()
    ensures r.Value() == if neg then -(x.Magnitude() - y.Magnitude()) else x.Magnitude() - y.Magnitude()
  {
    hide *;
    ZeroIffUnused(x);
    ZeroIffUnused(y);
    ValueIs(x);
    ValueIs(y);
    if x.used == 0 {
      r := FromInt(0);
      return;
    }
    if y.used == 0 {
      if x.neg == neg { return x; }
      r := Negate(x);
      return;
    }
    if x.used < y.used { LongerIsLarger(x.digits[..x.used], y.digits[..y.used]); }
    var s := new Digit[x.used](_ => 0);
    Sub(x.digits, x.used, y.digits, y.used, s);
    r := Make(neg, s, x.used);
  }

  method Plus(x: BigInt, y: BigInt) returns (r: BigInt)
    requires x.Valid() && y.Valid()
    ensures r.Valid() && r.Value() == x.Value() + y.Value()
  {
    hide *;
    ZeroIffUnused(x);
    ZeroIffUnused(y);
    ValueIs(x);
    ValueIs(y);
    if x.used == 0 { return y; }
    if y.used == 0 { return x; }
    if x.neg == y.neg {
      r := AddMagnitudes(x, y, x.neg);
      return;
    }
    var order := Compare(x.digits, x.used, y.digits, y.used);
    if order >= 0 {
      r := SubMagnitudes(x, y, x.neg);
    } else {
      r := SubMagnitudes(y, x, !x.neg);
    }
  }

  method Minus(x: BigInt, y: BigInt) returns (r: BigInt)
    requires x.Valid() && y.Valid()
    ensures r.Valid() && r.Value() == x.Value() - y.Value()
  {
    hide *;
    ZeroIffUnused(x);
    ZeroIffUnused(y);
    ValueIs(x);
    ValueIs(y);
    if x.used == 0 {
      r := Negate(y);
      return;
    }
    if y.used == 0 { return x; }
    if x.neg != y.neg {
      r := AddMagnitudes(x, y, x.neg);
      return;
    }
    var order := Compare(x.digits, x.used, y.digits, y.used);
    if order >= 0 {
      r := SubMagnitudes(x, y, x.neg);
    } else {
      r := SubMagnitudes(y, x, !x.neg);
    }
  }

  /** Schoolbook product in progress after `done` digits of y. */
  ghost predicate MultipliedSoFar(p: seq<Digit>, x: seq<Digit>, y: seq<Digit>, done: nat)
    requires done <= |y|
  {
    Val(p) == Times(Val(x), Val(y[..done]))
  }

  /** Room for the next row: what it adds at position `done` stays inside the result. */
  lemma RowFits(p: seq<Digit>, x: seq<Digit>, y: seq<Digit>, done: nat)
    requires done < |y| && |p| == |x| + |y| && MultipliedSoFar(p, x, y, done)
    ensures Val(p[done..]) + Times(y[done], Val(x)) < Pow(|p| - done)
  {
    assert Val(p) == Times(Val(x), Val(y[..done]));
    hide *;
    ValSplit(p, done);
    ValBound(x);
    ValBound(y[..done]);
    RowInts(Val(x), Val(y[..done]), Pow(|x|), Pow(done), Val(p[..done]), Val(p[done..]), y[done]);
    PowSucc(|x|);
    PowMono(|x| + 1, |p| - done);
  }

  lemma RowInts(x: int, y: int, px: int, pd: int, low: int, high: int, d: Digit)
    requires 0 <= x < px && 0 <= y < pd && 0 <= low
    requires low + pd * high == Times(x, y)
    ensures high + Times(d, x) < 65536 * px
  {
    MulMono(x, px - 1, y);
    MulMono(y, pd, px - 1);
    assert (px - 1) * y == y * (px - 1);
    assert pd * (px - 1) == pd * px - pd;
    if high >= px { MulMono(px, high, pd); }
    MulMono(d, 65535, x);
  }

  lemma RowDone(p: seq<Digit>, q: seq<Digit>, x: seq<Digit>, y: seq<Digit>, done: nat)
    requires done < |y| && |p| == |q| == |x| + |y| && MultipliedSoFar(p, x, y, done)
    requires q[..done] == p[..done]
    requires Val(q[done..]) == Val(p[done..]) + Times(y[done], Val(x))
    ensures MultipliedSoFar(q, x, y, done + 1)
  {
    ValSplit(p, done);
    ValSplit(q, done);
    assert y[..done + 1] == y[..done] + [y[done]];
    ValSnoc(y[..done], y[done]);
    hide Val;
    hide Pow;
    RowDoneInts(Val(x), Val(y[..done]), y[done], Pow(done), Val(p[..done]), Val(p[done..]));
  }

  lemma RowDoneInts(x: int, y: int, d: int, p: int, low: int, high: int)
    requires low + p * high == Times(x, y)
    ensures low + p * (high + Times(d, x)) == Times(x, y + d * p)
  {
    assert p * (high + d * x) == p * high + p * (d * x);
    assert x * (y + d * p) == x * y + x * (d * p);
    assert x * (d * p) == p * (d * x);
  }

  /** Schoolbook multiplication, one row of MulAdd per digit of y. */
  method Multiply(x: BigInt, y: BigInt) returns (r: BigInt)
    requires x.Valid() && y.Valid()
    ensures r.Valid() && r.Value() == x.Value() * y.Value()
  {
    hide *;
    ValueIs(x);
    ValueIs(y);
    ZeroIffUnused(x);
    ZeroIffUnused(y);
    SignedTimes(x.neg, x.Magnitude(), y.neg, y.Magnitude());
    var l, k := x.used, y.used;
    if l == 0 || k == 0 {
      r := FromInt(0);
      return;
    }
    var s := l + k;
    var p := new Digit[s](_ => 0);
    ghost var xs, ys := x.digits[..l], y.digits[..k];
    ValZeros(p[..]);
    ZeroDigits();
    assert ys[..0] == [];
    NothingMultiplied(p[..], xs, ys);
    for o := 0 to k
      invariant xs == x.digits[..l] && ys == y.digits[..k]
      invariant MultipliedSoFar(p[..], xs, ys, o)
    {
      ghost var was := p[..];
      RowFits(was, xs, ys, o);
      assert p[o..s] == was[o..] && x.digits[0..0 + l] == xs;
      MulAdd(y.digits[o], x.digits, 0, p, o, l, s);
      assert p[o..s] == p[..][o..];
      assert p[..][..o] == was[..o];
      RowDone(was, p[..], xs, ys, o);
    }
    assert ys[..k] == ys && p[..s] == p[..];
    AllMultiplied(p[..], xs, ys);
    r := Make(x.neg != y.neg, p, s);
  }

  lemma NothingMultiplied(p: seq<Digit>, x: seq<Digit>, y: seq<Digit>)
    requires Val(p) == 0
    ensures MultipliedSoFar(p, x, y, 0)
  {}

  lemma AllMultiplied(p: seq<Digit>, x: seq<Digit>, y: seq<Digit>)
    requires MultipliedSoFar(p, x, y, |y|)
    ensures Val(p) == Times(Val(x), Val(y))
  {
    assert y[..|y|] == y;
  }

  lemma SignedTimes(xn: bool, x: int, yn: bool, y: int)
    ensures (if xn then -x else x) * (if yn then -y else y) == if xn != yn then -Times(x, y) else Times(x, y)
  {
    assert (-x) * y == -(x * y) && x * (-y) == -(x * y) && (-x) * (-y) == x * y;
  }
}
