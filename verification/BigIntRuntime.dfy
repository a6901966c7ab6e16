/** The big-integer entry points that share one memoized division: quotient, remainder, printing and
    parsing. The memo is keyed by the identity of the operands' digit arrays. */
module BigIntRuntimes {
  import opened DigitArithmetic
  import opened DigitRoutines
  import opened BigDivision
  import opened BigIntegers
  import opened DecimalText
  import opened NumberText
  import opened Wrappers

  /** The digits of quotient and remainder kept from a division, the remainder still shifted. */
  ghost predicate HoldsDivision(x: int, d: int, n: seq<Digit>, remUsed: nat, shift: nat)
    requires remUsed <= |n|
  {
    && d > 0 && x >= 0
    && Val(n[remUsed..]) == x / d
    && Val(n[..remUsed]) == Times(Pow2(shift), x % d)
  }

  lemma UnshiftDivision(x: int, d: int, q: int, r: int, p: int)
    requires x >= 0 && d > 0 && p >= 1
    requires Times(p, x) == Times(q, Times(p, d)) + r && 0 <= r < Times(p, d)
    ensures q == x / d && r == Times(p, x % d)
  {
    hide *;
    var rest := x - Times(q, d);
    FactorOut(p, x, q, d);
    ScaledRange(p, rest, d);
    MagnitudeDivision(x, d, q, rest);
  }

  lemma FactorOut(p: int, x: int, q: int, d: int)
    ensures Times(p, x) - Times(q, Times(p, d)) == Times(p, x - Times(q, d))
  {
    assert q * (p * d) == p * (q * d);
    assert p * (x - q * d) == p * x - p * (q * d);
  }

  lemma ScaledRange(p: int, rest: int, d: int)
    requires p >= 1 && 0 <= Times(p, rest) < Times(p, d)
    ensures 0 <= rest < d
  {
    if rest < 0 { MulMono(rest, -1, p); }
    if rest >= d { MulMono(d, rest, p); }
  }

  /** Shifting left by the normalizing amount keeps the digit count and sets the top bit. */
  lemma NormalizedDivisor(s: seq<Digit>, t: seq<Digit>, factor: int)
    requires s != [] && t != [] && t[|t| - 1] != 0 && factor >= 1
    requires |s| <= |t| <= |s| + 1
    requires 32768 <= Times(factor, s[|s| - 1]) && Times(factor, s[|s| - 1] as int + 1) <= 65536
    requires Val(t) == Times(factor, Val(s))
    ensures |t| == |s| && t[|t| - 1] >= 32768
  {
    hide *;
    var o := |s| - 1;
    ValUnfold(s);
    ValBound(s[..o]);
    ValTop(t);
    PowSucc(o);
    ScaledBounds(Val(s[..o]), s[o], Pow(o), factor, Val(s));
    if |t| == |s| {
      ValUnfold(t);
      ValBound(t[..o]);
      AtLeastTop(Val(t[..o]), t[o], Pow(o));
    }
  }

  lemma ScaledBounds(low: int, top: int, p: int, factor: int, v: int)
    requires 0 <= low < p && v == low + top * p && factor >= 1
    requires 32768 <= Times(factor, top) && Times(factor, top + 1) <= 65536
    ensures 32768 * p <= Times(factor, v) < 65536 * p
  {
    assert factor * (top * p) == (factor * top) * p;
    assert factor * ((top + 1) * p) == (factor * (top + 1)) * p;
    assert (top + 1) * p == top * p + p;
    MulStrict(v, (top + 1) * p, factor);
    MulMono(top * p, v, factor);
    MulMono(factor * (top + 1), 65536, p);
    MulMono(32768, factor * top, p);
  }

  lemma AtLeastTop(low: int, top: int, p: int)
    requires 0 <= low < p && low + top * p >= 32768 * p
    ensures top >= 32768
  {
    assert (top + 1) * p == top * p + p;
    if top < 32768 { MulMono(top + 1, 32768, p); }
  }

  /** A power of two that keeps a digit below 65536 keeps its successor at most 65536. */
  lemma ShiftedSuccessor(d: Digit, m: nat)
    requires m <= 16 && Times(Pow2(m), d) < 65536
    ensures Times(Pow2(m), d as int + 1) <= 65536
  {
    hide Pow2;
    Pow2Split(m);
    SuccessorInts(d, Pow2(m), Pow2(16 - m));
  }

  lemma SuccessorInts(d: int, a: int, b: int)
    requires a >= 1 && Times(a, b) == 65536 && Times(a, d) < 65536
    ensures Times(a, d + 1) <= 65536
  {
    if d >= b { MulMono(b, d, a); } else { MulMono(d + 1, b, a); }
  }

  class BigIntRuntime {
    const tenThousand: BigInt
    var lastDividendDigits: array?<Digit>
    var lastDividendUsed: nat
    var lastDivisorDigits: array?<Digit>
    var lastDivisorUsed: nat
    var quoRemDigits: array<Digit>
    var quoRemUsed: nat
    var remUsed: nat
    var remShift: nat

    ghost predicate Valid()
      reads this, tenThousand.digits, lastDividendDigits, lastDivisorDigits, quoRemDigits
    {
      && tenThousand.Valid() && tenThousand.Value() == 10000
      && remUsed <= quoRemUsed <= quoRemDigits.Length && remShift < 16
      && (lastDividendDigits != null && lastDivisorDigits != null ==>
            && lastDividendUsed <= lastDividendDigits.Length && lastDivisorUsed <= lastDivisorDigits.Length
            && HoldsDivision(Val(lastDividendDigits[..lastDividendUsed]), Val(lastDivisorDigits[..lastDivisorUsed]),
                             quoRemDigits[..quoRemUsed], remUsed, remShift))
    }

    constructor ()
      ensures Valid()
    {
      var s := new Digit[1](_ => 0);
      s[0] := 10000;
      tenThousand := BigInt(false, s, 1);
      lastDividendDigits, lastDivisorDigits := null, null;
      lastDividendUsed, lastDivisorUsed, quoRemUsed, remUsed, remShift := 0, 0, 0, 0, 0;
      quoRemDigits := new Digit[0];
      new;
      assert s[..1] == [s[0]];
      OneDigit([s[0]]);
    }

    /** Divides magnitudes unless the memo already holds this very division. */
    method Divide(x: BigInt, d: BigInt)
      requires Valid() && x.Valid() && d.Valid() && 1 <= d.used <= x.used
      modifies this
      ensures Valid()
      ensures lastDividendDigits == x.digits && lastDividendUsed == x.used
      ensures lastDivisorDigits == d.digits && lastDivisorUsed == d.used
    {
      hide Val;
      hide HoldsDivision;
      if x.used == lastDividendUsed && d.used == lastDivisorUsed
         && x.digits == lastDividendDigits && d.digits == lastDivisorDigits {
        return;
      }
      var n, h, o, q := Recompute(x, d);
      lastDividendDigits, lastDividendUsed := x.digits, x.used;
      lastDivisorDigits, lastDivisorUsed := d.digits, d.used;
      quoRemDigits, quoRemUsed, remUsed, remShift := n, h, o, q;
    }

    /** The division itself: normalizes both operands, then runs the digit loop. */
    static method Recompute(x: BigInt, d: BigInt) returns (n: array<Digit>, h: nat, o: nat, q: nat)
      requires x.Valid() && d.Valid() && 1 <= d.used <= x.used
      ensures fresh(n) && o <= h <= n.Length && q < 16
      ensures HoldsDivision(Val(x.digits[..x.used]), Val(d.digits[..d.used]), n[..h], o, q)
    {
      hide *;
      ValueIs(x);
      ValueIs(d);
      ghost var xs, ds := x.digits[..x.used], d.digits[..d.used];
      var m, p;
      q, n, m, p, o := NormalizeOperands(x, d);
      h := m + 1;
      LongDivision(n, m, p, o);
      assert n[..h][o..] == n[o..m + 1] && n[..h][..o] == n[..o];
      DivisionHeld(Val(xs), Val(ds), n[..h], o, q);
    }

    /** Both operands shifted so that the divisor's top digit has its highest bit set; a divisor
        that has it already is used as it is. */
    static method NormalizeOperands(x: BigInt, d: BigInt)
      returns (q: nat, n: array<Digit>, m: nat, p: array<Digit>, o: nat)
      requires x.Valid() && d.Valid() && 1 <= d.used <= x.used
      ensures fresh(n) && n != p && q < 16 && Val(d.digits[..d.used]) > 0
      ensures 1 <= o <= m < n.Length && o <= p.Length && p[o - 1] >= 32768
      ensures Val(n[..m]) == Times(Pow2(q), Val(x.digits[..x.used]))
      ensures Val(p[..o]) == Times(Pow2(q), Val(d.digits[..d.used]))
    {
      hide *;
      ValueIs(x);
      ValueIs(d);
      var b, r, top := x.used, d.used, d.digits[d.used - 1];
      ghost var xs, ds := x.digits[..b], d.digits[..r];
      assert ds[r - 1] == top;
      ValTop(ds);
      NormalizingShift(top);
      q := 16 - BitLength(top);
      SmallShift(top);
      if q > 0 {
        p := new Digit[r + 5](_ => 0);
        o := ShiftLeft(d.digits, r, q, p);
        n := new Digit[b + 5](_ => 0);
        m := ShiftLeft(x.digits, b, q, n);
        ShiftByBits(q, Val(ds));
        ShiftByBits(q, Val(xs));
        ShiftedSuccessor(top, q);
        assert p[..o][o - 1] == p[o - 1];
        NormalizedDivisor(ds, p[..o], Pow2(q));
      } else {
        n := CloneDigits(x.digits, 0, b, b + 2);
        o, p, m := r, d.digits, b;
        assert x.digits[0..b] == xs && n[..b - 0] == n[..b];
        ZeroBits(Val(xs));
        ZeroBits(Val(ds));
        ZeroBits(top);
      }
    }

    static lemma SmallShift(top: Digit)
      requires top > 0
      ensures BitLength(top) >= 1
    {}

    static lemma ShiftByBits(q: nat, v: int)
      requires q < 16
      ensures q / 16 == 0 && q % 16 == q
      ensures Times(Pow(q / 16), Times(Pow2(q % 16), v)) == Times(Pow2(q), v)
    {
      assert Pow(0) == 1;
      TimesIs(1, Times(Pow2(q), v));
    }

    static lemma DivisionHeld(x: int, d: int, n: seq<Digit>, o: nat, q: nat)
      requires o <= |n| && d > 0 && x >= 0
      requires Times(Pow2(q), x) == Times(Val(n[o..]), Times(Pow2(q), d)) + Val(n[..o])
      requires Val(n[..o]) < Times(Pow2(q), d)
      ensures HoldsDivision(x, d, n, o, q)
    {
      hide Times, Val, Pow2;
      UnshiftDivision(x, d, Val(n[o..]), Val(n[..o]), Pow2(q));
    }

    /** The quotient digits of the memo as a nonnegative number. */
    method MemoizedQuotient() returns (q: BigInt)
      requires Valid() && lastDividendDigits != null && lastDivisorDigits != null
      ensures q.Valid() && !q.neg
      ensures Val(lastDivisorDigits[..lastDivisorUsed]) > 0
      ensures q.Value() == Val(lastDividendDigits[..lastDividendUsed]) / Val(lastDivisorDigits[..lastDivisorUsed])
    {
      hide Val;
      hide Pow;
      hide Times;
      var length := quoRemUsed - remUsed;
      assert quoRemDigits[..quoRemUsed][remUsed..] == quoRemDigits[remUsed..quoRemUsed];
      var digits := CloneDigits(quoRemDigits, remUsed, quoRemUsed, length);
      assert digits[..length] == digits[..quoRemUsed - remUsed];
      q := Make(false, digits, length);
    }

    /** The remainder digits of the memo, shifted back. */
    method MemoizedRemainder() returns (q: BigInt)
      requires Valid() && lastDividendDigits != null && lastDivisorDigits != null
      ensures q.Valid() && !q.neg
      ensures Val(lastDivisorDigits[..lastDivisorUsed]) > 0
      ensures q.Value() == Val(lastDividendDigits[..lastDividendUsed]) % Val(lastDivisorDigits[..lastDivisorUsed])
    {
      hide Val;
      hide Pow;
      hide Times;
      assert quoRemDigits[..quoRemUsed][..remUsed] == quoRemDigits[0..remUsed];
      ghost var rem := Val(lastDividendDigits[..lastDividendUsed]) % Val(lastDivisorDigits[..lastDivisorUsed]);
      var digits := CloneDigits(quoRemDigits, 0, remUsed, remUsed);
      assert digits[..remUsed] == digits[..remUsed - 0];
      q := Make(false, digits, remUsed);
      if remShift > 0 {
        q := UnshiftRemainder(q, remShift, rem);
      } else {
        ZeroBits(rem);
      }
    }

    /** Quotient rounded toward zero. */
    method Quotient(x: BigInt, d: BigInt) returns (r: BigInt)
      requires Valid() && x.Valid() && d.Valid() && d.used > 0
      modifies this
      ensures Valid() && r.Valid()
      ensures d.Value() != 0 && r.Value() == TruncQuot(x.Value(), d.Value())
    {
      hide Val;
      hide TruncQuot;
      hide TruncRem;
      hide HoldsDivision;
      ValueIs(x);
      ValueIs(d);
      ZeroIffUnused(x);
      ZeroIffUnused(d);
      if x.used < d.used {
        LongerIsLarger(x.digits[..x.used], d.digits[..d.used]);
        SmallDividend(x, d);
        r := FromInt(0);
        return;
      }
      Divide(x, d);
      r := MemoizedQuotient();
      QuotientSign(x.neg, x.Magnitude(), d.neg, d.Magnitude());
      if x.neg != d.neg && r.used > 0 {
        r := Negate(r);
      } else {
        ZeroIffUnused(r);
      }
    }

    /** Remainder of the division rounding toward zero. */
    method Remainder(x: BigInt, d: BigInt) returns (r: BigInt)
      requires Valid() && x.Valid() && d.Valid() && d.used > 0
      modifies this
      ensures Valid() && r.Valid()
      ensures d.Value() != 0 && r.Value() == TruncRem(x.Value(), d.Value())
    {
      hide Val;
      hide TruncQuot;
      hide TruncRem;
      hide HoldsDivision;
      ValueIs(x);
      ValueIs(d);
      ZeroIffUnused(x);
      ZeroIffUnused(d);
      if x.used < d.used {
        LongerIsLarger(x.digits[..x.used], d.digits[..d.used]);
        SmallDividend(x, d);
        return x;
      }
      Divide(x, d);
      r := MemoizedRemainder();
      RemainderSign(x.neg, x.Magnitude(), d.neg, d.Magnitude());
      if x.neg && r.used > 0 {
        r := Negate(r);
      } else {
        ZeroIffUnused(r);
      }
    }

    /** Undoes the normalizing shift; no bits are lost. */
    static method UnshiftRemainder(x: BigInt, n: nat, ghost value: int) returns (r: BigInt)
      requires x.Valid() && !x.neg && 0 < n < 16 && value >= 0
      requires x.Value() == Times(Pow2(n), value)
      ensures r.Valid() && !r.neg && r.Value() == value
    {
      hide *;
      ValueIs(x);
      ZeroIffUnused(x);
      if x.used == 0 {
        NoValue(Pow2(n), value);
        return x;
      }
      var length := x.used - n / 16;
      var digits := new Digit[length](_ => 0);
      ShiftRight(x.digits, x.used, n, digits);
      assert x.digits[n / 16..x.used] == x.digits[..x.used];
      assert n % 16 == n && n / 16 == 0;
      ExactShift(Pow2(n), value, Val(digits[..length]), x.digits[n / 16] as int % Pow2(n));
      r := Make(false, digits, length);
      ValueIs(r);
    }

    static lemma NoValue(p: int, value: int)
      requires p >= 1 && value >= 0 && Times(p, value) == 0
      ensures value == 0
    {
      if value > 0 { MulMono(1, value, p); }
    }

    static lemma ExactShift(p: int, value: int, v: int, lost: int)
      requires p >= 1 && 0 <= lost < p && Times(p, value) == Times(p, v) + lost
      ensures v == value && lost == 0
    {
      DivModUnique(p, 0, value, lost, v);
    }

    static lemma SmallDividend(x: BigInt, d: BigInt)
      requires x.Valid() && d.Valid() && x.Magnitude() < d.Magnitude()
      ensures d.Value() != 0 && TruncQuot(x.Value(), d.Value()) == 0 && TruncRem(x.Value(), d.Value()) == x.Value()
    {
      hide Val;
      var xm, dm := x.Magnitude(), d.Magnitude();
      DivModUnique(dm, xm, 0, xm % dm, xm / dm);
    }

    static lemma QuotientSign(xn: bool, xm: int, dn: bool, dm: int)
      requires xm >= 0 && dm > 0 && (xm == 0 ==> !xn)
      ensures TruncQuot(if xn then -xm else xm, if dn then -dm else dm) == if xn != dn then -(xm / dm) else xm / dm
    {}

    static lemma RemainderSign(xn: bool, xm: int, dn: bool, dm: int)
      requires xm >= 0 && dm > 0 && (xm == 0 ==> !xn)
      ensures TruncRem(if xn then -xm else xm, if dn then -dm else dm) == if xn then -(xm % dm) else xm % dm
    {}

    /** A number below 65536 uses at most one digit, a larger one at least two. */
    static lemma UsedBySize(x: BigInt)
      requires x.Valid()
      ensures x.Magnitude() < 65536 <==> x.used <= 1
      ensures x.used == 1 ==> x.Magnitude() == x.digits[0]
      ensures x.used == 0 ==> x.Magnitude() == 0
    {
      ZeroDigits();
      var s := x.digits[..x.used];
      if x.used == 0 {
        assert s == [];
      } else if x.used == 1 {
        OneDigit(s);
      } else {
        ValTop(s);
        PowMono(1, x.used - 1);
      }
    }

    /** Decimal text: four digits at a time are divided off the low end and zero-padded. */
    method ToText(x: BigInt) returns (text: string)
      requires Valid() && x.Valid()
      modifies this
      ensures Valid()
      ensures text == SignedDecimal(x.Value())
      decreases x.used
    {
      hide Val;
      hide TruncQuot;
      hide TruncRem;
      hide HoldsDivision;
      hide Decimal;
      hide JoinReversed;
      hide Padded;
      UsedBySize(x);
      ZeroIffUnused(x);
      if x.used == 0 { return "0"; }
      if x.used == 1 {
        if x.neg { return "-" + Decimal(x.digits[0]); }
        return Decimal(x.digits[0]);
      }
      var chunks: seq<string> := [];
      var rest := x;
      if x.neg { rest := Negate(x); }
      ghost var v := x.Magnitude();
      assert Decimal(v) + "" == Decimal(v);
      NothingPushed();
      while rest.used > 1
        invariant Valid() && rest.Valid() && rest.Value() >= 1
        invariant Decimal(v) == Decimal(rest.Value()) + JoinReversed(chunks)
        decreases rest.Value()
      {
        ghost var before, text := rest.Value(), JoinReversed(chunks);
        UsedBySize(rest);
        UsedBySize(tenThousand);
        var digits := Remainder(rest, tenThousand);
        PositiveDivision(before);
        UsedBySize(digits);
        var p := ToText(digits);
        chunks := PushPadded(chunks, p, before % 10000);
        rest := Quotient(rest, tenThousand);
        MoveChunk(before, text, JoinReversed(chunks));
      }
      UsedBySize(rest);
      ZeroIffUnused(rest);
      Pushed(chunks, Decimal(rest.digits[0]));
      chunks := chunks + [Decimal(rest.digits[0])];
      if x.neg {
        Pushed(chunks, "-");
        chunks := chunks + ["-"];
      }
      text := JoinReversed(chunks);
    }

    static lemma MoveChunk(n: nat, text: string, longer: string)
      requires n >= 10000 && longer == Padded(n % 10000) + text
      ensures Decimal(n) + text == Decimal(n / 10000) + longer
    {
      hide *;
      ChunkOff(n);
      assert Decimal(n / 10000) + Padded(n % 10000) + text == Decimal(n / 10000) + (Padded(n % 10000) + text);
    }

    static lemma PositiveDivision(v: int)
      requires v >= 0
      ensures TruncRem(v, 10000) == v % 10000 && TruncQuot(v, 10000) == v / 10000
    {}

    /** Pushes a chunk and, when it is short, the zeros that go in front of it. */
    static method PushPadded(chunks: seq<string>, p: string, ghost n: nat) returns (r: seq<string>)
      requires n < 10000 && p == Decimal(n)
      ensures JoinReversed(r) == Padded(n) + JoinReversed(chunks)
    {
      hide Decimal;
      hide JoinReversed;
      Digits4Length(n);
      r := chunks + [p];
      Pushed(chunks, p);
      ghost var one := r;
      var o := |p|;
      if o == 1 { Pushed(r, "000"); r := r + ["000"]; assert "000" == Zeros(3); }
      if o == 2 { Pushed(r, "00"); r := r + ["00"]; assert "00" == Zeros(2); }
      if o == 3 { Pushed(r, "0"); r := r + ["0"]; assert "0" == Zeros(1); }
      if o == 4 { assert Zeros(0) + p == p; }
    }

    /** Parsing in progress: q holds the finished chunks, small the o characters after them. */
    static ghost predicate ReadSoFar(q: int, o: nat, small: int, s: string)
      requires AllDigits(s)
    {
      0 <= small < Pow10(o) && q * Pow10(o) + small == DecimalValue(s)
    }

    /** Reads a digit string four characters at a time. */
    method ParseDigits(s: string, neg: bool) returns (r: BigInt)
      requires Valid() && AllDigits(s)
      ensures r.Valid()
      ensures r.Value() == if neg then -DecimalValue(s) else DecimalValue(s)
    {
      hide Val;
      hide HoldsDivision;
      hide ReadSoFar;
      hide AllDigits;
      hide DecimalValue;
      var small, o := 0, 4 - |s| % 4;
      if o == 4 { o := 0; }
      ghost var o0, full := o, 0;
      DigitsOf(s);
      var q := FromInt(0);
      NothingRead(o);
      assert s[..0] == [];
      for i := 0 to |s|
        invariant q.Valid() && 0 <= o < 4 && o + 4 * full == o0 + i && small >= 0
        invariant AllDigits(s[..i]) && ReadSoFar(q.Value(), o, small, s[..i])
      {
        assert s[..i + 1] == s[..i] + [s[i]];
        q, o, small := ReadCharacter(q, tenThousand, o, small, s[..i], s[i]);
        full := full + if o == 0 then 1 else 0;
      }
      assert s[..|s|] == s;
      AllRead(q.Value(), small, s);
      if neg {
        r := Negate(q);
      } else {
        r := q;
      }
    }

    /** One character: a full chunk is moved into the number, which makes room for the next. */
    static method ReadCharacter(q: BigInt, base: BigInt, o: nat, small: nat, ghost s: string, c: char)
      returns (q': BigInt, o': nat, small': nat)
      requires q.Valid() && base.Valid() && base.Value() == 10000 && o < 4
      requires AllDigits(s) && IsDigit(c) && ReadSoFar(q.Value(), o, small, s)
      ensures o' == (if o == 3 then 0 else o + 1)
      ensures q'.Valid() && AllDigits(s + [c]) && ReadSoFar(q'.Value(), o', small', s + [c])
    {
      hide Val;
      hide ReadSoFar;
      hide AllDigits;
      OneMoreRead(q.Value(), o, small, s, c);
      q', o', small' := q, o + 1, small * 10 + DigitValue(c);
      if o' == 4 {
        FullChunk(q.Value(), small', s + [c]);
        q' := AppendChunk(q, base, small');
        small', o' := 0, 0;
      }
    }

    static lemma DigitsOf(s: string)
      requires AllDigits(s)
      ensures forall i :: 0 <= i < |s| ==> IsDigit(s[i])
      ensures forall i :: 0 <= i <= |s| ==> AllDigits(s[..i])
    {}

    static lemma NothingRead(o: nat)
      ensures AllDigits("") && ReadSoFar(0, o, 0, "")
    {}

    static lemma OneMoreRead(q: int, o: nat, small: int, s: string, c: char)
      requires AllDigits(s) && IsDigit(c) && ReadSoFar(q, o, small, s)
      ensures AllDigits(s + [c]) && 0 <= DigitValue(c) < 10
      ensures ReadSoFar(q, o + 1, small * 10 + DigitValue(c), s + [c])
    {
      assert (s + [c])[..|s|] == s;
      NextDigitValue(q, o, small, DigitValue(c));
    }

    static lemma FullChunk(q: int, small: int, s: string)
      requires AllDigits(s) && ReadSoFar(q, 4, small, s)
      ensures 0 <= small < 10000
      ensures ReadSoFar(q * 10000 + small, 0, 0, s)
    {
      assert Pow10(4) == 10000 && Pow10(0) == 1;
    }

    static lemma AllRead(q: int, small: int, s: string)
      requires AllDigits(s) && ReadSoFar(q, 0, small, s)
      ensures q == DecimalValue(s)
    {
      assert Pow10(0) == 1;
    }

    /** Moves a number up by one chunk and fills it. */
    static method AppendChunk(x: BigInt, base: BigInt, small: nat) returns (r: BigInt)
      requires x.Valid() && base.Valid() && small < 65536
      ensures r.Valid() && r.Value() == x.Value() * base.Value() + small
    {
      hide Val;
      r := Multiply(x, base);
      var low := FromInt(small);
      r := Plus(r, low);
    }

    static lemma NextDigitValue(q: int, o: nat, small: int, d: int)
      requires 0 <= small < Pow10(o) && 0 <= d < 10
      ensures q * Pow10(o + 1) + (small * 10 + d) == (q * Pow10(o) + small) * 10 + d
      ensures small * 10 + d < Pow10(o + 1)
    {
      assert q * (10 * Pow10(o)) == 10 * (q * Pow10(o));
    }

    /** Four hexadecimal characters, or fewer at the front, as one digit. */
    static method HexGroup(s: string, from: nat, count: nat) returns (r: nat)
      requires from + count <= |s| && count <= 4 && AllHex(s)
      ensures r < 65536 && r == HexValue(s[from..from + count])
    {
      hide HexValue;
      r := 0;
      NoHex();
      assert s[from..from] == [];
      for q := 0 to count
        invariant r == HexValue(s[from..from + q]) && r < HexPow(q)
      {
        HexSnoc(s[from..from + q], s[from + q]);
        assert s[from..from + q + 1] == s[from..from + q] + [s[from + q]];
        r := r * 16 + HexDigit(s[from + q]);
      }
    }

    /** Reads hexadecimal characters into digits, four to a digit, the odd ones first. */
    static method ParseHex(s: string, neg: bool) returns (r: BigInt)
      requires s != [] && AllHex(s)
      ensures r.Valid() && r.Value() == if neg then -HexValue(s) else HexValue(s)
    {
      hide Val, HexValue, BigInt.Valid, BigInt.Value, BigInt.Magnitude;
      var k := |s|;
      var j := (k + 3) / 4;
      var digits := new Digit[j](_ => 0);
      var m := j - 1;
      var pos := k - m * 4;
      var top := HexGroup(s, 0, pos);
      digits[m] := top;
      OneDigit(digits[m..]);
      assert digits[m..] == [top] && s[0..pos] == s[..pos];
      while m > 0
        invariant m < j && pos == k - 4 * m
        invariant Val(digits[m..]) == HexValue(s[..pos])
      {
        var group := HexGroup(s, pos, 4);
        ghost var above := digits[m..];
        digits[m - 1] := group;
        assert digits[m - 1..] == [group] + above;
        NextHexGroup(above, group, s, pos);
        m, pos := m - 1, pos + 4;
      }
      assert s[..k] == s && digits[0..] == digits[..j];
      r := Make(neg, digits, j);
    }

    static lemma NextHexGroup(above: seq<Digit>, group: Digit, s: string, pos: nat)
      requires pos + 4 <= |s| && AllHex(s) && Val(above) == HexValue(s[..pos]) && group == HexValue(s[pos..pos + 4])
      ensures Val([group] + above) == HexValue(s[..pos + 4])
    {
      hide Val, HexValue;
      ValCons(group, above);
      HexFour(s[..pos], s[pos..pos + 4]);
      assert s[..pos + 4] == s[..pos] + s[pos..pos + 4];
    }

    /** Reads a number: white space around it, a sign, then decimal digits or 0x and hexadecimal
        ones; nothing else is a number. */
    method Parse(s: string) returns (r: Option<BigInt>)
      requires Valid()
      ensures r.Some? <==> ReadNumber(s).Some?
      ensures r.Some? ==> r.value.Valid() && r.value.Value() == ReadNumber(s).value
    {
      hide Val;
      hide HoldsDivision;
      hide AllHex;
      hide AllDigits;
      hide DecimalValue;
      hide HexValue;
      hide Trim;
      if s == "" { EmptyText(); return None; }
      var t := Trim(s);
      var neg := t != [] && t[0] == '-';
      var body := Unsigned(t);
      if body != [] && AllDigits(body) {
        var v := ParseDigits(body, neg);
        return Some(v);
      }
      if IsHexLiteral(body) {
        var v := ParseHex(body[2..], neg);
        return Some(v);
      }
      return None;
    }

    /** Prints and reads back. */
    method PrintThenParse(x: BigInt) returns (r: Option<BigInt>)
      requires Valid() && x.Valid()
      modifies this
      ensures Valid() && r.Some? && r.value.Valid() && r.value.Value() == x.Value()
    {
      var text := ToText(x);
      PrintedTextReadsBack(x.Value());
      r := Parse(text);
    }
  }
}
