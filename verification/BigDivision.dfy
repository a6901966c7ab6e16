/** Long division on digit arrays: Knuth's Algorithm D, arranged so that adding a multiple of the
    divisor's complement leaves the quotient digit on top of the new remainder. */
module BigDivision {
  import opened DigitArithmetic
  import opened DigitRoutines

  /** Number of bits of n. */
  function BitLength(n: nat): nat {
    if n == 0 then 0 else 1 + BitLength(n / 2)
  }

  lemma {:induction false} BitLengthBounds(n: nat)
    requires n > 0
    ensures BitLength(n) > 0 && Pow2(BitLength(n) - 1) <= n < Pow2(BitLength(n))
  {
    if n == 1 {
      assert BitLength(1) == 1 + BitLength(0);
    } else {
      BitLengthBounds(n / 2);
      assert Pow2(BitLength(n) - 1) == 2 * Pow2(BitLength(n / 2) - 1);
    }
  }

  /** The shift that brings a nonzero digit's top bit to bit 15. */
  lemma NormalizingShift(d: Digit)
    requires d > 0
    ensures BitLength(d) <= 16
    ensures 32768 <= Times(Pow2(16 - BitLength(d)), d) < 65536
  {
    BitLengthBounds(d);
    var n := BitLength(d);
    Pow2Sixteen();
    if n > 16 { Pow2Mono(16, n - 1); }
    Pow2Split(n);
    var p := Pow2(16 - n);
    assert Pow2(n) == 2 * Pow2(n - 1);
    Halve(Pow2(n - 1), p);
    MulMono(Pow2(n - 1), d, p);
    MulStrict(d, Pow2(n), p);
    assert p * d == d * p && p * Pow2(n) == Pow2(n) * p;
  }

  lemma Pow2Sixteen()
    ensures Pow2(16) == 65536
  {
    Pow2Split(16);
    TimesIs(Pow2(16), Pow2(0));
  }

  lemma Halve(a: int, p: int)
    requires Times(2 * a, p) == 65536
    ensures a * p == 32768
  {
    assert (2 * a) * p == 2 * (a * p);
  }

  lemma {:induction false} Pow2Mono(m: nat, n: nat)
    requires m <= n
    ensures Pow2(m) <= Pow2(n)
  {
    if m < n { Pow2Mono(m, n - 1); }
  }

  /** The guess is never below the true quotient digit and at most two above it. */
  lemma EstimateIsClose(top: Digit, w: int, window: int, divisor: int, p: int)
    requires top >= 32768 && p >= 1 && 0 <= w
    requires top * p <= divisor < (top + 1) * p
    requires w * p <= window < (w + 1) * p
    requires window < 65536 * divisor
    ensures window < Times(EstimatedDigit(top, w) + 1, divisor)
    ensures Times(EstimatedDigit(top, w) - 2, divisor) <= window
  {
    hide *;
    var g, d := w / top, EstimatedDigit(top, w);
    NeverBelow(top, w, g, window, divisor, p);
    EstimateIs(top, w);
    if d < g {
      AtMostTwoAbove(top, w, d, window, divisor, p);
      TimesIs(65536, divisor);
    } else {
      AtMostTwoAbove(top, w, g, window, divisor, p);
    }
  }

  lemma EstimateIs(top: Digit, w: int)
    requires top >= 1 && w >= 0
    ensures EstimatedDigit(top, w) as int == if w / top > 65535 then 65535 else w / top
    ensures w / top >= 0
    ensures Times(top, w / top) <= w < Times(top, w / top + 1)
    ensures EstimatedDigit(top, w) as int < w / top ==> Times(top, EstimatedDigit(top, w)) <= w
  {
    var g := w / top;
    assert w == top * g + w % top;
    if g > 65535 { MulMono(65535, g, top); }
  }

  lemma NeverBelow(top: int, w: int, g: int, window: int, divisor: int, p: int)
    requires top >= 1 && p >= 1 && w >= 0 && g == w / top
    requires top * p <= divisor && window < (w + 1) * p
    ensures window < Times(g + 1, divisor)
  {
    assert w == top * g + w % top;
    assert g >= 0;
    assert w + 1 <= top * (g + 1);
    MulMono(w + 1, top * (g + 1), p);
    MulMono(top * p, divisor, g + 1);
    assert (top * (g + 1)) * p == (top * p) * (g + 1);
  }

  lemma AtMostTwoAbove(top: int, w: int, d: int, window: int, divisor: int, p: int)
    requires 32768 <= top && p >= 1 && 0 <= d <= 65535
    requires Times(top, d) <= w && w * p <= window
    requires top * p <= divisor < (top + 1) * p
    ensures Times(d - 2, divisor) <= window
  {
    MulMono(d * top, w, p);
    assert (d * top) * p == d * (top * p);
    MulMono(divisor, (top + 1) * p, d);
    assert ((top + 1) * p) * d == d * (top * p) + d * p;
    MulMono(d, 65535, p);
    MulMono(32768, top, p);
    assert divisor * d - 2 * divisor == (d - 2) * divisor;
  }

  lemma TimesOrder(x: int, y: int, p: int)
    requires p > 0
    ensures x < y <==> Times(x, p) < Times(y, p)
  {
    if x < y { MulStrict(x, y, p); } else { MulMono(y, x, p); }
  }

  /** Taking F << k off a digit string whose window holds at least F changes only the window. */
  lemma WindowSub(s: seq<Digit>, t: seq<Digit>, k: nat, len: nat, f: int)
    requires |s| == |t| && k + len <= |s|
    requires 0 <= f <= Val(s[k..k + len])
    requires Val(t) == Val(s) - Times(Pow(k), f)
    ensures t[..k] == s[..k] && t[k + len..] == s[k + len..]
    ensures Val(t[k..k + len]) == Val(s[k..k + len]) - f
  {
    hide *;
    Windows(s, k, len);
    Windows(t, k, len);
    WindowValues(s, t, k, len, f);
    ValInjective(t[..k], s[..k]);
    ValInjective(t[k + len..], s[k + len..]);
  }

  lemma WindowValues(s: seq<Digit>, t: seq<Digit>, k: nat, len: nat, f: int)
    requires |s| == |t| && k + len <= |s| && 0 <= f <= Val(s[k..k + len])
    requires Val(s[..k]) + Times(Pow(k), Val(s[k..])) - Times(Pow(k), f) == Val(t[..k]) + Times(Pow(k), Val(t[k..]))
    requires Val(s[k..]) == Val(s[k..k + len]) + Times(Pow(len), Val(s[k + len..]))
    requires Val(t[k..]) == Val(t[k..k + len]) + Times(Pow(len), Val(t[k + len..]))
    ensures Val(t[..k]) == Val(s[..k]) && Val(t[k + len..]) == Val(s[k + len..])
    ensures Val(t[k..k + len]) == Val(s[k..k + len]) - f
  {
    hide *;
    ValBound(s[..k]);
    ValBound(t[..k]);
    ValBound(s[k..k + len]);
    ValBound(t[k..k + len]);
    WindowInts(Pow(k), Pow(len), f, Val(s[..k]), Val(s[k..]), Val(s[k..k + len]), Val(s[k + len..]),
               Val(t[..k]), Val(t[k..]), Val(t[k..k + len]), Val(t[k + len..]));
  }

  lemma WindowInts(p: int, w: int, f: int, a: int, r: int, v: int, u: int, a': int, r': int, v': int, u': int)
    requires 0 <= a < p && 0 <= a' < p && 0 <= f <= v < w && 0 <= v' < w
    requires r == v + Times(w, u) && r' == v' + Times(w, u')
    requires a' + Times(p, r') == a + Times(p, r) - Times(p, f)
    ensures a' == a && v' == v - f && u' == u
  {
    assert p * (r - f) == p * r - p * f;
    DivModUnique(p, a', r', a, r - f);
    DivModUnique(w, v', u', v - f, u);
  }

  lemma Windows(s: seq<Digit>, k: nat, len: nat)
    requires k + len <= |s|
    ensures Val(s) == Val(s[..k]) + Times(Pow(k), Val(s[k..]))
    ensures Val(s[k..]) == Val(s[k..k + len]) + Times(Pow(len), Val(s[k + len..]))
  {
    hide *;
    ValSplit(s, k);
    ValSplit(s[k..], len);
    TimesIs(Pow(k), Val(s[k..]));
    TimesIs(Pow(len), Val(s[k..][len..]));
    assert s[k..][..len] == s[k..k + len];
    assert s[k..][len..] == s[k + len..];
  }

  /** With the window at window + d * (Pow(o) - D), its top digit tells whether d is too large. */
  lemma TopDigitTells(window: int, d: int, divisor: int, now: seq<Digit>)
    requires |now| > 0 && 0 < divisor < Pow(|now| - 1) && 0 <= window
    requires window < Times(d + 1, divisor)
    requires Val(now) == window + Times(d, Pow(|now| - 1) - divisor)
    ensures now[|now| - 1] as int < d <==> window < Times(d, divisor)
    ensures window >= Times(d, divisor) ==>
              now[|now| - 1] as int == d && Val(now[..|now| - 1]) == window - Times(d, divisor)
  {
    hide *;
    var o := |now| - 1;
    ValUnfold(now);
    ValBound(now[..o]);
    TopInts3(window, d, divisor, Val(now[..o]), now[o], Pow(o));
  }

  lemma TopInts3(window: int, d: int, divisor: int, low: int, top: int, p: int)
    requires 0 < divisor < p && 0 <= window < Times(d + 1, divisor) && 0 <= low < p
    requires low + top * p == window + Times(d, p - divisor)
    ensures top < d <==> window < Times(d, divisor)
    ensures window >= Times(d, divisor) ==> top == d && low == window - Times(d, divisor)
  {
    assert d * (p - divisor) == d * p - d * divisor;
    assert (d + 1) * divisor == d * divisor + divisor;
    var rest := window - d * divisor;
    assert low + p * top == rest + p * d;
    if rest >= 0 {
      DivModUnique(p, low, top, rest, d);
    } else if top >= d {
      MulMono(d, top, p);
    }
  }

  lemma PositiveFactor(window: int, d: int, divisor: int)
    requires 0 <= window < Times(d, divisor) && divisor > 0
    ensures d >= 1
  {
    if d <= 0 { MulMono(d, 0, divisor); }
  }

  lemma OneLess(window: int, d: int, c: int)
    requires 0 <= window && d >= 1 && c >= 0
    ensures window + Times(d, c) - c == window + Times(d - 1, c)
    ensures c <= window + Times(d, c)
  {
    MulMono(1, d, c);
    assert (d - 1) * c == d * c - c;
  }

  /** Subtracts the complement once from a window whose quotient digit was guessed too large. */
  method TakeBack(n: array<Digit>, h: nat, k: nat, e: nat, j: array<Digit>, i: nat, ghost window: int, d: int,
                  ghost divisor: int, ghost complement: int) returns (r: int)
    requires n != j && k < e < h <= n.Length && i <= j.Length && i <= h
    requires 0 < divisor < Pow(e - k) && complement == Pow(e - k) - divisor
    requires Val(j[..i]) == Times(Pow(k), complement)
    requires Val(n[k..e + 1]) == window + Times(d, complement)
    requires 0 <= window < Times(d, divisor)
    modifies n
    ensures r == d - 1 && r >= 0
    ensures Val(n[k..e + 1]) == window + Times(r, complement)
    ensures n[e] as int < r <==> window < Times(r, divisor)
    ensures window >= Times(r, divisor) ==> n[e] as int == r && Val(n[k..e]) == window - Times(r, divisor)
    ensures forall x :: 0 <= x < k || e + 1 <= x < n.Length ==> n[x] == old(n[x])
  {
    hide *;
    ghost var was := n[..h];
    PositiveFactor(window, d, divisor);
    OneLess(window, d, complement);
    assert was[k..k + (e + 1 - k)] == n[k..e + 1];
    WindowBelow(was, k, e + 1 - k, complement);
    Sub(n, h, j, i, n);
    WindowSub(was, n[..h], k, e + 1 - k, complement);
    assert n[..h][k..k + (e + 1 - k)] == n[k..e + 1];
    assert n[..h][..k] == n[..k] && n[..h][k + (e + 1 - k)..] == n[e + 1..h];
    forall x | 0 <= x < k || e + 1 <= x < n.Length
      ensures n[x] == old(n[x])
    {
      if x < k {
        assert n[x] == n[..k][x] == was[..k][x];
      } else if x < h {
        assert n[x] == n[e + 1..h][x - e - 1] == was[k + (e + 1 - k)..][x - e - 1];
      }
    }
    r := d - 1;
    TopDigitTells(window, r, divisor, n[k..e + 1]);
    assert n[k..e + 1][..e - k] == n[k..e];
  }

  lemma WindowBelow(s: seq<Digit>, k: nat, len: nat, f: int)
    requires k + len <= |s| && 0 <= f <= Val(s[k..k + len])
    ensures Times(Pow(k), f) <= Val(s)
  {
    hide Val;
    hide Pow;
    Windows(s, k, len);
    Nonneg(Pow(len), Val(s[k + len..]));
    MulMono(f, Val(s[k..]), Pow(k));
  }

  /** EstimateIsClose for the digits of the window itself. */
  lemma GuessIsClose(top: Digit, s: seq<Digit>, divisor: int)
    requires |s| >= 2 && top >= 32768
    requires Times(top, Pow(|s| - 2)) <= divisor < Times(top + 1, Pow(|s| - 2))
    requires Val(s) < Times(65536, divisor)
    ensures Val(s) < Times(EstimatedDigit(top, TopTwo(s)) + 1, divisor)
    ensures Times(EstimatedDigit(top, TopTwo(s)) - 2, divisor) <= Val(s)
  {
    hide *;
    var n := |s| - 2;
    var t := s[..n + 1];
    assert t[..n] == s[..n] && t[n] == s[n];
    ValUnfold(s);
    ValUnfold(t);
    ValBound(s[..n]);
    PowSucc(n);
    TopTwoIs(s);
    TopTwoInts(Val(s[..n]), s[n + 1], s[n], Pow(n), TopTwo(s));
    TimesIs(top, Pow(n));
    TimesIs(top + 1, Pow(n));
    TimesIs(65536, divisor);
    EstimateIsClose(top, TopTwo(s), Val(s), divisor, Pow(n));
  }

  function TopTwo(s: seq<Digit>): (w: int)
    requires |s| >= 2
    ensures w >= 0
  {
    s[|s| - 1] as int * 65536 + s[|s| - 2]
  }

  lemma TopTwoIs(s: seq<Digit>)
    requires |s| >= 2
    ensures TopTwo(s) == s[|s| - 1] as int * 65536 + s[|s| - 2]
  {}

  lemma TopTwoInts(low: int, hi: int, lo: int, p: int, w: int)
    requires 0 <= low < p && w == hi * 65536 + lo
    ensures w * p <= low + lo * p + hi * (65536 * p) < (w + 1) * p
  {
    assert hi * (65536 * p) == (hi * 65536) * p;
    assert (w + 1) * p == w * p + p;
  }

  /** The guessed multiple of the complement fits on top of the window. */
  lemma WindowFits(window: int, d: int, divisor: int, o: nat)
    requires 0 <= d <= 65535 && 0 < divisor < Pow(o)
    requires window < Times(d + 1, divisor)
    ensures window + Times(d, Pow(o) - divisor) < Pow(o + 1)
  {
    PowSucc(o);
    hide Pow;
    var p := Pow(o);
    assert d * (p - divisor) == d * p - d * divisor;
    assert (d + 1) * divisor == d * divisor + divisor;
    MulMono(d + 1, 65536, p);
  }

  /** One quotient digit: guess, add, and take the complement off again while the guess is too
      large. Only the window k..k + o + 1 of n changes; the quotient digit ends on top of it. */
  method DivideStep(top: Digit, n: array<Digit>, h: nat, k: nat, o: nat, f: array<Digit>, j: array<Digit>,
                    ghost divisor: int)
    returns (ghost corrections: nat)
    requires n != f && n != j && f != j && o >= 1
    requires k + o + 1 <= h <= n.Length && o <= f.Length && k + o <= j.Length
    requires top >= 32768 && Times(top, Pow(o - 1)) <= divisor < Times(top + 1, Pow(o - 1))
    requires 0 < divisor < Pow(o) && Val(f[..o]) == Pow(o) - divisor
    requires Val(n[k..k + o + 1]) < Times(65536, divisor)
    requires n[k + o] <= top
    modifies n, j
    ensures Val(old(n[k..k + o + 1])) == Times(n[k + o], divisor) + Val(n[k..k + o])
    ensures Val(n[k..k + o]) < divisor
    ensures forall i :: 0 <= i < k || k + o + 1 <= i < n.Length ==> n[i] == old(n[i])
    ensures corrections <= 2
  {
    hide *;
    var e := k + o;
    ghost var complement := Pow(o) - divisor;
    ghost var window := Val(n[k..e + 1]);
    var d: int := EstimateQuotientDigit(top, n, e);
    ghost var guess := d;
    GuessIsClose(top, n[k..e + 1], divisor);
    TopTwoIs(n[k..e + 1]);
    assert n[k..e + 1][o] == n[e] && n[k..e + 1][o - 1] == n[e - 1];
    assert f[0..0 + o] == f[..o];
    WindowFits(window, d, divisor, o);
    MulAdd(d, f, 0, n, k, o, e + 1);
    corrections := 0;
    TopDigitTells(window, d, divisor, n[k..e + 1]);
    assert n[k..e + 1][..o] == n[k..e];
    if n[e] as int < d {
      var i := ShiftDigitsLeft(f, o, k, j);
      d := TakeBack(n, h, k, e, j, i, window, d, divisor, complement);
      corrections := 1;
      while n[e] as int < d
        invariant 0 <= d && corrections == guess - d
        invariant Times(guess - 2, divisor) <= window < Times(d + 1, divisor)
        invariant corrections <= 2
        invariant Val(j[..i]) == Times(Pow(k), complement)
        invariant Val(n[k..e + 1]) == window + Times(d, complement)
        invariant n[e] as int < d <==> window < Times(d, divisor)
        invariant window >= Times(d, divisor) ==> n[e] as int == d && Val(n[k..e]) == window - Times(d, divisor)
        invariant forall i :: 0 <= i < k || k + o + 1 <= i < n.Length ==> n[i] == old(n[i])
        decreases d
      {
        TimesOrder(guess - 2, d, divisor);
        d := TakeBack(n, h, k, e, j, i, window, d, divisor, complement);
        corrections := corrections + 1;
      }
    }
    TimesSucc(d, divisor);
  }

  lemma TimesSucc(d: int, x: int)
    ensures Times(d + 1, x) == Times(d, x) + x
  {
    Distribute3(d, 1, 0, x);
  }

  /** Long division in progress: above `split` stands the quotient so far, below it what is left
      of the dividend, which is less than the divisor moved up by k digits. */
  ghost predicate DividedSoFar(dividend: int, divisor: int, n: seq<Digit>, split: nat, k: nat)
    requires split <= |n|
  {
    && dividend == Times(Times(Val(n[split..]), divisor), Pow(k)) + Val(n[..split])
    && Val(n[..split]) < Times(divisor, Pow(k))
  }

  /** Bringing down one digit leaves a window below 65536 divisors. */
  lemma BringDown(dividend: int, divisor: int, n: seq<Digit>, o: nat, k: nat)
    requires k >= 1 && k + o <= |n| && o >= 1
    requires DividedSoFar(dividend, divisor, n, k + o, k)
    ensures Val(n[k - 1..k + o]) < Times(65536, divisor)
  {
    assert Val(n[..k + o]) < Times(divisor, Pow(k));
    hide *;
    LowPart(n, k - 1, o + 1);
    assert n[k - 1..k - 1 + (o + 1)] == n[k - 1..k + o] && k - 1 + (o + 1) == k + o;
    PowSucc(k - 1);
    BringDownInts(divisor, Val(n[..k - 1]), Val(n[k - 1..k + o]), Pow(k - 1));
  }

  lemma BringDownInts(divisor: int, low: int, w: int, p: int)
    requires p >= 1 && low >= 0 && low + p * w < Times(divisor, 65536 * p)
    ensures w < Times(65536, divisor)
  {
    assert divisor * (65536 * p) == (65536 * divisor) * p;
    if w >= 65536 * divisor { MulMono(65536 * divisor, w, p); }
  }

  lemma StepInts(x: int, divisor: int, q: int, w: int, d: int, r: int, l: int, p: int)
    requires p > 0 && w == Times(d, divisor) + r && 0 <= r < divisor && 0 <= l < p
    requires x == Times(Times(q, divisor), 65536 * p) + (l + p * w)
    ensures x == Times(Times(d + 65536 * q, divisor), p) + (l + p * r)
    ensures l + p * r < Times(divisor, p)
  {
    var qd := q * divisor;
    assert p * (d * divisor + r) == p * (d * divisor) + p * r;
    assert (d + 65536 * q) * divisor == d * divisor + 65536 * qd;
    assert (d * divisor + 65536 * qd) * p == (d * divisor) * p + 65536 * (qd * p);
    assert qd * (65536 * p) == 65536 * (qd * p);
    MulMono(r + 1, divisor, p);
    assert (r + 1) * p == p * r + p;
  }

  /** A finished step moves the split down by one digit. */
  lemma StepDone(dividend: int, divisor: int, s: seq<Digit>, t: seq<Digit>, k: nat, o: nat)
    requires |s| == |t| && k + o + 1 <= |s|
    requires DividedSoFar(dividend, divisor, s, k + 1 + o, k + 1)
    requires t[..k] == s[..k] && t[k + o + 1..] == s[k + o + 1..]
    requires Val(s[k..k + o + 1]) == Times(t[k + o], divisor) + Val(t[k..k + o])
    requires Val(t[k..k + o]) < divisor
    ensures DividedSoFar(dividend, divisor, t, k + o, k)
  {
    assert dividend == Times(Times(Val(s[k + 1 + o..]), divisor), Pow(k + 1)) + Val(s[..k + 1 + o]);
    LowPart(s, k, o + 1);
    LowPart(t, k, o);
    assert t[k + o..] == [t[k + o]] + s[k + o + 1..];
    ValCons(t[k + o], s[k + o + 1..]);
    PowSucc(k);
    ValBound(s[..k]);
    StepInts(dividend, divisor, Val(s[k + o + 1..]), Val(s[k..k + o + 1]), t[k + o], Val(t[k..k + o]),
      Val(s[..k]), Pow(k));
    hide Val;
    hide Pow;
    hide Times;
  }

  lemma LowPart(s: seq<Digit>, k: nat, len: nat)
    requires k + len <= |s|
    ensures Val(s[..k + len]) == Val(s[..k]) + Pow(k) * Val(s[k..k + len])
  {
    hide *;
    ValSplit(s[..k + len], k);
    assert s[..k + len][..k] == s[..k] && s[..k + len][k..] == s[k..k + len];
  }

  /** The first quotient digit of a normalized division is 0 or 1. */
  lemma FirstDigit(x: seq<Digit>, divisor: int, k: nat, o: nat)
    requires |x| == k + o && o >= 1
    requires 32768 * Pow(o - 1) <= divisor
    ensures Val(x) < 2 * Times(divisor, Pow(k))
  {
    ValBound(x);
    PowAdd(o, k);
    PowSucc(o - 1);
    hide Val;
    hide Pow;
    MulMono(65536 * Pow(o - 1), 2 * divisor, Pow(k));
    assert (2 * divisor) * Pow(k) == 2 * (divisor * Pow(k));
  }

  lemma StartDone(x: seq<Digit>, t: seq<Digit>, divisor: int, k: nat, m: nat, one: bool)
    requires |x| == m && |t| == m + 1 && t[m] == (if one then 1 else 0)
    requires one ==> Val(t[..m]) == Val(x) - Times(divisor, Pow(k))
    requires !one ==> t[..m] == x
    requires Val(t[..m]) < Times(divisor, Pow(k))
    ensures DividedSoFar(Val(x), divisor, t, m, k)
  {
    OneDigit(t[m..]);
    TimesIs(1, divisor);
    TimesZero(divisor);
    TimesZero(Pow(k));
    hide Times;
    hide Val;
    hide Pow;
  }

  lemma OneDigit(s: seq<Digit>)
    requires |s| == 1
    ensures Val(s) == s[0]
  {
    ZeroDigits();
    assert s == [] + [s[0]];
    ValSnoc([], s[0]);
  }

  /** Divides the m digits of n by the o digits of p, whose top bit is set. Afterwards the low o
      digits of n are the remainder and the m + 1 - o digits above them the quotient. */
  method LongDivision(n: array<Digit>, m: nat, p: array<Digit>, o: nat)
    requires n != p && 1 <= o <= m < n.Length && o <= p.Length && p[o - 1] >= 32768
    modifies n
    ensures Val(old(n[..m])) == Times(Val(n[o..m + 1]), Val(p[..o])) + Val(n[..o])
    ensures Val(n[..o]) < Val(p[..o])
  {
    hide *;
    ghost var x, divisor := n[..m], Val(p[..o]);
    var top, k, h := p[o - 1], m - o, m + 1;
    DivisorBounds(p[..o]);
    assert p[..o][o - 1] == top;
    var j := new Digit[m](_ => 0);
    var i := ShiftDigitsLeft(p, o, k, j);
    FirstDigit(x, divisor, k, o);
    SwapTimes(Pow(k), divisor);
    var order := Compare(n, m, j, i);
    if order >= 0 {
      n[m] := 1;
      TakeFirst(x, n[..h], j, i, divisor, k);
      Sub(n, h, j, i, n);
      FirstTaken(x, n[..h], divisor, k, m);
      StartDone(x, n[..h], divisor, k, m, true);
    } else {
      n[m] := 0;
      assert n[..h][..m] == x;
      StartDone(x, n[..h], divisor, k, m, false);
    }
    var f := Complement(p, o);
    while k > 0
      invariant 0 <= k <= m - o
      invariant Val(f[..o]) == Pow(o) - divisor
      invariant DividedSoFar(Val(x), divisor, n[..h], k + o, k)
    {
      k := k - 1;
      NextDigit(top, n, h, k, o, f, j, Val(x), divisor);
    }
    assert n[..h][o..] == n[o..m + 1] && n[..h][..o] == n[..o];
    DivisionDone(Val(x), divisor, n[..h], o);
  }

  /** Brings down one digit of the dividend and finds its quotient digit. */
  method NextDigit(top: Digit, n: array<Digit>, h: nat, k: nat, o: nat, f: array<Digit>, j: array<Digit>,
                   ghost x: int, ghost divisor: int)
    requires n != f && n != j && f != j && o >= 1
    requires k + o + 1 <= h <= n.Length && o <= f.Length && k + o <= j.Length
    requires top >= 32768 && Times(top, Pow(o - 1)) <= divisor < Times(top as int + 1, Pow(o - 1))
    requires 0 < divisor < Pow(o) && Val(f[..o]) == Pow(o) - divisor
    requires DividedSoFar(x, divisor, n[..h], k + 1 + o, k + 1)
    modifies n, j
    ensures DividedSoFar(x, divisor, n[..h], k + o, k)
  {
    hide *;
    ghost var was := n[..h];
    BringDown(x, divisor, was, o, k + 1);
    assert was[k + 1 - 1..k + 1 + o] == was[k..k + o + 1] == n[k..k + o + 1];
    TopBounded(was[k..k + o + 1], divisor, top);
    ghost var corrections := DivideStep(top, n, h, k, o, f, j, divisor);
    ghost var now := n[..h];
    assert forall i :: 0 <= i < k || k + o + 1 <= i < h ==> now[i] == was[i];
    SameOutside(was, now, k, k + o + 1);
    assert now[k..k + o] == n[k..k + o];
    StepDone(x, divisor, was, now, k, o);
  }

  lemma SameOutside(s: seq<Digit>, t: seq<Digit>, lo: nat, hi: nat)
    requires |s| == |t| && lo <= hi <= |s|
    requires forall i :: 0 <= i < lo || hi <= i < |s| ==> t[i] == s[i]
    ensures t[..lo] == s[..lo] && t[hi..] == s[hi..]
  {}

  lemma SwapTimes(x: int, y: int)
    ensures Times(x, y) == Times(y, x)
  {}

  lemma DivisionDone(x: int, divisor: int, n: seq<Digit>, o: nat)
    requires o <= |n| && DividedSoFar(x, divisor, n, o, 0)
    ensures x == Times(Val(n[o..]), divisor) + Val(n[..o]) && Val(n[..o]) < divisor
  {
    hide Val;
    assert Pow(0) == 1;
  }

  lemma DivisorBounds(p: seq<Digit>)
    requires |p| >= 1 && p[|p| - 1] >= 32768
    ensures Times(p[|p| - 1], Pow(|p| - 1)) <= Val(p) < Times(p[|p| - 1] as int + 1, Pow(|p| - 1))
    ensures 0 < Val(p) < Pow(|p|) && 32768 * Pow(|p| - 1) <= Val(p)
  {
    var o := |p| - 1;
    ValUnfold(p);
    ValBound(p);
    ValBound(p[..o]);
    TimesSucc(p[o], Pow(o));
    MulMono(32768, p[o], Pow(o));
  }

  /** The window's top digit does not exceed the divisor's. */
  lemma TopBounded(s: seq<Digit>, divisor: int, top: Digit)
    requires |s| >= 2 && Val(s) < Times(65536, divisor)
    requires divisor < Times(top as int + 1, Pow(|s| - 2))
    ensures s[|s| - 1] <= top
  {
    hide *;
    var o := |s| - 1;
    ValUnfold(s);
    PowSucc(o - 1);
    TopOfQuotient(s[o], top, Pow(o - 1), Val(s), divisor);
  }

  lemma TopOfQuotient(digit: int, top: int, p: int, v: int, divisor: int)
    requires p >= 1 && v >= digit * (65536 * p) && v < Times(65536, divisor) && divisor < Times(top + 1, p)
    ensures digit <= top
  {
    assert digit * (65536 * p) == 65536 * (digit * p);
    if digit > top { MulMono(top + 1, digit, p); }
  }

  /** The complement Pow(o) - p, built by subtracting from a one with o zeros. */
  method Complement(p: array<Digit>, o: nat) returns (f: array<Digit>)
    requires 1 <= o <= p.Length && 0 < Val(p[..o])
    ensures fresh(f) && f.Length == o + 2
    ensures Val(f[..o]) == Pow(o) - Val(p[..o])
  {
    hide *;
    f := new Digit[o + 2](_ => 0);
    f[o] := 1;
    ValZeros(f[..o]);
    ValSnoc(f[..o], 1);
    assert f[..o + 1] == f[..o] + [1];
    ValBound(p[..o]);
    Sub(f, o + 1, p, o, f);
    ValUnfold(f[..o + 1]);
    assert f[..o + 1][..o] == f[..o];
    if f[o] != 0 { MulMono(1, f[o], Pow(o)); }
  }

  lemma TakeFirst(x: seq<Digit>, t: seq<Digit>, j: array<Digit>, i: nat, divisor: int, k: nat)
    requires i <= j.Length && |t| == |x| + 1 && t[..|x|] == x && t[|x|] == 1
    requires Val(j[..i]) == Times(Pow(k), divisor) <= Val(x)
    ensures Val(t) == Val(x) + Pow(|x|) && Val(j[..i]) <= Val(t)
  {
    ValUnfold(t);
  }

  lemma FirstTaken(x: seq<Digit>, t: seq<Digit>, divisor: int, k: nat, m: nat)
    requires |x| == m && |t| == m + 1
    requires Val(t) == Val(x) + Pow(m) - Times(divisor, Pow(k))
    requires 0 <= Times(divisor, Pow(k)) <= Val(x) < 2 * Times(divisor, Pow(k))
    ensures t[m] == 1 && Val(t[..m]) == Val(x) - Times(divisor, Pow(k)) < Times(divisor, Pow(k))
  {
    ValUnfold(t);
    ValBound(x);
    ValBound(t[..m]);
    hide Val;
    hide Pow;
    DivModUnique(Pow(m), Val(t[..m]), t[m], Val(x) - Times(divisor, Pow(k)), 1);
  }
}
