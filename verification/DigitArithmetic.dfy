/** Little-endian base-65536 digit sequences: their value, and the laws the in-place digit
    routines of the big-integer type rest on. */
module DigitArithmetic {
  /** An element of a Uint16Array. Writing a value outside this range would truncate it, so the
      subset type makes "nothing is ever truncated" a proof obligation of every store. */
  type Digit = d: int | 0 <= d < 65536

  function Pow(n: nat): (p: int)
    ensures p >= 1
  {
    if n == 0 then 1 else 65536 * Pow(n - 1)
  }

  /** The number a digit sequence stands for; the last digit is the most significant. */
  function Val(s: seq<Digit>): (v: int)
    ensures v >= 0
  {
    if s == [] then 0
    else
      Nonneg(s[|s| - 1], Pow(|s| - 1));
      Val(s[..|s| - 1]) + s[|s| - 1] * Pow(|s| - 1)
  }

  lemma Nonneg(x: int, y: int)
    requires x >= 0 && y >= 0
    ensures x * y >= 0
  {}

  lemma {:induction false} PowAdd(m: nat, n: nat)
    ensures Pow(m + n) == Pow(m) * Pow(n)
    decreases m
  {
    if m == 0 {
    } else {
      PowAdd(m - 1, n);
      assert 65536 * (Pow(m - 1) * Pow(n)) == (65536 * Pow(m - 1)) * Pow(n);
    }
  }

  lemma ZeroDigits()
    ensures Val([]) == 0 && Pow(0) == 1 && Pow(1) == 65536
  {
    assert Pow(1) == 65536 * Pow(0);
  }

  lemma ValSnoc(s: seq<Digit>, d: Digit)
    ensures Val(s + [d]) == Val(s) + d * Pow(|s|)
  {
    assert (s + [d])[..|s|] == s;
  }

  lemma ValUnfold(s: seq<Digit>)
    requires s != []
    ensures Val(s) == Val(s[..|s| - 1]) + s[|s| - 1] * Pow(|s| - 1)
  {}

  /** Reading the value off two halves of the digits. */
  lemma {:induction false} ValSplit(s: seq<Digit>, k: nat)
    requires k <= |s|
    ensures Val(s) == Val(s[..k]) + Pow(k) * Val(s[k..])
    decreases |s|
  {
    hide *;
    var n := |s| - 1;
    if k == |s| {
      assert s[..k] == s;
      ZeroDigits();
      assert s[k..] == [];
    } else {
      var t := s[..n];
      ValSplit(t, k);
      assert t[..k] == s[..k];
      assert s[k..] == t[k..] + [s[n]];
      ValSnoc(t[k..], s[n]);
      ValUnfold(s);
      PowAdd(k, n - k);
      MulAssoc(Pow(k), Val(t[k..]), s[n], Pow(n - k));
    }
  }

  lemma MulAssoc(p: int, v: int, d: int, q: int)
    ensures p * (v + d * q) == p * v + d * (p * q)
  {
    assert p * (d * q) == d * (p * q);
  }

  lemma ValConcat(s: seq<Digit>, t: seq<Digit>)
    ensures Val(s + t) == Val(s) + Pow(|s|) * Val(t)
  {
    ValSplit(s + t, |s|);
    assert (s + t)[..|s|] == s && (s + t)[|s|..] == t;
  }

  lemma ValCons(d: Digit, s: seq<Digit>)
    ensures Val([d] + s) == d + 65536 * Val(s)
  {
    hide *;
    ZeroDigits();
    ValConcat([d], s);
    ValSnoc([], d);
    assert [] + [d] == [d];
  }

  lemma {:induction false} ValBound(s: seq<Digit>)
    ensures Val(s) < Pow(|s|)
  {
    if s != [] {
      var n := |s| - 1;
      ValBound(s[..n]);
      ValUnfold(s);
      MulMono(s[n], 65535, Pow(n));
    }
  }

  lemma MulMono(x: int, y: int, p: int)
    requires x <= y && p >= 0
    ensures x * p <= y * p
  {}

  lemma MulStrict(x: int, y: int, p: int)
    requires x < y && p > 0
    ensures x * p < y * p
  {}

  lemma {:induction false} ValZeros(s: seq<Digit>)
    requires forall i :: 0 <= i < |s| ==> s[i] == 0
    ensures Val(s) == 0
  {
    if s != [] { ValZeros(s[..|s| - 1]); }
  }

  /** Euclidean division is determined by its defining equation. */
  lemma DivModUnique(p: int, a: int, b: int, c: int, d: int)
    requires p > 0 && 0 <= a < p && 0 <= c < p
    requires a + p * b == c + p * d
    ensures a == c && b == d
  {
    if b < d {
      MulMono(b + 1, d, p);
    } else if d < b {
      MulMono(d + 1, b, p);
    }
  }

  /** Digit sequences of one length are determined by their value. */
  lemma {:induction false} ValInjective(s: seq<Digit>, t: seq<Digit>)
    requires |s| == |t| && Val(s) == Val(t)
    ensures s == t
  {
    hide *;
    if s == [] {
    } else {
      var n := |s| - 1;
      ValUnfold(s);
      ValUnfold(t);
      ValBound(s[..n]);
      ValBound(t[..n]);
      DivModUnique(Pow(n), Val(s[..n]), s[n], Val(t[..n]), t[n]);
      ValInjective(s[..n], t[..n]);
      assert s == s[..n] + [s[n]];
      assert t == t[..n] + [t[n]];
    }
  }

  /** A sequence whose top digit is not zero is at least as large as the matching power. */
  lemma ValTop(s: seq<Digit>)
    requires s != [] && s[|s| - 1] != 0
    ensures Val(s) >= Pow(|s| - 1)
  {
    MulMono(1, s[|s| - 1], Pow(|s| - 1));
  }

  lemma {:induction false} PowMono(m: nat, n: nat)
    requires m <= n
    ensures Pow(m) <= Pow(n)
  {
    if m < n { PowMono(m, n - 1); }
  }

  /** Longer normalized digit sequences stand for larger numbers. */
  lemma LongerIsLarger(s: seq<Digit>, t: seq<Digit>)
    requires |s| < |t| && t[|t| - 1] != 0
    ensures Val(s) < Val(t)
  {
    ValBound(s);
    ValTop(t);
    PowMono(|s|, |t| - 1);
  }

  /** One column of a carry chain: the digit kept and the carry passed on. */
  lemma CarrySplit(x: int, p: int)
    ensures (x % 65536) * p + (x / 65536) * (65536 * p) == x * p
  {
    var q, r := x / 65536, x % 65536;
    assert x == 65536 * q + r;
    assert q * (65536 * p) == (65536 * q) * p;
    assert (65536 * q + r) * p == (65536 * q) * p + r * p;
  }

  /** A product of two unknowns. Proofs that need none of its laws keep it folded. */
  function Times(x: int, y: int): int { x * y }

  lemma TimesIs(x: int, y: int)
    ensures Times(x, y) == x * y
  {}

  lemma TimesZero(x: int)
    ensures Times(x, 0) == 0 && Times(0, x) == 0
  {}

  lemma ValOverZeros(zeros: seq<Digit>, s: seq<Digit>)
    requires Val(zeros) == 0
    ensures Val(zeros + s) == Times(Pow(|zeros|), Val(s))
  {
    ValConcat(zeros, s);
  }

  lemma Distribute3(a: int, b: int, c: int, p: int)
    ensures (a + b + c) * p == a * p + b * p + c * p
  {}

  function Pow2(n: nat): (p: int)
    ensures p >= 1
  {
    if n == 0 then 1 else 2 * Pow2(n - 1)
  }
}
