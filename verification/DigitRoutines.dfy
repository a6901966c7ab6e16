/** The digit routines that work in place on Uint16Arrays. Shifts and masks by powers of two are
    written with the division and remainder they compute. */
module DigitRoutines {
  import opened DigitArithmetic

  /** Drops leading zero digits. */
  method Normalize(used: nat, digits: array<Digit>) returns (n: nat)
    requires used <= digits.Length
    ensures n <= used && (n > 0 ==> digits[n - 1] != 0)
    ensures Val(digits[..n]) == Val(digits[..used])
  {
    n := used;
    while n > 0 && digits[n - 1] == 0
      invariant n <= used
      invariant Val(digits[..n]) == Val(digits[..used])
    {
      assert digits[..n] == digits[..n - 1] + [0];
      ValSnoc(digits[..n - 1], 0);
      n := n - 1;
    }
  }

  /** Copies digits[from..to] into a fresh zero-filled array of the given length. */
  method CloneDigits(digits: array<Digit>, from: nat, to: nat, length: nat) returns (r: array<Digit>)
    requires from <= to <= digits.Length && to - from <= length
    ensures fresh(r) && r.Length == length
    ensures r[..to - from] == digits[from..to]
    ensures forall i :: to - from <= i < length ==> r[i] == 0
  {
    r := new Digit[length](_ => 0);
    var n := to - from;
    for s := 0 to n
      invariant r[..s] == digits[from..from + s]
      invariant forall i :: s <= i < length ==> r[i] == 0
    {
      r[s] := digits[from + s];
      assert r[..s + 1] == r[..s] + [r[s]];
    }
  }

  /** Multiplies places Pow(places): moves the digits up and zero-fills below. */
  method ShiftDigitsLeft(digits: array<Digit>, used: nat, places: nat, result: array<Digit>) returns (n: nat)
    requires used <= digits.Length && used + places <= result.Length && digits != result
    modifies result
    ensures used == 0 ==> n == 0 && result[..] == old(result[..])
    ensures used > 0 ==> n == used + places
    ensures Val(result[..n]) == Times(Pow(places), Val(digits[..used]))
    ensures used > 0 ==> result[places..n] == digits[..used]
    ensures result[n..] == old(result[n..])
  {
    hide *;
    if used == 0 {
      ZeroDigits();
      assert result[..0] == [] && digits[..0] == [];
      TimesZero(Pow(places));
      return 0;
    }
    var s := used - 1;
    while s >= 0
      invariant -1 <= s < used
      invariant forall i :: s < i < used ==> result[i + places] == digits[i]
      invariant forall i :: used + places <= i < result.Length ==> result[i] == old(result[i])
    {
      result[s + places] := digits[s];
      s := s - 1;
    }
    s := places - 1;
    while s >= 0
      invariant -1 <= s < places
      invariant forall i :: s < i < places ==> result[i] == 0
      invariant forall i :: 0 <= i < used ==> result[i + places] == digits[i]
      invariant forall i :: used + places <= i < result.Length ==> result[i] == old(result[i])
    {
      result[s] := 0;
      s := s - 1;
    }
    n := used + places;
    ghost var hi := result[places..n];
    assert hi == digits[..used] by {
      assert forall i :: 0 <= i < used ==> hi[i] == result[i + places];
    }
    assert result[..n] == result[..places] + hi;
    ValZeros(result[..places]);
    ValOverZeros(result[..places], hi);
  }

  /** The bits a left shift moves into the next digit up. */
  function HighBits(p: int, big: int): int
    requires big > 0
  {
    p / big
  }

  /** The bits a left shift keeps, moved up by the shift. */
  function LowBits(p: int, small: int, big: int): int
    requires big > 0
  {
    (p % big) * small
  }

  /** The two parts a digit is cut into by a shift of 0 < m < 16 bits fit beside each other. */
  lemma CutDigit(p: Digit, small: int, big: int)
    requires small > 0 && big > 0 && Times(small, big) == 65536
    ensures 0 <= p / big < small
    ensures 0 <= (p % big) * small <= 65536 - small
    ensures (p % big) * small + 65536 * (p / big) == small * p
  {
    var q, r := p / big, p % big;
    assert p == big * q + r;
    if q >= small { MulMono(small, q, big); }
    MulMono(r, big - 1, small);
    Distribute3(big, -1, 0, small);
    Distribute3(big * q, r, 0, small);
    assert (big * q) * small == (small * big) * q;
  }

  lemma {:induction false} Pow2Split(m: nat)
    requires m <= 16
    ensures Times(Pow2(m), Pow2(16 - m)) == Times(Pow2(16 - m), Pow2(m)) == 65536
    ensures Pow2(m) <= 65536
    decreases 16 - m
  {
    if m == 16 {
      assert Pow2(16) == 65536 by {
        assert Pow2(4) == 16; assert Pow2(8) == 256; assert Pow2(12) == 4096;
      }
    } else {
      Pow2Split(m + 1);
      assert Pow2(16 - m) == 2 * Pow2(15 - m);
      assert Pow2(m + 1) == 2 * Pow2(m);
      Swap2(Pow2(m), Pow2(15 - m));
    }
  }

  lemma Swap2(a: int, b: int)
    ensures a * (2 * b) == (2 * a) * b
  {}

  /** Left shift in progress: `pending` are the low bits still to be stored below `done`. */
  ghost predicate ShiftedSoFar(pending: int, done: seq<Digit>, source: seq<Digit>, small: int) {
    pending + 65536 * Val(done) == Times(small, Val(source))
  }

  lemma ShiftLeftColumn(pending: int, done: seq<Digit>, source: seq<Digit>, p: Digit, small: int, big: int)
    requires small > 0 && big > 0 && Times(small, big) == 65536 && 0 <= pending <= 65536 - small
    requires ShiftedSoFar(pending, done, source, small)
    ensures 0 <= HighBits(p, big) + pending < 65536
    ensures 0 <= LowBits(p, small, big) <= 65536 - small
    ensures ShiftedSoFar(LowBits(p, small, big), [HighBits(p, big) + pending] + done, [p] + source, small)
  {
    assert pending + 65536 * Val(done) == small * Val(source);
    CutDigit(p, small, big);
    ValCons(HighBits(p, big) + pending, done);
    ValCons(p, source);
    MulAssoc(small, p, 65536, Val(source));
    assert Val([HighBits(p, big) + pending] + done) == HighBits(p, big) + pending + 65536 * Val(done);
    assert small * Val([p] + source) == small * p + 65536 * (small * Val(source));
    assert LowBits(p, small, big) + 65536 * (HighBits(p, big) + pending + 65536 * Val(done))
        == small * p + 65536 * (small * Val(source));
  }

  /** Shifts by 16 * shift + m bits, 0 < m < 16; result digits below shift are untouched. */
  method ShiftBitsLeft(digits: array<Digit>, used: nat, shift: nat, m: nat, result: array<Digit>)
    requires 0 < m < 16 && digits != result
    requires used <= digits.Length && used + shift + 1 <= result.Length
    modifies result
    ensures Val(result[shift..used + shift + 1]) == Times(Pow2(m), Val(digits[..used]))
    ensures forall i :: 0 <= i < shift || used + shift + 1 <= i < result.Length ==> result[i] == old(result[i])
  {
    hide *;
    var s, q: int := used - 1, 0;
    var small, big := Pow2(m), Pow2(16 - m);
    Pow2Split(m);
    assert result[used + shift + 1..used + shift + 1] == [] && digits[used..used] == [];
    NothingShifted(small);
    while s >= 0
      invariant -1 <= s < used
      invariant 0 <= q <= 65536 - small
      invariant ShiftedSoFar(q, result[s + shift + 2..used + shift + 1], digits[s + 1..used], small)
      invariant forall i :: 0 <= i < shift || used + shift + 1 <= i < result.Length ==> result[i] == old(result[i])
    {
      var p := digits[s];
      ghost var done := result[s + shift + 2..used + shift + 1];
      ShiftLeftColumn(q, done, digits[s + 1..used], p, small, big);
      result[s + shift + 1] := HighBits(p, big) + q;
      assert result[s + shift + 1..used + shift + 1] == [result[s + shift + 1]] + done;
      assert digits[s..used] == [p] + digits[s + 1..used];
      q := LowBits(p, small, big);
      s := s - 1;
    }
    assert s == -1 && digits[0..used] == digits[..used];
    ghost var done := result[shift + 1..used + shift + 1];
    assert ShiftedSoFar(q, done, digits[..used], small);
    result[shift] := q;
    assert result[shift..used + shift + 1] == [q as Digit] + done;
    ShiftLeftEnd(q, done, digits[..used], small);
  }

  lemma NothingShifted(small: int)
    ensures ShiftedSoFar(0, [], [], small)
  {}

  lemma ShiftLeftEnd(pending: Digit, done: seq<Digit>, source: seq<Digit>, small: int)
    requires ShiftedSoFar(pending, done, source, small)
    ensures Val([pending] + done) == Times(small, Val(source))
  {
    ValCons(pending, done);
  }

  /** Multiplies by 2 to the n and says how many digits the product takes. */
  method ShiftLeft(digits: array<Digit>, used: nat, n: nat, result: array<Digit>) returns (r: nat)
    requires digits != result && used <= digits.Length && used + n / 16 + 1 <= result.Length
    requires used > 0 && digits[used - 1] != 0
    modifies result
    ensures r == used + n / 16 || r == used + n / 16 + 1
    ensures result[r - 1] != 0
    ensures Val(result[..r]) == Times(Pow(n / 16), Times(Pow2(n % 16), Val(digits[..used])))
  {
    hide *;
    var shift := n / 16;
    if n % 16 == 0 {
      r := ShiftDigitsLeft(digits, used, shift, result);
      ZeroBits(Val(digits[..used]));
      assert result[r - 1] == result[shift..r][used - 1];
      return;
    }
    r := used + shift + 1;
    ShiftBitsLeft(digits, used, shift, n % 16, result);
    ghost var hi := result[shift..r];
    var q := shift - 1;
    while q >= 0
      invariant -1 <= q < shift
      invariant forall i :: shift <= i < r ==> result[i] == hi[i - shift]
      invariant forall i :: q < i < shift ==> result[i] == 0
    {
      result[q] := 0;
      q := q - 1;
    }
    ZerosBelow(result[..r], shift, hi);
    if result[r - 1] == 0 {
      TopDropped(result[..r], shift, hi, digits[..used], Pow2(n % 16));
      assert result[..r - 1] == result[..r][..r - 1] && result[r - 2] == result[..r][r - 2];
      r := r - 1;
    }
  }

  lemma ZerosBelow(all: seq<Digit>, shift: nat, hi: seq<Digit>)
    requires |all| == shift + |hi| && (forall i :: 0 <= i < shift ==> all[i] == 0)
    requires forall i :: shift <= i < |all| ==> all[i] == hi[i - shift]
    ensures Val(all) == Times(Pow(shift), Val(hi))
  {
    hide *;
    assert all == all[..shift] + hi;
    ValZeros(all[..shift]);
    ValOverZeros(all[..shift], hi);
  }

  /** A leading zero may be dropped, and then no other is left. */
  lemma TopDropped(all: seq<Digit>, shift: nat, hi: seq<Digit>, s: seq<Digit>, factor: int)
    requires s != [] && s[|s| - 1] != 0 && factor >= 1
    requires |hi| == |s| + 1 && |all| == shift + |hi| && all[|all| - 1] == 0
    requires forall i :: shift <= i < |all| ==> all[i] == hi[i - shift]
    requires Val(hi) == Times(factor, Val(s))
    ensures Val(all[..|all| - 1]) == Val(all) && all[|all| - 2] != 0
  {
    hide *;
    DropZero(all);
    DropZero(hi);
    ShiftedTop(s, hi[..|s|], factor);
    assert all[|all| - 2] == hi[|s| - 1] == hi[..|s|][|s| - 1];
  }

  lemma DropZero(s: seq<Digit>)
    requires s != [] && s[|s| - 1] == 0
    ensures Val(s[..|s| - 1]) == Val(s)
  {
    hide *;
    assert s == s[..|s| - 1] + [0];
    ValSnoc(s[..|s| - 1], 0);
  }

  lemma ZeroBits(v: int)
    ensures Times(Pow2(0), v) == v
  {}

  /** Shifting left never lowers the number of significant digits. */
  lemma ShiftedTop(s: seq<Digit>, t: seq<Digit>, factor: int)
    requires |s| == |t| > 0 && s[|s| - 1] != 0 && factor >= 1
    requires Val(t) == Times(factor, Val(s))
    ensures t[|t| - 1] != 0
  {
    hide Val;
    hide Pow;
    ValTop(s);
    MulMono(1, factor, Val(s));
    ValUnfold(t);
    ValBound(t[..|t| - 1]);
  }

  /** Right shift in progress: k are the bits carried into the next digit, low the bits lost. */
  ghost predicate ShiftedRight(source: seq<Digit>, done: seq<Digit>, k: int, big: int, low: int) {
    Val(source) == big * (Val(done) + k * Pow(|done|)) + low
  }

  /** Shifts right by n bits; the digits of the result are the quotient by 2 to the n. */
  method ShiftRight(digits: array<Digit>, used: nat, n: nat, result: array<Digit>)
    requires digits != result && n % 16 != 0
    requires n / 16 < used <= digits.Length && used - n / 16 <= result.Length
    modifies result
    ensures Val(digits[n / 16..used])
      == Times(Pow2(n % 16), Val(result[..used - n / 16])) + digits[n / 16] as int % Pow2(n % 16)
  {
    hide *;
    var o := n / 16;
    var big, small := Pow2(n % 16), Pow2(16 - n % 16);
    Pow2Split(n % 16);
    var low: Digit := digits[o];
    CutDigit(low, small, big);
    var k: int := low / big;
    var j := used - o - 1;
    ghost var lost := low as int % big;
    assert digits[o..o + 1] == [low] && result[..0] == [];
    ShiftRightStart(low, big);
    for r := 0 to j
      invariant 0 <= k < small
      invariant ShiftedRight(digits[o..o + r + 1], result[..r], k, big, lost)
    {
      var q := digits[r + o + 1];
      CutDigit(q, small, big);
      result[r] := (q % big) * small + k;
      ShiftRightColumn(result[..r], digits[o..o + r + 1], result[r], q, k, small, big, lost);
      assert result[..r + 1] == result[..r] + [result[r]];
      assert digits[o..o + r + 2] == digits[o..o + r + 1] + [q];
      k := q / big;
    }
    result[j] := k;
    ShiftRightEnd(digits[o..used], result[..j], k, big, lost);
    assert result[..j + 1] == result[..j] + [k as Digit];
  }

  lemma ShiftRightStart(low: Digit, big: int)
    requires big > 0
    ensures ShiftedRight([low], [], low / big, big, low as int % big)
  {
    ZeroDigits();
    ValSnoc([], low);
    assert [] + [low] == [low];
    assert low == big * (low / big) + low % big;
    assert (low / big) * Pow(0) == low / big;
  }

  lemma ShiftRightEnd(source: seq<Digit>, done: seq<Digit>, k: Digit, big: int, low: int)
    requires ShiftedRight(source, done, k, big, low)
    ensures Val(source) == Times(big, Val(done + [k])) + low
  {
    ValSnoc(done, k);
  }

  lemma ShiftRightColumn(e: seq<Digit>, a: seq<Digit>, ed: Digit, ad: Digit, k: int, small: int, big: int, low: int)
    requires |a| == |e| + 1 && small > 0 && big > 0 && Times(small, big) == 65536
    requires ed == (ad % big) * small + k
    requires ShiftedRight(a, e, k, big, low)
    ensures ShiftedRight(a + [ad], e + [ed], ad / big, big, low)
  {
    var p := Pow(|e|);
    assert Pow(|e| + 1) == 65536 * p;
    ValSnoc(a, ad);
    ValSnoc(e, ed);
    assert |e + [ed]| == |e| + 1;
    ShiftRightSubst(Val(a), Val(a + [ad]), Val(e), Val(e + [ed]), k, p, ad, ed, small, big, low);
    hide Val;
    hide Pow;
  }

  lemma ShiftRightSubst(a: int, a': int, v: int, v': int, k: int, p: int, ad: int, ed: int, small: int, big: int,
                        low: int)
    requires big > 0 && Times(small, big) == 65536 && ed == (ad % big) * small + k
    requires a == big * (v + k * p) + low
    requires a' == a + ad * (65536 * p) && v' == v + ed * p
    ensures a' == big * (v' + (ad / big) * (65536 * p)) + low
  {
    var q, r := ad / big, ad % big;
    assert ad == big * q + r;
    ShiftRightInts(v, k, p, q, r, small, big);
  }

  lemma ShiftRightInts(v: int, k: int, p: int, q: int, r: int, small: int, big: int)
    requires Times(small, big) == 65536
    ensures big * (v + k * p) + (big * q + r) * (65536 * p) == big * (v + (r * small + k) * p + q * (65536 * p))
  {
    var x := 65536 * p;
    assert (big * q + r) * x == big * (q * x) + r * x;
    assert big * ((r * small) * p) == r * ((small * big) * p);
    assert (r * small + k) * p == (r * small) * p + k * p;
    assert big * (v + (r * small) * p + k * p + q * x) == big * (v + k * p) + big * ((r * small) * p) + big * (q * x);
  }

  /** Sign of the difference of two digit strings, most significant digit first. */
  method Compare(a: array<Digit>, n: nat, c: array<Digit>, k: nat) returns (r: int)
    requires n <= a.Length && k <= c.Length
    requires n == k || ((n > 0 ==> a[n - 1] != 0) && (k > 0 ==> c[k - 1] != 0))
    ensures r < 0 <==> Val(a[..n]) < Val(c[..k])
    ensures r == 0 <==> Val(a[..n]) == Val(c[..k])
  {
    hide *;
    r := n - k;
    if r == 0 {
      var s := n - 1;
      while s >= 0
        invariant -1 <= s < n
        invariant forall i :: s < i < n ==> a[i] == c[i]
      {
        r := a[s] as int - c[s];
        if r != 0 {
          TopDigitDecides(a[..n], c[..n], s);
          return;
        }
        s := s - 1;
      }
      assert a[..n] == c[..n];
      r := 0;
    } else if r < 0 {
      LongerIsLarger(a[..n], c[..k]);
    } else {
      LongerIsLarger(c[..k], a[..n]);
    }
  }

  lemma TopInts(x: int, y: int, xd: int, yd: int, p: int)
    requires 0 <= x < p && 0 <= y < p && xd < yd
    ensures x + xd * p < y + yd * p
  {
    MulMono(xd + 1, yd, p);
  }

  lemma {:induction false} TopDigitDecides(a: seq<Digit>, c: seq<Digit>, s: nat)
    requires |a| == |c| && s < |a| && a[s] != c[s]
    requires forall i :: s < i < |a| ==> a[i] == c[i]
    ensures a[s] < c[s] <==> Val(a) < Val(c)
    ensures Val(a) != Val(c)
    decreases |a|
  {
    var n := |a| - 1;
    var a', c' := a[..n], c[..n];
    assert Val(a) == Val(a') + a[n] * Pow(n) && Val(c) == Val(c') + c[n] * Pow(n);
    hide *;
    if s == n {
      ValBound(a');
      ValBound(c');
      if a[n] < c[n] {
        TopInts(Val(a'), Val(c'), a[n], c[n], Pow(n));
      } else {
        TopInts(Val(c'), Val(a'), c[n], a[n], Pow(n));
      }
    } else {
      TopDigitDecides(a', c', s);
    }
  }

  /** result = a + c, where a has at least as many digits; the carry becomes digit n. */
  method Add(a: array<Digit>, n: nat, c: array<Digit>, k: nat, e: array<Digit>)
    requires k <= n <= a.Length && k <= c.Length && n < e.Length && a != e && c != e
    modifies e
    ensures Val(e[..n + 1]) == Val(a[..n]) + Val(c[..k])
  {
    hide *;
    var r: int := 0;
    ZeroDigits();
    assert e[..0] == [] && a[..0] == [] && c[..0] == [];
    for q := 0 to k
      invariant 0 <= r <= 1
      invariant Val(e[..q]) + r * Pow(q) == Val(a[..q]) + Val(c[..q])
    {
      r := r + a[q] + c[q];
      e[q] := r % 65536;
      AddColumn(e[..q], a[..q], c[..q], e[q], a[q], c[q], r);
      assert e[..q + 1] == e[..q] + [e[q]] && a[..q + 1] == a[..q] + [a[q]] && c[..q + 1] == c[..q] + [c[q]];
      r := r / 65536;
    }
    for q := k to n
      invariant 0 <= r <= 1
      invariant Val(e[..q]) + r * Pow(q) == Val(a[..q]) + Val(c[..k])
    {
      r := r + a[q];
      e[q] := r % 65536;
      CarryColumn(e[..q], a[..q], Val(c[..k]), e[q], a[q], r);
      assert e[..q + 1] == e[..q] + [e[q]] && a[..q + 1] == a[..q] + [a[q]];
      r := r / 65536;
    }
    e[n] := r;
    ValSnoc(e[..n], e[n]);
    assert e[..n + 1] == e[..n] + [e[n]];
  }

  lemma CarryColumn(e: seq<Digit>, a: seq<Digit>, rest: int, ed: Digit, ad: Digit, r: int)
    requires |e| == |a| && ed == r % 65536
    requires Val(e) + (r - ad) * Pow(|e|) == Val(a) + rest
    ensures Val(e + [ed]) + (r / 65536) * Pow(|e| + 1) == Val(a + [ad]) + rest
  {
    hide *;
    PowSucc(|e|);
    AddInts(Val(e), Val(a), rest, ad, 0, r, Pow(|e|), Pow(|e| + 1));
    ValSnoc(e, ed);
    ValSnoc(a, ad);
  }

  lemma AddInts(e: int, a: int, c: int, ad: int, cd: int, r: int, p: int, next: int)
    requires e + (r - ad - cd) * p == a + c && next == 65536 * p
    ensures e + (r % 65536) * p + (r / 65536) * next == a + ad * p + (c + cd * p)
  {
    CarrySplit(r, p);
    Distribute3(r - ad - cd, ad, cd, p);
  }

  lemma AddColumn(e: seq<Digit>, a: seq<Digit>, c: seq<Digit>, ed: Digit, ad: Digit, cd: Digit, r: int)
    requires |e| == |a| == |c| && ed == r % 65536
    requires Val(e) + (r - ad - cd) * Pow(|e|) == Val(a) + Val(c)
    ensures Val(e + [ed]) + (r / 65536) * Pow(|e| + 1) == Val(a + [ad]) + Val(c + [cd])
  {
    hide *;
    PowSucc(|e|);
    AddInts(Val(e), Val(a), Val(c), ad, cd, r, Pow(|e|), Pow(|e| + 1));
    ValSnoc(e, ed);
    ValSnoc(a, ad);
    ValSnoc(c, cd);
  }

  lemma PowSucc(n: nat)
    ensures Pow(n + 1) == 65536 * Pow(n)
  {}

  /** e = a - c; a final borrow is lost, which adds Pow(n) when a is smaller than c. */
  method Sub(a: array<Digit>, n: nat, c: array<Digit>, k: nat, e: array<Digit>)
    requires k <= n <= a.Length && k <= c.Length && n <= e.Length && c != e
    modifies e
    ensures Val(e[..n]) == old(Val(a[..n])) - Val(c[..k]) + (if old(Val(a[..n])) < Val(c[..k]) then Pow(n) else 0)
    ensures forall i :: n <= i < e.Length ==> e[i] == old(e[i])
  {
    hide *;
    ghost var was := a[..n];
    var r: int := 0;
    ZeroDigits();
    assert e[..0] == [] && was[..0] == [] && c[..0] == [];
    for q := 0 to k
      invariant -1 <= r <= 0
      invariant forall i :: q <= i < n ==> a[i] == was[i]
      invariant forall i :: n <= i < e.Length ==> e[i] == old(e[i])
      invariant Val(e[..q]) + r * Pow(q) == Val(was[..q]) - Val(c[..q])
    {
      r := r + a[q] - c[q];
      e[q] := r % 65536;
      SubColumn(e[..q], was[..q], c[..q], e[q], was[q], c[q], r);
      assert e[..q + 1] == e[..q] + [e[q]] && was[..q + 1] == was[..q] + [was[q]] && c[..q + 1] == c[..q] + [c[q]];
      r := r / 65536;
    }
    for q := k to n
      invariant -1 <= r <= 0
      invariant forall i :: q <= i < n ==> a[i] == was[i]
      invariant forall i :: n <= i < e.Length ==> e[i] == old(e[i])
      invariant Val(e[..q]) + r * Pow(q) == Val(was[..q]) - Val(c[..k])
    {
      r := r + a[q];
      e[q] := r % 65536;
      CarryColumn(e[..q], was[..q], -Val(c[..k]), e[q], was[q], r);
      assert e[..q + 1] == e[..q] + [e[q]] && was[..q + 1] == was[..q] + [was[q]];
      r := r / 65536;
    }
    assert was[..n] == was;
    ValBound(e[..n]);
    BorrowCases(r, Pow(n));
  }

  lemma BorrowCases(r: int, p: int)
    requires -1 <= r <= 0
    ensures r == 0 ==> r * p == 0
    ensures r == -1 ==> r * p == -p
  {}

  lemma SubInts(e: int, a: int, c: int, ad: int, cd: int, r: int, p: int, next: int)
    requires e + (r - ad + cd) * p == a - c && next == 65536 * p
    ensures e + (r % 65536) * p + (r / 65536) * next == a + ad * p - (c + cd * p)
  {
    CarrySplit(r, p);
    Distribute3(r - ad + cd, ad, -cd, p);
    assert (-cd) * p == -(cd * p);
  }

  lemma SubColumn(e: seq<Digit>, a: seq<Digit>, c: seq<Digit>, ed: Digit, ad: Digit, cd: Digit, r: int)
    requires |e| == |a| == |c| && ed == r % 65536
    requires Val(e) + (r - ad + cd) * Pow(|e|) == Val(a) - Val(c)
    ensures Val(e + [ed]) + (r / 65536) * Pow(|e| + 1) == Val(a + [ad]) - Val(c + [cd])
  {
    hide *;
    PowSucc(|e|);
    SubInts(Val(e), Val(a), Val(c), ad, cd, r, Pow(|e|), Pow(|e| + 1));
    ValSnoc(e, ed);
    ValSnoc(a, ad);
    ValSnoc(c, cd);
  }

  /** A sum in progress: the digits done and the carry beyond them. */
  ghost predicate AddedSoFar(done: seq<Digit>, carry: int, was: seq<Digit>, added: int) {
    Val(done) + carry * Pow(|done|) == Val(was) + added
  }

  /** Writes one digit of a sum in progress over the window at..hi of acc. */
  method PutDigit(acc: array<Digit>, e: nat, d: Digit, ghost at: nat, ghost hi: nat, ghost done: seq<Digit>,
                  ghost was: seq<Digit>)
    requires e == at + |done| && |done| < |was| && at + |was| == hi <= acc.Length
    requires acc[at..hi] == done + was[|done|..]
    modifies acc
    ensures acc[at..hi] == (done + [d]) + was[|done| + 1..]
    ensures forall i :: 0 <= i < at || hi <= i < acc.Length ==> acc[i] == old(acc[i])
  {
    ghost var window := acc[at..hi];
    acc[e] := d;
    assert acc[at..hi] == window[|done| := d];
    WindowStep(window, done, was, d);
  }

  /** Columns |done| and up of the product are still to be added into the window at..hi of acc. */
  ghost predicate Adding(x: Digit, m: array<Digit>, start: nat, len: nat, acc: array<Digit>, at: nat, hi: nat,
                         done: seq<Digit>, r: int, was: seq<Digit>, factor: seq<Digit>)
    reads m, acc
  {
    && start + len <= m.Length && at + len <= hi <= acc.Length && |was| == hi - at && |done| <= len
    && m[start..start + len] == factor && acc[at..hi] == done + was[|done|..]
    && 0 <= r <= 65535 && AddedSoFar(done, r, was[..|done|], Times(x, Val(factor[..|done|])))
  }

  /** Adds one column: stores its digit and returns the carry into the next one. */
  method AddToColumn(x: Digit, m: array<Digit>, c: nat, acc: array<Digit>, e: nat, r: int,
                     ghost start: nat, ghost len: nat, ghost at: nat, ghost hi: nat,
                     ghost done: seq<Digit>, ghost was: seq<Digit>, ghost factor: seq<Digit>)
    returns (d: Digit, carry: int)
    requires m != acc && Adding(x, m, start, len, acc, at, hi, done, r, was, factor)
    requires |done| < len && c == start + |done| && e == at + |done|
    modifies acc
    ensures Adding(x, m, start, len, acc, at, hi, done + [d], carry, was, factor)
    ensures forall i :: 0 <= i < at || hi <= i < acc.Length ==> acc[i] == old(acc[i])
  {
    hide AddedSoFar, Val, Times;
    WindowDigit(acc, at, hi, done, was);
    SliceDigit(m, start, len, |done|);
    var p: int := Times(x, m[c]) + acc[e] + r;
    OneColumn(done, was, factor, x, r, p);
    d, carry := p % 65536, p / 65536;
    PutDigit(acc, e, d, at, hi, done, was);
  }

  lemma AddingStarts(x: Digit, m: array<Digit>, start: nat, len: nat, acc: array<Digit>, at: nat, hi: nat)
    requires start + len <= m.Length && at + len <= hi <= acc.Length
    ensures Adding(x, m, start, len, acc, at, hi, [], 0, acc[at..hi], m[start..start + len])
  {
    hide AddedSoFar, Val, Times;
    var was, factor := acc[at..hi], m[start..start + len];
    assert was[..0] == [] && factor[..0] == [] && was[0..] == was;
    NothingAdded(x);
  }

  lemma AddingEnds(x: Digit, m: array<Digit>, start: nat, len: nat, acc: array<Digit>, at: nat, hi: nat,
                   done: seq<Digit>, r: int, was: seq<Digit>, factor: seq<Digit>)
    requires Adding(x, m, start, len, acc, at, hi, done, r, was, factor) && |done| == len
    ensures |was| == hi - at && hi <= acc.Length && acc[at..hi] == done + was[len..] && 0 <= r <= 65535
    ensures AddedSoFar(done, r, was[..len], Times(x, Val(factor)))
  {
    hide AddedSoFar, Val, Times;
    assert factor[..len] == factor;
  }

  /** Adds x * m[start..start + len] into acc at position at. When the sum fits below hi, the carry
      dies out before hi, and nothing outside at..hi is touched. */
  method MulAdd(x: Digit, m: array<Digit>, start: nat, acc: array<Digit>, at: nat, len: nat, ghost hi: nat)
    requires m != acc && start + len <= m.Length && at + len <= hi <= acc.Length
    requires Val(acc[at..hi]) + Times(x, Val(m[start..start + len])) < Pow(hi - at)
    modifies acc
    ensures Val(acc[at..hi]) == old(Val(acc[at..hi])) + Times(x, Val(m[start..start + len]))
    ensures forall i :: 0 <= i < at || hi <= i < acc.Length ==> acc[i] == old(acc[i])
  {
    hide *;
    ghost var was, factor := acc[at..hi], m[start..start + len];
    if x == 0 {
      TimesIs(x, Val(factor));
      return;
    }
    var c, e, f, r: int := start, at, len, 0;
    ghost var done: seq<Digit> := [];
    AddingStarts(x, m, start, len, acc, at, hi);
    while f > 0
      invariant 0 <= f <= len && c == start + |done| && e == at + |done| && |done| == len - f
      invariant forall i :: 0 <= i < at || hi <= i < acc.Length ==> acc[i] == old(acc[i])
      invariant Adding(x, m, start, len, acc, at, hi, done, r, was, factor)
    {
      var d, carry := AddToColumn(x, m, c, acc, e, r, start, len, at, hi, done, was, factor);
      done := done + [d];
      c, e, f, r := c + 1, e + 1, f - 1, carry;
    }
    AddingEnds(x, m, start, len, acc, at, hi, done, r, was, factor);
    PropagateCarry(r, acc, at, e, hi, done, was, Times(x, Val(factor)));
  }

  lemma WindowDigit(acc: array<Digit>, at: nat, hi: nat, done: seq<Digit>, was: seq<Digit>)
    requires at <= hi <= acc.Length && |done| < |was| && acc[at..hi] == done + was[|done|..]
    ensures hi - at == |was| && acc[at + |done|] == was[|done|]
  {
    SliceDigit(acc, at, hi - at, |done|);
  }

  lemma SliceDigit(m: array<Digit>, start: nat, len: nat, k: nat)
    requires start + len <= m.Length && k < len
    ensures m[start + k] == m[start..start + len][k]
  {
  }

  lemma OneColumn(done: seq<Digit>, was: seq<Digit>, factor: seq<Digit>, x: Digit, r: int, p: int)
    requires |done| < |was| && |done| < |factor| && 0 <= r <= 65535
    requires p == Times(x, factor[|done|]) + was[|done|] + r
    requires AddedSoFar(done, r, was[..|done|], Times(x, Val(factor[..|done|])))
    ensures 0 <= p <= 0xFFFF_FFFF && 0 <= p / 65536 <= 65535
    ensures AddedSoFar(done + [p % 65536], p / 65536, was[..|done| + 1], Times(x, Val(factor[..|done| + 1])))
  {
    hide *;
    var k := |done|;
    assert was[..k + 1] == was[..k] + [was[k]] && factor[..k + 1] == factor[..k] + [factor[k]];
    MulColumn(done, was[..k], factor[..k], was[k], factor[k], x, r, p);
  }

  /** The second loop of MulAdd: what is left of the carry ripples up and dies before hi. */
  method PropagateCarry(carry: int, acc: array<Digit>, ghost at: nat, from: nat, ghost hi: nat,
                        ghost begun: seq<Digit>, ghost was: seq<Digit>, ghost added: int)
    requires from == at + |begun| && |begun| <= |was| && at + |was| == hi <= acc.Length && 0 <= carry <= 65535
    requires acc[at..hi] == begun + was[|begun|..]
    requires AddedSoFar(begun, carry, was[..|begun|], added)
    requires Val(was) + added < Pow(|was|)
    modifies acc
    ensures Val(acc[at..hi]) == Val(was) + added
    ensures forall i :: 0 <= i < at || hi <= i < acc.Length ==> acc[i] == old(acc[i])
  {
    hide *;
    var r, e := carry, from;
    ghost var done: seq<Digit> := begun;
    while r != 0
      invariant e == at + |done| && |done| <= |was|
      invariant 0 <= r <= 65535
      invariant forall i :: 0 <= i < at || hi <= i < acc.Length ==> acc[i] == old(acc[i])
      invariant acc[at..hi] == done + was[|done|..]
      invariant AddedSoFar(done, r, was[..|done|], added)
      decreases hi - e
    {
      if |done| == |was| {
        assert was[..|was|] == was;
        CarryFits(done, r, was, added);
        assert false;
      }
      assert acc[e] == acc[at..hi][|done|] == was[|done|];
      var n: int := acc[e] + r;
      SpreadCarry(done, was[..|done|], added, was[|done|], n);
      var d: Digit := n % 65536;
      PutDigit(acc, e, d, at, hi, done, was);
      assert was[..|done| + 1] == was[..|done|] + [was[|done|]];
      done := done + [d];
      r := n / 65536;
      e := e + 1;
    }
    assert was == was[..|done|] + was[|done|..];
    AddedInTotal(done, was[..|done|], was[|done|..], added);
  }

  lemma WindowStep(window: seq<Digit>, done: seq<Digit>, was: seq<Digit>, d: Digit)
    requires |done| < |was| && window == done + was[|done|..]
    ensures window[|done| := d] == (done + [d]) + was[|done| + 1..]
  {}

  lemma NothingAdded(x: int)
    ensures AddedSoFar([], 0, [], Times(x, Val([])))
  {}

  lemma AddedInTotal(done: seq<Digit>, was: seq<Digit>, rest: seq<Digit>, added: int)
    requires |done| == |was| && AddedSoFar(done, 0, was, added)
    ensures Val(done + rest) == Val(was + rest) + added
  {
    assert Val(done) == Val(was) + added;
    hide *;
    ValConcat(done, rest);
    ValConcat(was, rest);
  }

  lemma CarryFits(done: seq<Digit>, r: int, was: seq<Digit>, added: int)
    requires AddedSoFar(done, r, was, added) && |done| == |was| && r >= 1
    ensures Val(was) + added >= Pow(|was|)
  {
    MulMono(1, r, Pow(|was|));
  }

  lemma SpreadCarry(e: seq<Digit>, a: seq<Digit>, added: int, ad: Digit, n: int)
    requires |e| == |a| && AddedSoFar(e, n - ad, a, added)
    ensures AddedSoFar(e + [n % 65536], n / 65536, a + [ad], added)
  {
    CarryColumn(e, a, added, n % 65536, ad, n);
  }

  /** Every column of a digit-by-number product stays within 32 bits. */
  lemma PartialSumFits(x: Digit, m: Digit, d: Digit, r: int)
    requires 0 <= r <= 65535
    ensures 0 <= Times(x, m) + d + r <= 0xFFFF_FFFF
    ensures (Times(x, m) + d + r) / 65536 <= 65535
  {
    MulMono(x, 65535, m);
    Nonneg(x, m);
  }

  lemma MulInts(e: int, a: int, m: int, ad: int, md: int, x: int, r: int, p: int, w: int)
    requires e + r * w == a + x * m && p == x * md + ad + r
    ensures e + (p % 65536) * w + (p / 65536) * (65536 * w) == a + ad * w + x * (m + md * w)
  {
    CarrySplit(p, w);
    Distribute3(x * md, ad, r, w);
    MulAssoc(x, m, md, w);
    assert md * (x * w) == (x * md) * w;
  }

  lemma MulColumn(e: seq<Digit>, a: seq<Digit>, m: seq<Digit>, ad: Digit, md: Digit, x: Digit, r: int, p: int)
    requires |e| == |a| == |m| && p == Times(x, md) + ad + r
    requires 0 <= r <= 65535
    requires AddedSoFar(e, r, a, Times(x, Val(m)))
    ensures 0 <= p <= 0xFFFF_FFFF && 0 <= p / 65536 <= 65535
    ensures AddedSoFar(e + [p % 65536], p / 65536, a + [ad], Times(x, Val(m + [md])))
  {
    var w := Pow(|e|);
    assert Pow(|e| + 1) == 65536 * w;
    PartialSumFits(x, md, ad, r);
    MulInts(Val(e), Val(a), Val(m), ad, md, x, r, p, w);
    ValSnoc(e, p % 65536);
    ValSnoc(a, ad);
    ValSnoc(m, md);
    hide Val;
    hide Pow;
  }

  /** The quotient digit guessed from the two top digits of the dividend window. */
  method EstimateQuotientDigit(top: Digit, digits: array<Digit>, i: nat) returns (d: Digit)
    requires 1 <= i < digits.Length && 1 <= top && digits[i] <= top
    ensures d == EstimatedDigit(top, digits[i] as int * 65536 + digits[i - 1])
  {
    var w := digits[i] as int * 65536 + digits[i - 1];
    if digits[i] == top {
      QuotientAtLeast(top, w);
      return 65535;
    }
    var q := w / top;
    if q > 65535 { return 65535; }
    d := q;
  }

  /** min(65535, w / top). */
  function EstimatedDigit(top: int, w: int): (d: Digit)
    requires top >= 1 && w >= 0
  {
    if w / top > 65535 then 65535 else w / top
  }

  lemma QuotientAtLeast(top: int, w: int)
    requires top >= 1 && w >= top * 65536
    ensures w / top >= 65536
  {
    var q := w / top;
    assert w == top * q + w % top;
    if q < 65536 { MulMono(q + 1, 65536, top); }
  }
}
