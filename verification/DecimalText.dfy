/** Decimal notation: the canonical text of a number, its value, and four-digit chunks. */
module DecimalText {

  predicate IsDigit(c: char) { '0' <= c <= '9' }

  predicate AllDigits(s: string) { forall i :: 0 <= i < |s| ==> IsDigit(s[i]) }

  function DigitValue(c: char): int
    requires IsDigit(c)
  {
    c as int - 48
  }

  function DigitChar(d: nat): (c: char)
    requires d < 10
    ensures IsDigit(c) && DigitValue(c) == d
  {
    (d + 48) as char
  }

  /** Shortest decimal text of n. */
  function Decimal(n: nat): (s: string)
    ensures s != [] && AllDigits(s)
    ensures n != 0 ==> s[0] != '0'
    ensures n == 0 ==> s == "0"
  {
    if n < 10 then [DigitChar(n)] else Decimal(n / 10) + [DigitChar(n % 10)]
  }

  function SignedDecimal(v: int): string {
    if v < 0 then "-" + Decimal(-v) else Decimal(v)
  }

  /** Number written by a digit string. */
  function DecimalValue(s: string): (v: int)
    requires AllDigits(s)
    ensures v >= 0
  {
    if s == [] then 0 else DecimalValue(s[..|s| - 1]) * 10 + DigitValue(s[|s| - 1])
  }

  lemma {:induction false} DecimalRoundTrip(n: nat)
    ensures DecimalValue(Decimal(n)) == n
  {
    if n < 10 {
      assert Decimal(n)[..0] == [];
    } else {
      DecimalRoundTrip(n / 10);
      assert Decimal(n)[..|Decimal(n)| - 1] == Decimal(n / 10);
    }
  }

  function Zeros(n: nat): string { seq(n, _ => '0') }

  /** Decimal text of a number below 10000, padded to four digits. */
  function Padded(n: nat): string
    requires n < 10000
  {
    Digits4Length(n);
    Zeros(4 - |Decimal(n)|) + Decimal(n)
  }

  lemma Digits4Length(n: nat)
    requires n < 10000
    ensures 1 <= |Decimal(n)| <= 4
    ensures n >= 1000 ==> |Decimal(n)| == 4
  {
    Tens(n);
    Tens(n / 10);
    Tens(n / 100);
    assert n / 10 / 10 == n / 100 && n / 100 / 10 == n / 1000;
  }

  lemma Tens(n: nat)
    ensures n >= 10 ==> |Decimal(n)| == |Decimal(n / 10)| + 1
    ensures n < 10 ==> |Decimal(n)| == 1
  {}

  /** The last four digits of a larger number are its padded remainder by 10000. */
  lemma ChunkOff(n: nat)
    requires n >= 10000
    ensures Decimal(n) == Decimal(n / 10000) + Padded(n % 10000)
  {
    hide *;
    Step(n);
    Step(n / 10);
    Step(n / 10 / 10);
    Step(n / 10 / 10 / 10);
    FourDigits(n % 10000);
    SameDigits(n);
    var head := Decimal(n / 10000);
    var c3, c2, c1, c0 := DigitChar(n / 10 / 10 / 10 % 10), DigitChar(n / 10 / 10 % 10), DigitChar(n / 10 % 10),
      DigitChar(n % 10);
    assert head + [c3] + [c2] + [c1] + [c0] == head + [c3, c2, c1, c0];
  }

  lemma SameDigits(n: nat)
    requires n >= 10000
    ensures n / 10 >= 10 && n / 10 / 10 >= 10 && n / 10 / 10 / 10 >= 10
    ensures n / 10 / 10 / 10 / 10 == n / 10000
    ensures n % 10000 / 1000 == n / 10 / 10 / 10 % 10 && n % 10000 / 100 % 10 == n / 10 / 10 % 10
    ensures n % 10000 / 10 % 10 == n / 10 % 10 && n % 10000 % 10 == n % 10
  {
    var q, m := n / 10000, n % 10000;
    assert n == 10000 * q + m;
    assert n / 10 == 1000 * q + m / 10;
    assert n / 10 / 10 == 100 * q + m / 100;
    assert n / 10 / 10 / 10 == 10 * q + m / 1000;
  }

  lemma Step(n: nat)
    requires n >= 10
    ensures Decimal(n) == Decimal(n / 10) + [DigitChar(n % 10)]
  {}

  lemma FourDigits(m: nat)
    requires m < 10000
    ensures Padded(m) == [DigitChar(m / 1000), DigitChar(m / 100 % 10), DigitChar(m / 10 % 10), DigitChar(m % 10)]
  {
    assert m / 10 / 10 == m / 100 && m / 100 / 10 == m / 1000;
    if m >= 1000 {
      Step(m); Step(m / 10); Step(m / 100);
    } else if m >= 100 {
      Step(m); Step(m / 10);
    } else if m >= 10 {
      Step(m);
    }
  }

  function Pow10(n: nat): (p: int)
    ensures p >= 1
  {
    if n == 0 then 1 else 10 * Pow10(n - 1)
  }

  /** Chunks in the order they are joined: last pushed first. */
  function JoinReversed(chunks: seq<string>): string {
    if chunks == [] then "" else chunks[|chunks| - 1] + JoinReversed(chunks[..|chunks| - 1])
  }

  lemma NothingPushed()
    ensures JoinReversed([]) == ""
  {}

  lemma Pushed(chunks: seq<string>, c: string)
    ensures JoinReversed(chunks + [c]) == c + JoinReversed(chunks)
  {
    assert (chunks + [c])[..|chunks|] == chunks;
  }
}
