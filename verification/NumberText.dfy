/** Which texts are numbers, and which number: optional white space and sign around decimal or
    hexadecimal digits. */
module NumberText {
  import opened DecimalText
  import opened Wrappers

  /** White space as regular expressions see it. */
  predicate IsSpace(c: char) {
    c in "\t\n\U{B}\U{C}\r \U{A0}\U{1680}\U{2028}\U{2029}\U{202F}\U{205F}\U{3000}\U{FEFF}"
      || '\U{2000}' <= c <= '\U{200A}'
  }

  function Trim(s: string): string
    decreases |s|
  {
    if s != [] && IsSpace(s[0]) then Trim(s[1..])
    else if s != [] && IsSpace(s[|s| - 1]) then Trim(s[..|s| - 1])
    else s
  }

  function Unsigned(t: string): string {
    if t != [] && (t[0] == '-' || t[0] == '+') then t[1..] else t
  }

  predicate IsHexDigit(c: char) { '0' <= c <= '9' || 'a' <= c <= 'f' || 'A' <= c <= 'F' }

  predicate AllHex(s: string) { forall i :: 0 <= i < |s| ==> IsHexDigit(s[i]) }

  function HexDigit(c: char): (d: nat)
    requires IsHexDigit(c)
    ensures d < 16
  {
    if c <= '9' then c as int - 48 else if c <= 'F' then c as int - 65 + 10 else c as int - 97 + 10
  }

  /** Number written by hexadecimal digits. */
  function HexValue(s: string): (v: int)
    requires AllHex(s)
    ensures v >= 0
  {
    if s == [] then 0 else HexValue(s[..|s| - 1]) * 16 + HexDigit(s[|s| - 1])
  }

  function HexPow(n: nat): (p: nat)
    ensures p >= 1
  {
    if n == 0 then 1 else 16 * HexPow(n - 1)
  }

  predicate IsHexLiteral(body: string) {
    |body| > 2 && body[0] == '0' && (body[1] == 'x' || body[1] == 'X') && AllHex(body[2..])
  }

  function ReadNumber(s: string): Option<int> {
    var t := Trim(s);
    var body := Unsigned(t);
    var sign := if t != [] && t[0] == '-' then -1 else 1;
    if body != [] && AllDigits(body) then Some(sign * DecimalValue(body))
    else if IsHexLiteral(body) then Some(sign * HexValue(body[2..]))
    else None
  }

  lemma EmptyText()
    ensures ReadNumber("").None?
  {}

  lemma NoHex()
    ensures AllHex("") && HexValue("") == 0 && HexPow(0) == 1
  {}

  lemma HexSnoc(s: string, c: char)
    requires AllHex(s) && IsHexDigit(c)
    ensures AllHex(s + [c]) && HexValue(s + [c]) == HexValue(s) * 16 + HexDigit(c)
    ensures HexPow(|s| + 1) == 16 * HexPow(|s|)
  {
    assert (s + [c])[..|s|] == s;
  }

  lemma HexFour(s: string, group: string)
    requires AllHex(s) && AllHex(group) && |group| == 4
    ensures AllHex(s + group) && HexValue(s + group) == HexValue(s) * 65536 + HexValue(group)
  {
    var a, b, c, d := group[0], group[1], group[2], group[3];
    assert group == [a] + [b] + [c] + [d] && s + group == s + [a] + [b] + [c] + [d];
    NoHex();
    HexSnoc("", a);
    HexSnoc("" + [a], b);
    HexSnoc("" + [a] + [b], c);
    HexSnoc("" + [a] + [b] + [c], d);
    assert "" + [a] + [b] + [c] + [d] == group;
    HexSnoc(s, a);
    HexSnoc(s + [a], b);
    HexSnoc(s + [a] + [b], c);
    HexSnoc(s + [a] + [b] + [c], d);
  }

  /** The text of any number has no superfluous zero and reads as that number. */
  lemma PrintedTextReadsBack(v: int)
    ensures ReadNumber(SignedDecimal(v)) == Some(v)
    ensures v != 0 ==> SignedDecimal(v)[if v < 0 then 1 else 0] != '0'
    ensures v == 0 ==> SignedDecimal(v) == "0"
  {
    var n := if v < 0 then -v else v;
    DecimalRoundTrip(n);
    PrintedForm(v);
    hide Decimal, DecimalValue, Trim, SignedDecimal, AllDigits, IsHexLiteral, Unsigned;
  }

  lemma PrintedForm(v: int)
    ensures var n, text := if v < 0 then -v else v, SignedDecimal(v);
            && text != [] && Trim(text) == text && Unsigned(text) == Decimal(n) && (text[0] == '-' <==> v < 0)
            && text[if v < 0 then 1 else 0] == Decimal(n)[0]
  {
    var n, text := if v < 0 then -v else v, SignedDecimal(v);
    hide Decimal, DecimalValue, Trim;
    assert v < 0 ==> text[1..] == Decimal(n);
    Unspaced(text);
  }

  lemma Unspaced(text: string)
    requires text != [] && (IsDigit(text[0]) || text[0] == '-') && IsDigit(text[|text| - 1])
    ensures Trim(text) == text
  {
    NoSpace(text[0]);
    NoSpace(text[|text| - 1]);
  }

  lemma NoSpace(c: char)
    requires IsDigit(c) || c == '-'
    ensures !IsSpace(c)
  {}

  // ---------------------------------------------------------------------------------------------
  // Which texts are numbers

  ghost predicate AllSpace(s: string) { forall i :: 0 <= i < |s| ==> IsSpace(s[i]) }

  /** The digits of a number without sign: decimal, or hexadecimal after 0x. */
  ghost predicate Denotes(body: string, n: int) {
    || (body != [] && AllDigits(body) && n == DecimalValue(body))
    || (|body| > 2 && (body[..2] == "0x" || body[..2] == "0X") && AllHex(body[2..]) && n == HexValue(body[2..]))
  }

  ghost predicate Spelled(s: string, pre: string, sign: string, body: string, post: string, v: int) {
    && s == pre + sign + body + post && AllSpace(pre) && AllSpace(post)
    && (sign == "" || sign == "+" || sign == "-") && Denotes(body, if sign == "-" then -v else v)
  }

  /** A text is read as a number exactly if it is one with a sign or none in front and white space around. */
  lemma ReadsExactly(s: string, v: int)
    ensures ReadNumber(s) == Some(v) <==> exists pre, sign, body, post :: Spelled(s, pre, sign, body, post, v)
  {
    if ReadNumber(s) == Some(v) {
      var pre, post := TrimParts(s);
      var t := Trim(s);
      var body := Unsigned(t);
      var sign := t[..|t| - |body|];
      BodyRead(body);
      hide Trim, AllDigits, DecimalValue, HexValue, AllHex, AllSpace, Denotes;
      assert t == sign + body;
      Regrouped(pre, sign, body, post);
      assert Spelled(s, pre, sign, body, post, v);
    }
    forall pre, sign, body, post | Spelled(s, pre, sign, body, post, v) ensures ReadNumber(s) == Some(v) {
      SpelledReads(s, pre, sign, body, post, v);
    }
  }

  lemma SpelledReads(s: string, pre: string, sign: string, body: string, post: string, v: int)
    requires Spelled(s, pre, sign, body, post, v)
    ensures ReadNumber(s) == Some(v)
  {
    var n := if sign == "-" then -v else v;
    BodyEnds(body, n);
    BodyDenotes(body, n);
    hide AllDigits, DecimalValue, HexValue, AllHex, Denotes, IsHexLiteral, IsSpace, Trim, AllSpace;
    var t := sign + body;
    NoSpace('-');
    assert !IsSpace('+') by { PlusNoSpace(); }
    Regrouped(pre, sign, body, post);
    TrimSurrounded(pre, t, post);
    assert Unsigned(t) == body;
  }

  lemma Regrouped(pre: string, sign: string, body: string, post: string)
    ensures pre + (sign + body) + post == pre + sign + body + post
  {}

  lemma PlusNoSpace()
    ensures !IsSpace('+')
  {}

  lemma BodyRead(body: string)
    ensures body != [] && AllDigits(body) ==> Denotes(body, DecimalValue(body))
    ensures IsHexLiteral(body) ==> Denotes(body, HexValue(body[2..]))
  {
    if |body| > 2 { assert body[..2] == [body[0], body[1]]; }
    hide HexValue, DecimalValue;
  }

  lemma BodyDenotes(body: string, n: int)
    requires Denotes(body, n)
    ensures if AllDigits(body) then n == DecimalValue(body) else IsHexLiteral(body) && n == HexValue(body[2..])
  {
    hide HexValue, DecimalValue;
    if |body| > 2 {
      assert body[..2] == [body[0], body[1]];
      assert !IsDigit('x') && !IsDigit('X');
    }
  }

  lemma BodyEnds(body: string, n: int)
    requires Denotes(body, n)
    ensures body != [] && !IsSpace(body[0]) && !IsSpace(body[|body| - 1]) && body[0] != '-' && body[0] != '+'
  {
    hide HexValue, DecimalValue;
    assert |body| > 2 ==> body[..2][0] == body[0] && body[2..][|body| - 3] == body[|body| - 1];
  }

  lemma {:induction false} TrimParts(s: string) returns (pre: string, post: string)
    ensures s == pre + Trim(s) + post && AllSpace(pre) && AllSpace(post)
    ensures Trim(s) != [] ==> !IsSpace(Trim(s)[0]) && !IsSpace(Trim(s)[|Trim(s)| - 1])
    decreases |s|
  {
    hide IsSpace;
    if s != [] && IsSpace(s[0]) {
      pre, post := TrimParts(s[1..]);
      assert s == [s[0]] + s[1..];
      Regrouped([s[0]], pre, Trim(s), post);
      pre := [s[0]] + pre;
    } else if s != [] && IsSpace(s[|s| - 1]) {
      pre, post := TrimParts(s[..|s| - 1]);
      assert s == s[..|s| - 1] + [s[|s| - 1]];
      post := post + [s[|s| - 1]];
    } else {
      pre, post := "", "";
    }
  }

  lemma {:induction false} TrimSurrounded(pre: string, core: string, post: string)
    requires AllSpace(pre) && AllSpace(post) && core != [] && !IsSpace(core[0]) && !IsSpace(core[|core| - 1])
    ensures Trim(pre + core + post) == core
    decreases |pre| + |post|
  {
    hide IsSpace;
    var s := pre + core + post;
    if pre != [] {
      assert s[1..] == pre[1..] + core + post;
      TrimSurrounded(pre[1..], core, post);
    } else if post != [] {
      assert s[..|s| - 1] == pre + core + post[..|post| - 1];
      TrimSurrounded(pre, core, post[..|post| - 1]);
    }
  }

  /** Each digit has its two letters, and no other character is one. */
  lemma HexLetters(c: char, d: nat)
    requires d < 16
    ensures c == "0123456789abcdef"[d] || c == "0123456789ABCDEF"[d] <==> IsHexDigit(c) && HexDigit(c) == d
  {}
}
