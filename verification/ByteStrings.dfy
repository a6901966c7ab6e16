// Opaque identities: byte strings, their order and the canonical form of an unordered pair
// (relay/internal/store/store.go).
module ByteStrings {
  newtype Byte = b: int | 0 <= b < 256
  type Bytes = seq<Byte>

  // The order of the database: byte by byte, a proper prefix first.
  predicate Before(a: Bytes, b: Bytes) {
    b != [] && (a == [] || a[0] < b[0] || (a[0] == b[0] && Before(a[1..], b[1..])))
  }

  lemma {:induction false} BeforeStrict(a: Bytes)
    ensures !Before(a, a)
  {
    if a != [] { BeforeStrict(a[1..]); }
  }

  lemma {:induction false} BeforeTotal(a: Bytes, b: Bytes)
    ensures Before(a, b) || Before(b, a) || a == b
  {
    if a != [] && b != [] {
      BeforeTotal(a[1..], b[1..]);
      assert a == [a[0]] + a[1..] && b == [b[0]] + b[1..];
    }
  }

  lemma {:induction false} BeforeTransitive(a: Bytes, b: Bytes, c: Bytes)
    requires Before(a, b) && Before(b, c)
    ensures Before(a, c)
  {
    if a != [] && a[0] == b[0] == c[0] { BeforeTransitive(a[1..], b[1..], c[1..]); }
  }

  // Two strings are ordered by the first position where they differ, else by length.
  lemma {:induction false} BeforeAtDifference(a: Bytes, b: Bytes, i: nat)
    requires i <= |a| && i <= |b| && a[..i] == b[..i]
    ensures i == |a| && i < |b| ==> Before(a, b)
    ensures i < |a| && i < |b| && a[i] < b[i] ==> Before(a, b)
  {
    if i > 0 {
      assert a[0] == a[..i][0] == b[..i][0] == b[0];
      assert a[1..][..i - 1] == a[..i][1..] == b[..i][1..] == b[1..][..i - 1];
      BeforeAtDifference(a[1..], b[1..], i - 1);
    }
  }

  method CompareBytes(a: Bytes, b: Bytes) returns (order: int)
    ensures order < 0 <==> Before(a, b)
    ensures order == 0 <==> a == b
    ensures order > 0 <==> Before(b, a)
  {
    BeforeDecides(a, b);
    var min := if |a| < |b| then |a| else |b|;
    for i := 0 to min
      invariant a[..i] == b[..i]
    {
      if a[i] != b[i] {
        BeforeAtDifference(a, b, i);
        BeforeAtDifference(b, a, i);
        return a[i] as int - b[i] as int;
      }
    }
    if |a| < |b| {
      BeforeAtDifference(a, b, min);
      return -1;
    }
    if |a| > |b| {
      BeforeAtDifference(b, a, min);
      return 1;
    }
    assert a == a[..min] && b == b[..min];
    return 0;
  }

  lemma BeforeDecides(a: Bytes, b: Bytes)
    ensures Before(a, b) ==> !Before(b, a) && a != b
  {
    BeforeStrict(a);
    if Before(a, b) && Before(b, a) { BeforeTransitive(a, b, a); }
  }

  // ---------------------------------------------------------------------------------------------

  datatype Pair = Pair(a: Bytes, b: Bytes)

  function Canonical(x: Bytes, y: Bytes): Pair {
    if Before(y, x) then Pair(y, x) else Pair(x, y)
  }

  method CanonicalPair(x: Bytes, y: Bytes) returns (pair: Pair)
    ensures pair == Canonical(x, y)
  {
    BeforeTotal(x, y);
    var order := CompareBytes(x, y);
    pair := if order <= 0 then Pair(x, y) else Pair(y, x);
  }

  // The canonical pair depends on the two peers and not on who is named first, and tells different
  // sets of peers apart; it is strictly ordered unless the peers are the same.
  lemma CanonicalUnordered(x: Bytes, y: Bytes, u: Bytes, v: Bytes)
    ensures Canonical(x, y) == Canonical(u, v) <==> (x == u && y == v) || (x == v && y == u)
    ensures Before(Canonical(x, y).a, Canonical(x, y).b) <==> x != y
  {
    BeforeTotal(x, y);
    BeforeDecides(x, y);
    BeforeDecides(y, x);
    BeforeTotal(u, v);
    BeforeDecides(u, v);
    BeforeDecides(v, u);
    BeforeStrict(x);
  }
}
