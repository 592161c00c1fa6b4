/** Integer facts shared by the address computations: products of shapes and
    Euclidean division. */
module Arith {

  lemma MulLe(a: int, b: int, c: int)
    requires a <= b && 0 <= c
    ensures a * c <= b * c
  {}

  lemma MulPos(a: int, b: int)
    requires 0 < a && 0 < b
    ensures 0 < a * b
  {}

  lemma MulNonNeg(a: int, b: int)
    requires 0 <= a && 0 <= b
    ensures 0 <= a * b
  {}

  lemma MulAssoc(a: int, b: int, c: int)
    ensures (a * b) * c == a * (b * c)
  {}

  lemma MulDist(a: int, b: int, c: int)
    ensures (a + b) * c == a * c + b * c
  {}

  lemma MulComm(a: int, b: int)
    ensures a * b == b * a
  {}

  /** Quotient and remainder are determined by `a == q * b + r`. */
  lemma DivModUnique(a: int, b: int, q: int, r: int)
    requires 0 <= r < b
    requires a == q * b + r
    ensures a / b == q && a % b == r
  {
    var q', r' := a / b, a % b;
    assert a == q' * b + r' && 0 <= r' < b;
    assert (q' - q) * b == r - r';
    if q' > q {
      MulLe(1, q' - q, b);
    } else if q' < q {
      MulLe(q' - q, -1, b);
    }
  }

  /** `a < n * b` exactly when the quotient by `b` stays below `n`. */
  lemma DivBelow(a: int, b: int, n: int)
    requires 0 < b && 0 <= a
    ensures a / b < n <==> a < n * b
  {
    var q, r := a / b, a % b;
    assert a == q * b + r && 0 <= r < b;
    if q < n {
      MulLe(q + 1, n, b);
    } else {
      MulLe(n, q, b);
    }
  }

  function Quot(a: nat, b: nat): (q: nat)
    requires 0 < b
    ensures q == a / b && q * b <= a < q * b + b
  {
    a / b
  }

  lemma DivSplit(a: nat, b: nat)
    requires 0 < b
    ensures a == b * Quot(a, b) + a % b && 0 <= a % b < b
  {}

  lemma PosBound(k: nat, t: nat, n: nat, x: nat)
    requires 0 < t && k / t < n && k % t < x
    ensures k < (n - 1) * t + x
  {
    MulLe(k / t, n - 1, t);
  }

  /** Number of cells of a shape. */
  function Prod(s: seq<nat>): nat {
    if s == [] then 1 else s[0] * Prod(s[1..])
  }

  ghost predicate AllPos(s: seq<nat>) {
    forall i :: 0 <= i < |s| ==> 0 < s[i]
  }

  lemma {:induction false} ProdPos(s: seq<nat>)
    requires AllPos(s)
    ensures 0 < Prod(s)
  {
    if s == [] {
    } else {
      ProdPos(s[1..]);
      MulPos(s[0], Prod(s[1..]));
    }
  }

  lemma {:induction false} ProdSnoc(s: seq<nat>, x: nat)
    ensures Prod(s + [x]) == Prod(s) * x
  {
    if s == [] {
      assert Prod([x]) == x * Prod([x][1..]);
    } else {
      assert (s + [x])[1..] == s[1..] + [x];
      ProdSnoc(s[1..], x);
      assert Prod(s + [x]) == s[0] * (Prod(s[1..]) * x) == (s[0] * Prod(s[1..])) * x;
    }
  }

  lemma ProdPrefix(s: seq<nat>, k: nat)
    requires k < |s|
    ensures Prod(s[..k + 1]) == Prod(s[..k]) * s[k]
  {
    assert s[..k + 1] == s[..k] + [s[k]];
    ProdSnoc(s[..k], s[k]);
  }

  lemma ProdSuffix(s: seq<nat>, k: nat)
    requires k < |s|
    ensures Prod(s[k..]) == s[k] * Prod(s[k + 1..])
  {
    assert s[k..][1..] == s[k + 1..];
  }

  /** A product divides exactly by its last factor. */
  lemma ProdLastExact(s: seq<nat>, e: nat)
    requires s != [] && 0 < s[|s| - 1]
    ensures (Prod(s) * e / s[|s| - 1]) * s[|s| - 1] == Prod(s) * e
  {
    var last, front := s[|s| - 1], s[..|s| - 1];
    assert s == front + [last];
    ProdSnoc(front, last);
    assert Prod(s) * e == (Prod(front) * last) * e == (Prod(front) * e) * last + 0;
    DivModUnique(Prod(s) * e, last, Prod(front) * e, 0);
  }
}
