/** Positional encoding of bounded weight vectors. The solver's termination measure is the
    encoding of one weight per cell: a lexicographic increase of the vector is an increase
    of the number, and the number is bounded. */
module Lex {

  const Base := 20

  ghost function Pow(n: nat): nat {
    if n == 0 then 1 else Base * Pow(n - 1)
  }

  ghost predicate Bounded(w: seq<int>) {
    forall i :: 0 <= i < |w| ==> 0 <= w[i] < Base
  }

  /** The vector read as a number in base `Base`, first element most significant. */
  ghost function Enc(w: seq<int>): int {
    if w == [] then 0 else w[0] * Pow(|w| - 1) + Enc(w[1..])
  }

  lemma MulMono(a: int, b: int, p: int)
    requires 0 <= a <= b && 0 <= p
    ensures 0 <= a * p <= b * p
  {
  }

  lemma MulSucc(a: int, p: int)
    ensures (a + 1) * p == a * p + p
  {
  }

  lemma EncLeadIncrease(w: seq<int>, v: seq<int>)
    requires |w| == |v| > 0 && Bounded(w) && Bounded(v) && w[0] < v[0]
    ensures Enc(w) < Enc(v)
  {
    var p := Pow(|w| - 1);
    assert Bounded(w[1..]) && Bounded(v[1..]);
    EncBounds(w[1..]);
    EncBounds(v[1..]);
    assert Enc(w) == w[0] * p + Enc(w[1..]);
    assert Enc(v) == v[0] * p + Enc(v[1..]);
    MulSucc(w[0], p);
    MulMono(w[0] + 1, v[0], p);
  }

  lemma {:induction false} EncBounds(w: seq<int>)
    requires Bounded(w)
    ensures 0 <= Enc(w) < Pow(|w|)
  {
    if w != [] {
      assert Bounded(w[1..]);
      EncBounds(w[1..]);
      MulMono(w[0], Base - 1, Pow(|w| - 1));
    }
  }

  /** Vectors that agree before position c and differ upwards at c encode in the same order. */
  lemma {:induction false} EncLexIncrease(w: seq<int>, v: seq<int>, c: int)
    requires |w| == |v| && Bounded(w) && Bounded(v)
    requires 0 <= c < |w| && w[..c] == v[..c] && w[c] < v[c]
    ensures Enc(w) < Enc(v)
  {
    if c == 0 {
      EncLeadIncrease(w, v);
    } else {
      assert Bounded(w[1..]) && Bounded(v[1..]);
      assert w[0] == v[0] by { assert w[..c][0] == v[..c][0]; }
      assert w[1..][..c - 1] == v[1..][..c - 1] by {
        assert w[1..][..c - 1] == w[..c][1..] && v[1..][..c - 1] == v[..c][1..];
      }
      EncLexIncrease(w[1..], v[1..], c - 1);
    }
  }
}
