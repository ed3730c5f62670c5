/** Finite sums over sequences and the counting facts the allocation proofs rely on. */
module Seqs {

  /** Sum of exact money amounts, folded from the left as Python's `sum` is. */
  function Sum(s: seq<real>): real
    decreases |s|
  {
    if |s| == 0 then 0.0 else Sum(s[..|s| - 1]) + s[|s| - 1]
  }

  /** Sum of integer amounts. */
  function SumInt(s: seq<int>): int
    decreases |s|
  {
    if |s| == 0 then 0 else SumInt(s[..|s| - 1]) + s[|s| - 1]
  }

  function Constant(n: nat, c: real): seq<real>
  {
    seq(n, _ => c)
  }

  function Zeros(n: nat): seq<real>
  {
    Constant(n, 0.0)
  }

  /** Pointwise sum of two equally long vectors. */
  function Add(u: seq<real>, v: seq<real>): seq<real>
    requires |u| == |v|
  {
    seq(|u|, i requires 0 <= i < |u| => u[i] + v[i])
  }

  /** Every entry of `u` multiplied by `c`. */
  function Scale(c: real, u: seq<real>): seq<real>
  {
    seq(|u|, i requires 0 <= i < |u| => c * u[i])
  }

  predicate Distinct<T(==)>(s: seq<T>)
  {
    forall i, j :: 0 <= i < j < |s| ==> s[i] != s[j]
  }

  function Elems<T>(s: seq<T>): set<T>
  {
    set x | x in s
  }

  /** `c` at every position of `s` whose element lies in `a`, zero elsewhere. */
  function Mask<T(==)>(s: seq<T>, a: set<T>, c: real): seq<real>
  {
    seq(|s|, i requires 0 <= i < |s| => if s[i] in a then c else 0.0)
  }

  lemma {:induction false} SumAppend(a: seq<real>, b: seq<real>)
    ensures Sum(a + b) == Sum(a) + Sum(b)
    decreases |b|
  {
    if |b| == 0 {
      assert a + b == a;
    } else {
      assert (a + b)[..|a + b| - 1] == a + b[..|b| - 1];
      SumAppend(a, b[..|b| - 1]);
    }
  }

  lemma {:induction false} SumAdd(u: seq<real>, v: seq<real>)
    requires |u| == |v|
    ensures Sum(Add(u, v)) == Sum(u) + Sum(v)
    decreases |u|
  {
    if |u| > 0 {
      var n := |u| - 1;
      assert Add(u, v)[..n] == Add(u[..n], v[..n]);
      SumAdd(u[..n], v[..n]);
    }
  }

  lemma {:induction false} SumScale(c: real, u: seq<real>)
    ensures Sum(Scale(c, u)) == c * Sum(u)
    decreases |u|
  {
    if |u| > 0 {
      var n := |u| - 1;
      forall i | 0 <= i < n
        ensures Scale(c, u)[..n][i] == Scale(c, u[..n])[i]
      {
        assert u[..n][i] == u[i];
      }
      assert Scale(c, u)[..n] == Scale(c, u[..n]);
      SumScale(c, u[..n]);
      assert Sum(Scale(c, u)) == c * Sum(u[..n]) + c * u[n];
    }
  }

  /** A constant vector of length `n` sums to `n` times its entry. */
  lemma {:induction false} SumConstant(n: nat, c: real)
    ensures Sum(Constant(n, c)) == n as real * c
    decreases n
  {
    if n > 0 {
      assert Constant(n, c)[..n - 1] == Constant(n - 1, c);
      SumConstant(n - 1, c);
    }
  }

  lemma SumZeros(n: nat)
    ensures Sum(Zeros(n)) == 0.0
  {
    SumConstant(n, 0.0);
  }

  lemma {:induction false} SumNonNegative(s: seq<real>)
    requires forall i :: 0 <= i < |s| ==> s[i] >= 0.0
    ensures Sum(s) >= 0.0
    decreases |s|
  {
    if |s| > 0 {
      SumNonNegative(s[..|s| - 1]);
    }
  }

  /** Non-negative amounts that sum to zero are all zero. */
  lemma {:induction false} SumZeroNonNegative(s: seq<real>)
    requires forall i :: 0 <= i < |s| ==> s[i] >= 0.0
    requires Sum(s) == 0.0
    ensures forall i :: 0 <= i < |s| ==> s[i] == 0.0
    decreases |s|
  {
    if |s| > 0 {
      var n := |s| - 1;
      SumNonNegative(s[..n]);
      SumZeroNonNegative(s[..n]);
      forall i | 0 <= i < n
        ensures s[i] == 0.0
      {
        assert s[..n][i] == s[i];
      }
    }
  }

  /** The elements of a non-empty sequence are those of its prefix plus its last one. */
  lemma ElemsSnoc<T>(s: seq<T>)
    requires |s| > 0
    ensures Elems(s) == Elems(s[..|s| - 1]) + {s[|s| - 1]}
  {
    var n := |s| - 1;
    forall x | x in Elems(s)
      ensures x in Elems(s[..n]) + {s[n]}
    {
      var k :| 0 <= k < |s| && s[k] == x;
      if k < n {
        assert s[..n][k] == x;
      }
    }
  }

  /** In a sequence without repetitions the last element does not occur earlier. */
  lemma DistinctLast<T>(s: seq<T>)
    requires |s| > 0 && Distinct(s)
    ensures Distinct(s[..|s| - 1])
    ensures s[|s| - 1] !in Elems(s[..|s| - 1])
  {
    var n := |s| - 1;
    forall k | 0 <= k < n
      ensures s[..n][k] != s[n]
    {
      assert s[..n][k] == s[k];
    }
  }

  /** Extending a sequence by `q` adds one to the count of its elements in `a` exactly when `q` is in `a`. */
  lemma CountSnoc<T>(s: seq<T>, a: set<T>)
    requires |s| > 0 && Distinct(s)
    ensures |Elems(s) * a| == |Elems(s[..|s| - 1]) * a| + (if s[|s| - 1] in a then 1 else 0)
  {
    var n := |s| - 1;
    var q := s[n];
    DistinctLast(s);
    ElemsSnoc(s);
    var rest := Elems(s[..n]);
    if q in a {
      assert Elems(s) * a == (rest * a) + {q};
      assert q !in rest * a;
    } else {
      assert Elems(s) * a == rest * a;
    }
  }

  lemma MaskPrefix<T>(s: seq<T>, a: set<T>, c: real)
    requires |s| > 0
    ensures Mask(s, a, c)[..|s| - 1] == Mask(s[..|s| - 1], a, c)
  {
    var n := |s| - 1;
    forall i | 0 <= i < n
      ensures Mask(s, a, c)[..n][i] == Mask(s[..n], a, c)[i]
    {
      assert s[..n][i] == s[i];
    }
  }

  /** A unit mask over distinct elements counts the ones that lie in `a`. */
  lemma {:induction false} CountMask<T>(s: seq<T>, a: set<T>)
    requires Distinct(s)
    ensures Sum(Mask(s, a, 1.0)) == |Elems(s) * a| as real
    decreases |s|
  {
    if |s| == 0 {
      assert Elems(s) * a == {};
    } else {
      var n := |s| - 1;
      DistinctLast(s);
      CountMask(s[..n], a);
      CountSnoc(s, a);
      MaskPrefix(s, a, 1.0);
      var m := Mask(s, a, 1.0);
      assert Sum(m) == Sum(m[..n]) + m[n];
    }
  }

  lemma MaskScaled<T>(s: seq<T>, a: set<T>, c: real)
    ensures Mask(s, a, c) == Scale(c, Mask(s, a, 1.0))
  {
    var unit := Mask(s, a, 1.0);
    forall i | 0 <= i < |s|
      ensures Mask(s, a, c)[i] == Scale(c, unit)[i]
    {
    }
  }

  /** A mask over distinct elements sums to `c` times the number of them that lie in `a`. */
  lemma SumMask<T>(s: seq<T>, a: set<T>, c: real)
    requires Distinct(s)
    ensures Sum(Mask(s, a, c)) == c * |Elems(s) * a| as real
  {
    var unit := Mask(s, a, 1.0);
    var count := |Elems(s) * a| as real;
    MaskScaled(s, a, c);
    SumScale(c, unit);
    CountMask(s, a);
    assert c * Sum(unit) == c * count;
    assert Sum(Mask(s, a, c)) == c * Sum(unit);
  }

  /** A sequence without repetitions has as many distinct elements as positions. */
  lemma {:induction false} DistinctCardinality<T>(s: seq<T>)
    requires Distinct(s)
    ensures |Elems(s)| == |s|
    decreases |s|
  {
    if |s| == 0 {
      assert Elems(s) == {};
    } else {
      DistinctLast(s);
      ElemsSnoc(s);
      DistinctCardinality(s[..|s| - 1]);
    }
  }
}
