/**
 * The arithmetic mean that the moving average of `getModuleDurationAverage`
 * (breqd.js:45-54) computes, with the facts the loop and its callers rely on.
 */
module Averaging {

  function Sum(s: seq<real>): (total: real)
  {
    if s == [] then 0.0 else s[0] + Sum(s[1..])
  }

  /** The arithmetic mean; 0 for no samples, which is also what the loop
      returns after zero cycles. */
  function Mean(s: seq<real>): (mean: real)
  {
    if s == [] then 0.0 else Sum(s) / |s| as real
  }

  lemma {:induction false} SumAppend(s: seq<real>, x: real)
    ensures Sum(s + [x]) == Sum(s) + x
  {
    if s == [] {
      assert s + [x] == [x];
    } else {
      assert (s + [x])[1..] == s[1..] + [x];
      SumAppend(s[1..], x);
    }
  }

  /** One step of the moving average: folding sample `x` into the mean of the
      `c` samples before it, with weights c/(c+1) and 1/(c+1), gives the mean
      of all c+1 samples. */
  lemma MeanStep(s: seq<real>, x: real)
    ensures Mean(s + [x]) ==
      Mean(s) * (|s| as real / (|s| + 1) as real) + x / (|s| + 1) as real
  {
    var c := |s| as real;
    SumAppend(s, x);
    if s == [] {
      assert Sum([x]) == x;
    } else {
      assert Mean(s) * (c / (c + 1.0)) == Sum(s) / (c + 1.0) by {
        calc {
          Mean(s) * (c / (c + 1.0));
          (Sum(s) / c) * (c / (c + 1.0));
          Sum(s) / (c + 1.0);
        }
      }
      assert Mean(s + [x]) == (Sum(s) + x) / (c + 1.0);
    }
  }

  /** Removing one sample from anywhere takes exactly its value off the sum. */
  lemma {:induction false} SumRemove(s: seq<real>, j: nat)
    requires j < |s|
    ensures Sum(s) == s[j] + Sum(s[..j] + s[j + 1..])
  {
    if j > 0 {
      SumRemove(s[1..], j - 1);
      assert s[1..][..j - 1] + s[1..][j..] == (s[..j] + s[j + 1..])[1..];
    } else {
      assert s[..j] + s[j + 1..] == s[1..];
    }
  }

  /** The sum, and hence the mean, does not depend on the order of the samples. */
  lemma {:induction false} SumPermutation(a: seq<real>, b: seq<real>)
    requires multiset(a) == multiset(b)
    ensures Sum(a) == Sum(b)
    decreases |a|
  {
    if a == [] {
      assert |b| == |multiset(b)| == 0;
    } else {
      assert a[0] in multiset(b);
      var j :| 0 <= j < |b| && b[j] == a[0];
      var rest := b[..j] + b[j + 1..];
      RemoveMatching(a, b, j);
      SumPermutation(a[1..], rest);
      SumRemove(b, j);
    }
  }

  /** Taking the first element off `a` and a matching one off `b` keeps the
      two multisets equal. */
  lemma RemoveMatching(a: seq<real>, b: seq<real>, j: nat)
    requires multiset(a) == multiset(b)
    requires a != [] && j < |b| && b[j] == a[0]
    ensures multiset(a[1..]) == multiset(b[..j] + b[j + 1..])
  {
    var rest := b[..j] + b[j + 1..];
    assert a == [a[0]] + a[1..];
    assert b == b[..j] + [b[j]] + b[j + 1..];
    assert multiset(a) == multiset{a[0]} + multiset(a[1..]);
    assert multiset(b) == multiset(b[..j]) + multiset{b[j]} + multiset(b[j + 1..]);
    assert multiset(rest) == multiset(b[..j]) + multiset(b[j + 1..]);
    assert multiset(a[1..]) == multiset(a) - multiset{a[0]};
    assert multiset(rest) == multiset(b) - multiset{b[j]};
  }

  lemma MeanPermutation(a: seq<real>, b: seq<real>)
    requires multiset(a) == multiset(b)
    ensures Mean(a) == Mean(b)
  {
    SumPermutation(a, b);
    assert |a| == |multiset(a)| == |multiset(b)| == |b|;
  }

  lemma {:induction false} SumBounds(s: seq<real>, lo: real, hi: real)
    requires forall i :: 0 <= i < |s| ==> lo <= s[i] <= hi
    ensures lo * |s| as real <= Sum(s) <= hi * |s| as real
  {
    if s != [] {
      SumBounds(s[1..], lo, hi);
      assert lo * |s| as real == lo + lo * |s[1..]| as real;
      assert hi * |s| as real == hi + hi * |s[1..]| as real;
    }
  }

  /** The mean lies between the smallest and the largest sample. */
  lemma MeanBounds(s: seq<real>, lo: real, hi: real)
    requires |s| > 0
    requires forall i :: 0 <= i < |s| ==> lo <= s[i] <= hi
    ensures lo <= Mean(s) <= hi
  {
    SumBounds(s, lo, hi);
    var n := |s| as real;
    assert lo == (lo * n) / n;
    assert hi == (hi * n) / n;
  }
}
