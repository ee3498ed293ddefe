/** Element-wise helpers over real vectors, shared by the two training scripts:
    the coordinate sum, clamping to an interval and non-negativity. Real numbers
    stand in for the scripts' float tensors. */
module Vectors {

  /** The sum of all coordinates (torch.sum / np.sum). */
  function Sum(s: seq<real>): real
  {
    if s == [] then 0.0 else s[0] + Sum(s[1..])
  }

  predicate NonNegative(s: seq<real>)
  {
    forall i :: 0 <= i < |s| ==> 0.0 <= s[i]
  }

  /** A portfolio allocation: non-negative ratios that add up to one. */
  predicate IsAllocation(s: seq<real>)
  {
    NonNegative(s) && Sum(s) == 1.0
  }

  /** torch.clamp on one element: min(max(x, lo), hi). */
  function Clamp(x: real, lo: real, hi: real): (y: real)
    requires lo <= hi
    ensures lo <= y <= hi
    ensures lo <= x <= hi ==> y == x
    ensures x < lo ==> y == lo
    ensures hi < x ==> y == hi
  {
    if x < lo then lo else if hi < x then hi else x
  }

  /** Element-wise clamp of a whole vector to [lo, hi]. */
  function ClampAll(s: seq<real>, lo: real, hi: real): (r: seq<real>)
    requires lo <= hi
    ensures |r| == |s|
    ensures forall i :: 0 <= i < |s| ==> lo <= r[i] <= hi
    ensures forall i :: 0 <= i < |s| && lo <= s[i] <= hi ==> r[i] == s[i]
    ensures forall i :: 0 <= i < |s| && s[i] < lo ==> r[i] == lo
    ensures forall i :: 0 <= i < |s| && hi < s[i] ==> r[i] == hi
  {
    seq(|s|, i requires 0 <= i < |s| => Clamp(s[i], lo, hi))
  }

  /** Clamping twice is clamping once. */
  lemma ClampAllIdempotent(s: seq<real>, lo: real, hi: real)
    requires lo <= hi
    ensures ClampAll(ClampAll(s, lo, hi), lo, hi) == ClampAll(s, lo, hi)
  {
  }

  /** A vector that is zero everywhere except at index i sums to its value at i. */
  lemma {:induction false} SumOfSingleNonZero(s: seq<real>, i: nat)
    requires i < |s|
    requires forall j :: 0 <= j < |s| && j != i ==> s[j] == 0.0
    ensures Sum(s) == s[i]
  {
    if i == 0 {
      SumOfZeros(s[1..]);
    } else {
      SumOfSingleNonZero(s[1..], i - 1);
    }
  }

  lemma {:induction false} SumOfZeros(s: seq<real>)
    requires forall j :: 0 <= j < |s| ==> s[j] == 0.0
    ensures Sum(s) == 0.0
  {
    if s != [] {
      SumOfZeros(s[1..]);
    }
  }

  /** The sum of a non-negative vector is non-negative, and it is positive
      exactly when some coordinate is positive. */
  lemma {:induction false} SumNonNegative(s: seq<real>)
    requires NonNegative(s)
    ensures 0.0 <= Sum(s)
    ensures 0.0 < Sum(s) <==> exists i :: 0 <= i < |s| && 0.0 < s[i]
  {
    if s != [] {
      assert NonNegative(s[1..]) by {
        forall j | 0 <= j < |s[1..]| ensures 0.0 <= s[1..][j] {
          assert s[1..][j] == s[j + 1];
        }
      }
      SumNonNegative(s[1..]);
      if exists i :: 0 <= i < |s[1..]| && 0.0 < s[1..][i] {
        var i :| 0 <= i < |s[1..]| && 0.0 < s[1..][i];
        assert 0.0 < s[i + 1];
      }
      if exists i :: 0 <= i < |s| && 0.0 < s[i] {
        var i :| 0 <= i < |s| && 0.0 < s[i];
        if i > 0 {
          assert 0.0 < s[1..][i - 1];
        }
      }
    }
  }

  /** Dividing every coordinate by c divides the sum by c. */
  lemma {:induction false} SumDivided(s: seq<real>, d: seq<real>, c: real)
    requires c != 0.0 && |d| == |s|
    requires forall i :: 0 <= i < |s| ==> d[i] == s[i] / c
    ensures Sum(d) == Sum(s) / c
  {
    if s != [] {
      SumDivided(s[1..], d[1..], c);
      assert Sum(d) == s[0] / c + Sum(s[1..]) / c;
    }
  }
}
