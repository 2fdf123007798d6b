/**
 Adjacent indices, and sizes of finite sets of numbers.
 */
module Counting {

  predicate Follows(i: int, j: int) {
    j == i + 1
  }

  predicate Between(lo: nat, i: nat, hi: nat) {
    lo <= i < hi
  }

  ghost function Numbers(lo: nat, hi: nat): set<nat> {
    set i: nat | i < hi && Between(lo, i, hi)
  }

  lemma {:induction false} HowMany(lo: nat, hi: nat)
    requires lo <= hi
    ensures |Numbers(lo, hi)| == hi - lo
  {
    if lo < hi {
      HowMany(lo, hi - 1);
      assert Numbers(lo, hi) == Numbers(lo, hi - 1) + {hi - 1};
    }
  }

  lemma SizeOfSum(a: set<nat>, b: set<nat>)
    ensures |a + b| == |a| + |b - a|
  {
    assert a + b == a + (b - a);
  }

  lemma SizeOfSubset(a: set<nat>, b: set<nat>)
    requires a <= b
    ensures |a| <= |b| && (a != b ==> |a| < |b|)
  {
    SizeOfSum(a, b);
    assert a + b == b;
    assert a != b ==> b - a != {};
  }
}
