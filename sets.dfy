/** Facts about the sizes of finite sets, used to show that loops over a shrinking set of keys or paths end. */
module Sets {
  /** A proper subset is strictly smaller. */
  lemma SubsetSmaller<T>(a: set<T>, b: set<T>, x: T)
    requires a <= b && x in b && x !in a
    ensures |a| < |b|
  {
    assert a <= b - {x};
    assert |b - {x}| == |b| - 1;
    if |a| > |b - {x}| {
      SubsetNotLarger(a, b - {x});
    }
  }

  lemma {:induction false} SubsetNotLarger<T>(a: set<T>, b: set<T>)
    requires a <= b
    ensures |a| <= |b|
    decreases |b|
  {
    if a != {} {
      var x :| x in a;
      SubsetNotLarger(a - {x}, b - {x});
    }
  }
}
