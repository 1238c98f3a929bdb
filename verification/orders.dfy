/** Orders used for sorting: Python's string comparison and numeric comparison. */
module Orders {

  /** `less` is a strict total order on all of T. */
  ghost predicate StrictTotalOrder<T(!new)>(less: (T, T) -> bool) {
    && (forall a :: !less(a, a))
    && (forall a, b, c :: less(a, b) && less(b, c) ==> less(a, c))
    && (forall a, b :: a != b ==> less(a, b) || less(b, a))
  }

  /** Python's `<` on strings: lexicographic on code points, a proper prefix
      coming first. (Dafny's `<` on sequences means "proper prefix".) */
  predicate LexLess(a: string, b: string)
  {
    if |a| == 0 then |b| > 0
    else if |b| == 0 then false
    else if a[0] != b[0] then a[0] < b[0]
    else LexLess(a[1..], b[1..])
  }

  lemma {:induction false} LexIrreflexive(a: string)
    ensures !LexLess(a, a)
  {
    if |a| > 0 {
      LexIrreflexive(a[1..]);
    }
  }

  lemma {:induction false} LexTransitive(a: string, b: string, c: string)
    requires LexLess(a, b) && LexLess(b, c)
    ensures LexLess(a, c)
  {
    if |a| > 0 && |b| > 0 && |c| > 0 && a[0] == b[0] && b[0] == c[0] {
      LexTransitive(a[1..], b[1..], c[1..]);
    }
  }

  lemma {:induction false} LexTotal(a: string, b: string)
    requires a != b
    ensures LexLess(a, b) || LexLess(b, a)
  {
    if |a| > 0 && |b| > 0 && a[0] == b[0] {
      assert a == [a[0]] + a[1..] && b == [b[0]] + b[1..];
      LexTotal(a[1..], b[1..]);
    }
  }

  /** The order numpy uses for `np.unique` on an array of element symbols. */
  lemma LexLessIsStrictTotal()
    ensures StrictTotalOrder(LexLess)
  {
    forall a: string ensures !LexLess(a, a) {
      LexIrreflexive(a);
    }
    forall a: string, b: string, c: string | LexLess(a, b) && LexLess(b, c)
      ensures LexLess(a, c)
    {
      LexTransitive(a, b, c);
    }
    forall a: string, b: string | a != b
      ensures LexLess(a, b) || LexLess(b, a)
    {
      LexTotal(a, b);
    }
  }

  /** The numeric order numpy uses for `np.unique` on the magnetic moments. */
  predicate RealLess(a: real, b: real) {
    a < b
  }

  lemma RealLessIsStrictTotal()
    ensures StrictTotalOrder(RealLess)
  {
  }

  /** The numeric order on indices. */
  predicate NatLess(a: nat, b: nat) {
    a < b
  }

  lemma NatLessIsStrictTotal()
    ensures StrictTotalOrder(NatLess)
  {
  }
}
