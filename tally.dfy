/** Sums over finite sets. The merge stage walks the bucket map in an
    unspecified order, so its totals are stated as sums over the set of keys,
    which do not depend on the order. */
module Tally {

  /** Some element of a non-empty set; which one is left unspecified. */
  ghost function Pick<T>(s: set<T>): (x: T)
    requires s != {}
    ensures x in s
  {
    var x :| x in s; x
  }

  ghost function Sum<T>(s: set<T>, f: T -> int): int
    decreases s
  {
    if s == {} then 0 else var x := Pick(s); f(x) + Sum(s - {x}, f)
  }

  /** The sum may be split at ANY element, not only at the picked one. */
  lemma {:induction false} SumRemove<T>(s: set<T>, y: T, f: T -> int)
    requires y in s
    ensures Sum(s, f) == f(y) + Sum(s - {y}, f)
    decreases s
  {
    var x := Pick(s);
    if x != y {
      SumRemove(s - {x}, y, f);
      SumRemove(s - {y}, x, f);
      assert s - {x} - {y} == s - {y} - {x};
    }
  }

  lemma SumInsert<T>(s: set<T>, y: T, f: T -> int)
    requires y !in s
    ensures Sum(s + {y}, f) == Sum(s, f) + f(y)
  {
    SumRemove(s + {y}, y, f);
    assert s + {y} - {y} == s;
  }

  /** Functions that agree on `s` have the same sum over `s`. */
  lemma {:induction false} SumCongruent<T>(s: set<T>, f: T -> int, g: T -> int)
    requires forall x | x in s :: f(x) == g(x)
    ensures Sum(s, f) == Sum(s, g)
    decreases s
  {
    if s != {} {
      var x := Pick(s);
      SumCongruent(s - {x}, f, g);
    }
  }

  lemma {:induction false} SumNonNegative<T>(s: set<T>, f: T -> int)
    requires forall x | x in s :: f(x) >= 0
    ensures Sum(s, f) >= 0
    decreases s
  {
    if s != {} {
      var x := Pick(s);
      SumNonNegative(s - {x}, f);
    }
  }

  /** Summing `f` minus one over `s` takes `|s|` off the sum of `f`. */
  lemma {:induction false} SumLessOne<T>(s: set<T>, f: T -> int, g: T -> int)
    requires forall x | x in s :: g(x) == f(x) - 1
    ensures Sum(s, g) == Sum(s, f) - |s|
    decreases s
  {
    if s != {} {
      var x := Pick(s);
      SumLessOne(s - {x}, f, g);
    }
  }

  /** A function that is zero on `s` sums to zero over `s`. */
  lemma {:induction false} SumZero<T>(s: set<T>, f: T -> int)
    requires forall x | x in s :: f(x) == 0
    ensures Sum(s, f) == 0
    decreases s
  {
    if s != {} {
      var x := Pick(s);
      SumZero(s - {x}, f);
    }
  }

  /** A sum of `f(x) * k - g(x)` is `k` times the sum of `f` less the sum of `g`. */
  lemma {:induction false} SumScaleDiff<T>(s: set<T>, f: T -> int, g: T -> int, h: T -> int, k: int)
    requires forall x | x in s :: h(x) == f(x) * k - g(x)
    ensures Sum(s, h) == Sum(s, f) * k - Sum(s, g)
    decreases s
  {
    if s != {} {
      var x := Pick(s);
      SumScaleDiff(s - {x}, f, g, h, k);
      assert (f(x) + Sum(s - {x}, f)) * k == f(x) * k + Sum(s - {x}, f) * k;
    }
  }
}
