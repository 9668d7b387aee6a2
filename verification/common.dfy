/** Small helpers shared by every module: optional values, results with an
    error, duplicate-free sequences and Java's integer division. */
module Common {

  datatype Option<+T> = None | Some(value: T)

  datatype Result<+T, +E> = Success(value: T) | Failure(error: E)

  /** The exceptions the modelled operations throw. */
  datatype Exception = NoSuchElement | IllegalArgument

  /** No element occurs twice (an `ArrayList` used as a set). */
  predicate NoDup<T(==)>(s: seq<T>) {
    forall i, j :: 0 <= i < j < |s| ==> s[i] != s[j]
  }

  lemma NoDupSnoc<T>(s: seq<T>, x: T)
    requires NoDup(s) && x !in s
    ensures NoDup(s + [x])
  {
    forall i, j | 0 <= i < j < |s + [x]|
      ensures (s + [x])[i] != (s + [x])[j]
    {
      assert (s + [x])[i] == s[i];
    }
  }

  /** A duplicate-free sequence of copies of one value has at most one element. */
  lemma AtMostOne<T>(s: seq<T>, x: T)
    requires NoDup(s) && forall i | 0 <= i < |s| :: s[i] == x
    ensures |s| <= 1
  {
    if |s| >= 2 {
      FirstTwoDiffer(s);
      assert false;
    }
  }

  lemma FirstTwoDiffer<T>(s: seq<T>)
    requires NoDup(s) && |s| >= 2
    ensures s[0] != s[1]
  {
  }

  /** Java's `int` division, which truncates toward zero. */
  function JavaDiv(a: int, b: int): (q: int)
    requires b > 0
    ensures 0 <= a ==> b * q <= a < b * q + b
    ensures a < 0 ==> b * q - b < a <= b * q
  {
    if a >= 0 then a / b else -((-a) / b)
  }

  /** Java's `%` operator: the remainder takes the sign of the dividend. */
  function JavaRem(a: int, b: int): (r: int)
    requires b > 0
    ensures a == b * JavaDiv(a, b) + r
    ensures 0 <= a ==> 0 <= r < b
    ensures a < 0 ==> -b < r <= 0
  {
    a - b * JavaDiv(a, b)
  }

  // Multiplication facts the solver does not find unaided.

  lemma {:induction false} ProductMonotone(n: nat, a: int, b: int)
    requires a <= b
    ensures n * a <= n * b
  {
    if n > 0 {
      ProductMonotone(n - 1, a, b);
      assert n * a == (n - 1) * a + a;
      assert n * b == (n - 1) * b + b;
    }
  }

  lemma FactorLess(n: nat, a: int, b: int)
    requires n * a < n * b
    ensures a < b
  {
    if b <= a {
      ProductMonotone(n, b, a);
    }
  }

  /** Quotient and remainder are determined by `a == w * q + r` with
      `0 <= r < w`. */
  lemma DivModUnique(a: int, w: int, q: int, r: int)
    requires w > 0 && 0 <= r < w && a == w * q + r
    ensures a / w == q && a % w == r
  {
    var q', r' := a / w, a % w;
    assert a == w * q' + r';
    assert w * (q - q') == r' - r by {
      assert w * (q - q') == w * q - w * q';
    }
    FactorLess(w, q - q', 1);
    FactorLess(w, -1, q - q');
  }
}
