/**
 * Small helpers shared by the search engine, the Sudoku model and the CNF
 * encoding: an optional value, and the two ways the source builds a list by
 * nested `for` loops that append (over a range, and over a range with a step).
 */
module Common {

  datatype Option<T> = None | Some(value: T)

  /** f(lo) + f(lo + 1) + ... + f(hi - 1): what a `for k in range(lo, hi)` loop appends. */
  function Concat<T>(lo: int, hi: int, f: int --> seq<T>): seq<T>
    requires forall k :: lo <= k < hi ==> f.requires(k)
    decreases hi - lo
  {
    if hi <= lo then [] else Concat(lo, hi - 1, f) + f(hi - 1)
  }

  /** f(lo) + f(lo + step) + ...: what a `for k in range(lo, hi, step)` loop appends. */
  function Strided<T>(lo: int, hi: int, step: int, f: int -> seq<T>): seq<T>
    requires step > 0
    decreases hi - lo
  {
    if hi <= lo then [] else f(lo) + Strided(lo + step, hi, step, f)
  }

  /** An element is in a concatenation exactly when it is in one of the pieces. */
  lemma {:induction false} ConcatMember<T>(lo: int, hi: int, f: int --> seq<T>, x: T)
    requires forall k :: lo <= k < hi ==> f.requires(k)
    ensures x in Concat(lo, hi, f) <==> exists k :: lo <= k < hi && x in f(k)
    decreases hi - lo
  {
    if hi > lo {
      ConcatMember(lo, hi - 1, f, x);
    }
  }

  /** One direction of ConcatMember, with the piece named. */
  lemma ConcatHas<T>(lo: int, hi: int, f: int --> seq<T>, k: int, x: T)
    requires forall k :: lo <= k < hi ==> f.requires(k)
    requires lo <= k < hi && x in f(k)
    ensures x in Concat(lo, hi, f)
  {
    ConcatMember(lo, hi, f, x);
  }

  /** Pieces of equal length c give a concatenation of length (hi - lo) * c. */
  lemma {:induction false} ConcatLength<T>(lo: int, hi: int, f: int --> seq<T>, c: nat)
    requires lo <= hi
    requires forall k :: lo <= k < hi ==> f.requires(k) && |f(k)| == c
    ensures |Concat(lo, hi, f)| == (hi - lo) * c
    decreases hi - lo
  {
    if hi > lo {
      ConcatLength(lo, hi - 1, f, c);
    }
  }

  /** With pieces of equal length c, element k of a concatenation is element k % c of piece lo + k / c. */
  lemma {:induction false} ConcatIndex<T>(lo: int, hi: int, f: int --> seq<T>, c: nat, k: int)
    requires lo <= hi && c > 0
    requires forall x :: lo <= x < hi ==> f.requires(x) && |f(x)| == c
    requires 0 <= k < (hi - lo) * c
    ensures |Concat(lo, hi, f)| == (hi - lo) * c
    ensures lo <= lo + k / c < hi && Concat(lo, hi, f)[k] == f(lo + k / c)[k % c]
    decreases hi - lo
  {
    ConcatLength(lo, hi, f, c);
    ConcatLength(lo, hi - 1, f, c);
    var m := (hi - 1 - lo) * c;
    assert (hi - lo) * c == m + c;
    if k < m {
      ConcatIndex(lo, hi - 1, f, c, k);
    } else {
      DivModOf(hi - 1 - lo, k - m, c);
    }
  }

  /** The pieces of a strided concatenation are those at lo + q * step. */
  lemma {:induction false} StridedMember<T>(lo: int, hi: int, step: int, f: int -> seq<T>, x: T)
    requires step > 0
    ensures x in Strided(lo, hi, step, f) <==>
            exists q: nat :: lo + q * step < hi && x in f(lo + q * step)
    decreases hi - lo
  {
    if hi > lo {
      StridedMember(lo + step, hi, step, f, x);
      if x in Strided(lo, hi, step, f) {
        if x in f(lo) {
          assert lo + 0 * step < hi && x in f(lo + 0 * step);
        } else {
          var q: nat :| lo + step + q * step < hi && x in f(lo + step + q * step);
          assert lo + (q + 1) * step == lo + step + q * step;
        }
      }
      if exists q: nat :: lo + q * step < hi && x in f(lo + q * step) {
        var q: nat :| lo + q * step < hi && x in f(lo + q * step);
        if q > 0 {
          assert lo + step + (q - 1) * step == lo + q * step;
        }
      }
    }
  }

  /** The number of indices lo, lo + step, ... below hi: the length of `range(lo, hi, step)`. */
  function StridedCount(lo: int, hi: int, step: int): nat
    requires step > 0
    decreases hi - lo
  {
    if hi <= lo then 0 else 1 + StridedCount(lo + step, hi, step)
  }

  /** `range(lo, hi, step)` has ceil((hi - lo) / step) elements. */
  lemma {:induction false} StridedCountIs(lo: int, hi: int, step: int)
    requires step > 0 && lo <= hi
    ensures StridedCount(lo, hi, step) == (hi - lo + step - 1) / step
    decreases hi - lo
  {
    if hi == lo {
      DivModOf(0, step - 1, step);
    } else if lo + step <= hi {
      StridedCountIs(lo + step, hi, step);
      var x := hi - lo - 1;
      assert (x / step + 1) * step + x % step == x + step;
      DivModOf(x / step + 1, x % step, step);
    } else {
      DivModOf(1, hi - lo - 1, step);
    }
  }

  /** With pieces of equal length c, a strided concatenation has one piece per index of the range. */
  lemma {:induction false} StridedLength<T>(lo: int, hi: int, step: int, f: int -> seq<T>, c: nat)
    requires step > 0
    requires forall k :: lo <= k < hi ==> |f(k)| == c
    ensures |Strided(lo, hi, step, f)| == StridedCount(lo, hi, step) * c
    decreases hi - lo
  {
    if hi > lo {
      StridedLength(lo + step, hi, step, f, c);
    }
  }

  /** Appending one piece more to a strided concatenation: the loop step of a strided loop. */
  lemma StridedStep<T>(acc: seq<T>, lo: int, hi: int, step: int, f: int -> seq<T>)
    requires step > 0 && lo < hi
    ensures (acc + f(lo)) + Strided(lo + step, hi, step, f) == acc + Strided(lo, hi, step, f)
  {
  }

  /** Euclidean division by a positive divisor undoes q * b + r for 0 <= r < b. */
  lemma DivModOf(q: int, r: int, b: int)
    requires b > 0 && 0 <= r < b
    ensures (q * b + r) / b == q && (q * b + r) % b == r
  {
    var n := q * b + r;
    var q', r' := n / b, n % b;
    assert n == q' * b + r';
    if q' > q {
      assert (q' - q) * b == q' * b - q * b;
      MulMonotone(q' - q, b);
    } else if q' < q {
      assert (q - q') * b == q * b - q' * b;
      MulMonotone(q - q', b);
    }
  }

  /** A product of a positive count and a positive number is at least that number. */
  lemma MulMonotone(a: int, b: int)
    requires a >= 1 && b > 0
    ensures a * b >= b
  {
    assert a * b == (a - 1) * b + b;
    assert (a - 1) * b >= 0;
  }
}
