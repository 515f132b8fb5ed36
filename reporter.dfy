/** The progress feed of index.go (displayProgress): an integer percentage
    and a four-glyph spinner. */
module Reporter {

  /** The spinner glyphs, in the order they are shown. */
  const Spinner: seq<string> := ["|", "/", "-", "\\"]

  /** What one call of displayProgress shows: the "invalid progress" message
      when the total is not positive, otherwise a percentage and a glyph. */
  datatype Progress = InvalidTotal | Shown(percent: int, glyph: string)

  /** Division of a non-negative dividend by a positive divisor, truncated:
      the number of times `d` can be taken from `n`. */
  function Quotient(n: nat, d: int): nat
    requires d > 0
    decreases n
  {
    if n < d then 0 else 1 + Quotient(n - d, d)
  }

  /** The quotient is the largest q with q * d <= n. */
  lemma {:induction false} QuotientIsFloor(n: nat, d: int)
    requires d > 0
    ensures Quotient(n, d) * d <= n < (Quotient(n, d) + 1) * d
    decreases n
  {
    if n >= d {
      QuotientIsFloor(n - d, d);
      var q := Quotient(n - d, d);
      assert (q + 1) * d == q * d + d && (q + 2) * d == (q + 1) * d + d;
    }
  }

  /** The quotient agrees with integer division; Go's truncating `/` and
      Dafny's `/` coincide on a non-negative dividend and positive divisor. */
  lemma QuotientIsDivision(n: nat, d: int)
    requires d > 0
    ensures Quotient(n, d) == n / d
  {
    var q := Quotient(n, d);
    QuotientIsFloor(n, d);
    assert (q + 1) * d == q * d + d;
    DivisionUnique(n, d, q);
  }

  lemma DivisionUnique(n: nat, d: int, q: int)
    requires d > 0 && q * d <= n < q * d + d
    ensures q == n / d
  {
    var r := n / d;
    assert n == r * d + n % d && 0 <= n % d < d;
    if q < r {
      MulMonotone(q + 1, r, d);
    } else if q > r {
      MulMonotone(r + 1, q, d);
    }
  }

  /** (current * 100) / total: Go divides the two non-negative operands with
      truncation, which is the quotient above. */
  function Percent(current: nat, total: int): (p: nat)
    requires total > 0
    ensures p * total <= current * 100 < p * total + total
  {
    QuotientIsFloor(current * 100, total);
    Quotient(current * 100, total)
  }

  /** The spinner position for the `current`-th record: (current - 1) mod 4. */
  function SpinnerIndex(current: int): (i: nat)
    requires current >= 1
    ensures i < |Spinner|
    ensures (current - 1 - i) % |Spinner| == 0
  {
    (current - 1) % |Spinner|
  }

  /** displayProgress. The source indexes the spinner with (current - 1) % 4,
      which its only caller keeps non-negative by passing a count of at least
      one; with a non-positive total no division and no indexing happen. */
  function DisplayProgress(current: int, total: int): (r: Progress)
    requires total > 0 ==> current >= 1
    ensures r.InvalidTotal? <==> total <= 0
    ensures r.Shown? ==> r.percent == Percent(current, total)
    ensures r.Shown? ==> r.glyph == Spinner[SpinnerIndex(current)]
  {
    if total <= 0 then InvalidTotal
    else Shown(Percent(current, total), Spinner[SpinnerIndex(current)])
  }

  /** While the count stays within the total, the percentage lies in
      [0, 100] and reaches 100 exactly at the last record. */
  lemma PercentInRange(current: nat, total: int)
    requires 1 <= current <= total
    ensures 0 <= Percent(current, total) <= 100
    ensures Percent(current, total) == 100 <==> current == total
  {
    var p := Percent(current, total);
    MulMonotone(current, total, 100);
    assert p * total <= total * 100;
    if p >= 101 {
      MulMonotone(101, p, total);
      assert false;
    }
    if current == total {
      if p < 100 {
        MulMonotone(p + 1, 100, total);
        assert false;
      }
    } else {
      MulMonotone(current, total - 1, 100);
      if p == 100 {
        assert false;
      }
    }
  }

  /** The percentage never decreases as the count grows. */
  lemma PercentMonotone(c1: nat, c2: nat, total: int)
    requires total > 0 && c1 <= c2
    ensures Percent(c1, total) <= Percent(c2, total)
  {
    var p1, p2 := Percent(c1, total), Percent(c2, total);
    MulMonotone(c1, c2, 100);
    if p1 > p2 {
      MulMonotone(p2 + 1, p1, total);
    }
  }

  /** The percentage passes 100 exactly when the count reaches 101% of the
      total, which a count beyond a total of at most 100 does. */
  lemma PercentAbove100(current: nat, total: int)
    requires total > 0
    ensures Percent(current, total) > 100 <==> current * 100 >= 101 * total
  {
    var p := Percent(current, total);
    if p > 100 {
      MulMonotone(101, p, total);
    }
    if current * 100 >= 101 * total && p <= 100 {
      MulMonotone(p + 1, 101, total);
    }
  }

  lemma MulMonotone(a: int, b: int, c: int)
    requires a <= b && c >= 0
    ensures a * c <= b * c
  {
  }

  /** The spinner advances one glyph per record and wraps after the fourth. */
  lemma SpinnerCycles(current: int)
    requires current >= 1
    ensures SpinnerIndex(current + 1) == (SpinnerIndex(current) + 1) % |Spinner|
    ensures SpinnerIndex(current + |Spinner|) == SpinnerIndex(current)
  {
    var n := current - 1;
    var q, i := n / 4, n % 4;
    assert n == 4 * q + i;
    if i < 3 {
      ModOf(n + 1, q, i + 1);
    } else {
      ModOf(n + 1, q + 1, 0);
    }
    ModOf(n + 4, q + 1, i);
  }

  lemma ModOf(m: int, q: int, r: int)
    requires m == 4 * q + r && 0 <= r < 4
    ensures m % 4 == r
  {
  }

  /** The first four records show the glyphs in their listed order. */
  lemma SpinnerOrder()
    ensures DisplayProgress(1, 4) == Shown(25, "|")
    ensures DisplayProgress(2, 4) == Shown(50, "/")
    ensures DisplayProgress(3, 4) == Shown(75, "-")
    ensures DisplayProgress(4, 4) == Shown(100, "\\")
    ensures DisplayProgress(5, 4) == Shown(125, "|")
  {
    ProgressOfFour(1, 25, 0);
    ProgressOfFour(2, 50, 1);
    ProgressOfFour(3, 75, 2);
    ProgressOfFour(4, 100, 3);
    ProgressOfFour(5, 125, 0);
  }

  lemma ProgressOfFour(current: int, p: nat, i: nat)
    requires current >= 1 && p * 4 <= current * 100 < p * 4 + 4
    requires i < 4 && current - 1 == 4 * ((current - 1) / 4) + i
    ensures DisplayProgress(current, 4) == Shown(p, Spinner[i])
  {
  }
}
