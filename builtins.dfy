/** The decimal rendering of a non-negative integer, as Python's `str(n)` and
    an f-string `{n}` produce it for the progress label and the block labels. */
module Decimal {

  predicate IsDigit(c: char) {
    '0' <= c <= '9'
  }

  predicate AllDigits(s: string) {
    forall i :: 0 <= i < |s| ==> IsDigit(s[i])
  }

  function DigitChar(d: nat): (c: char)
    requires d < 10
    ensures IsDigit(c) && (c as int) - ('0' as int) == d
  {
    (('0' as int) + d) as char
  }

  /** Decimal digits of n, most significant first, without leading zeros. */
  function ToString(n: nat): (s: string)
    ensures 1 <= |s| && AllDigits(s)
    ensures s[0] == '0' ==> n == 0 && s == "0"
    decreases n
  {
    if n < 10 then [DigitChar(n)] else ToString(n / 10) + [DigitChar(n % 10)]
  }

  /** Reads a string of decimal digits back as a number (the reference for ToString). */
  function Parse(s: string): nat
    requires AllDigits(s)
    decreases |s|
  {
    if s == [] then 0
    else Parse(s[..|s| - 1]) * 10 + ((s[|s| - 1] as int) - ('0' as int))
  }

  /** Rendering a number and reading it back yields the number. */
  lemma {:induction false} ParseToString(n: nat)
    ensures Parse(ToString(n)) == n
    decreases n
  {
    var s := ToString(n);
    if n >= 10 {
      ParseToString(n / 10);
      assert s[..|s| - 1] == ToString(n / 10);
    }
  }

}

/** Python's built-in `round` on a quotient, computed exactly: the integer
    nearest to num / den, with ties going to the even neighbour. */
module Rounding {

  function Abs(x: int): nat {
    if x < 0 then -x else x
  }

  lemma MulLe(a: int, b: int, d: nat)
    requires a <= b
    ensures a * d <= b * d
  {
  }

  /** Quotient/remainder decompositions by the same divisor keep the order of the numerators. */
  lemma QuotientLe(num: nat, den: nat, q: int, rem: int, num': nat, q': int, rem': int)
    requires den > 0 && 0 <= rem < den && num == q * den + rem
    requires num <= num' && 0 <= rem' < den && num' == q' * den + rem'
    ensures q <= q'
  {
    if q' < q {
      assert (q' + 1) * den == q' * den + den;
      MulLe(q' + 1, q, den);
    }
  }

  /** Floor division and remainder, as Python's `//` and `%` on naturals. */
  function QuotRem(num: nat, den: nat): (p: (nat, nat))
    requires den > 0
    ensures num == p.0 * den + p.1 && p.1 < den
  {
    (num / den, num % den)
  }

  /** The quotient and remainder are the only such decomposition. */
  lemma QuotRemUnique(num: nat, den: nat, q: int, rem: int)
    requires den > 0 && 0 <= rem < den && num == q * den + rem
    ensures QuotRem(num, den) == (q, rem)
  {
    var (q', rem') := QuotRem(num, den);
    QuotientLe(num, den, q, rem, num, q', rem');
    QuotientLe(num, den, q', rem', num, q, rem);
  }

  /** Choosing q + 1 when the remainder is above half the divisor (or exactly
      half with q odd) and q otherwise lands on the nearest multiple. */
  lemma NearestNeighbour(num: nat, den: nat, q: nat, rem: nat, r: nat)
    requires den > 0 && num == q * den + rem && rem < den
    requires r == if 2 * rem > den || (2 * rem == den && q % 2 == 1) then q + 1 else q
    ensures 2 * Abs(num - r * den) <= den
    ensures 2 * Abs(num - r * den) == den ==> r % 2 == 0
  {
  }

  function RoundHalfEven(num: nat, den: nat): (r: nat)
    requires den > 0
    ensures 2 * Abs(num - r * den) <= den
    ensures 2 * Abs(num - r * den) == den ==> r % 2 == 0
  {
    var (q, rem) := QuotRem(num, den);
    var r := if 2 * rem > den || (2 * rem == den && q % 2 == 1) then q + 1 else q;
    NearestNeighbour(num, den, q, rem, r);
    r
  }

  /** `round(filled / total * 100)`, the progress percentage. */
  function Percent(filled: nat, total: nat): (r: nat)
    requires total > 0
    ensures 2 * Abs(100 * filled - r * total) <= total
    ensures 2 * Abs(100 * filled - r * total) == total ==> r % 2 == 0
  {
    RoundHalfEven(100 * filled, total)
  }

  /** Rounding does not decrease when the numerator grows. */
  lemma {:induction false} RoundMonotone(a: nat, b: nat, den: nat)
    requires a <= b && den > 0
    ensures RoundHalfEven(a, den) <= RoundHalfEven(b, den)
  {
    var (qa, ra) := QuotRem(a, den);
    var (qb, rb) := QuotRem(b, den);
    QuotientLe(a, den, qa, ra, b, qb, rb);
    if qa == qb {
      assert ra <= rb;
    }
  }

  /** The percentage stays within 0..100 while no more fields are filled than exist. */
  lemma {:induction false} PercentBounds(filled: nat, total: nat)
    requires 0 < total && filled <= total
    ensures Percent(filled, total) <= 100
  {
    RoundMonotone(100 * filled, 100 * total, total);
    PercentAllFilled(total);
  }

  lemma PercentAllFilled(total: nat)
    requires 0 < total
    ensures Percent(total, total) == 100
  {
    QuotRemUnique(100 * total, total, 100, 0);
  }

  /** Filling more fields never lowers the percentage. */
  lemma {:induction false} PercentMonotone(a: nat, b: nat, total: nat)
    requires a <= b && 0 < total
    ensures Percent(a, total) <= Percent(b, total)
  {
    RoundMonotone(100 * a, 100 * b, total);
  }
}
