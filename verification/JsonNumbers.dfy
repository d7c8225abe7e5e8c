/**
  Integers as JavaScript passes them through JSON: reading one rounds it to the nearest double, and
  printing one gives the shortest decimal that reads back as the same double (section 6 of RFC 8259
  leaves both to the implementation; these are the rules of ECMAScript's Number type, for magnitudes
  below 10^21, where no exponent is printed).
 */
module JsonNumbers {
  import opened Encoding
  import opened Wrappers

  /** 2^53: up to here every integer is a double. */
  const EXACT := 0x20_0000_0000_0000

  // ---------------------------------------------------------------- reading

  function Pow2(e: nat): (p: nat)
    ensures p > 0
  {
    if e == 0 then 1 else 2 * Pow2(e - 1)
  }

  /** The distance between neighbouring doubles at `n`. */
  function Ulp(n: nat): (u: nat)
    ensures u > 0
  {
    if n < EXACT then 1 else 2 * Ulp(n / 2)
  }

  /** The nearest multiple of `u`, the even one on a tie. */
  function RoundTo(n: nat, u: nat): nat
    requires u > 0
  {
    var q, r := n / u, n % u;
    if 2 * r < u || (2 * r == u && q % 2 == 0) then q * u else (q + 1) * u
  }

  function Magnitude(n: nat): nat {
    RoundTo(n, Ulp(n))
  }

  /** What `JSON.parse` or `Number` makes of an integer. */
  function Number(n: int): int {
    var m: int := Magnitude(Abs(n));
    if n < 0 then -m else m
  }

  ghost predicate IsProduct(n: nat, m: nat, e: nat) {
    m <= EXACT && n == m * Pow2(e)
  }

  /** Some double has this magnitude. */
  ghost predicate Representable(n: nat) {
    exists m, e :: IsProduct(n, m, e)
  }

  lemma {:induction false} UlpScales(n: nat) returns (e: nat)
    ensures Ulp(n) == Pow2(e) && n < EXACT * Ulp(n)
    ensures if n < EXACT then e == 0 else e > 0 && EXACT / 2 * Ulp(n) <= n
  {
    if n < EXACT {
      e := 0;
    } else {
      var k := UlpScales(n / 2);
      e := k + 1;
    }
  }

  lemma Split(n: nat, u: nat)
    requires u > 0
    ensures n == n / u * u + n % u && 0 <= n % u < u
    ensures (n / u + 1) * u == n / u * u + u
  {
  }

  lemma {:induction false} Pow2Splits(a: nat, b: nat)
    ensures Pow2(a + b) == Pow2(a) * Pow2(b)
  {
    if a == 0 {
    } else {
      Pow2Splits(a - 1, b);
    }
  }

  lemma Monotone(a: nat, b: nat, u: nat)
    ensures a <= b ==> a * u <= b * u
  {
  }

  lemma MultipleOf(s: nat, q: nat, u: nat)
    ensures s * u <= q * u || s * u >= q * u + u
  {
    Monotone(s, q, u);
    Monotone(q + 1, s, u);
  }

  lemma Regroup(a: nat, b: nat, c: nat)
    ensures a * (b * c) == (a * c) * b
  {
  }

  /** A product too small in its power of two lies below the unit's range. */
  lemma TooSmall(m: nat, p: nat, t: nat)
    requires m <= EXACT && t >= 1
    ensures m * p <= EXACT / 2 * (2 * (t * p))
  {
    assert m * p <= EXACT * p;
    assert EXACT / 2 * (2 * (t * p)) == EXACT * (t * p);
    assert 1 * p <= t * p;
  }

  /** A multiple of a power of two at least the unit is not strictly between neighbours. */
  lemma CoarseIsMultiple(m: nat, e: nat, k: nat, q: nat)
    requires e >= k
    ensures m * Pow2(e) <= q * Pow2(k) || m * Pow2(e) >= q * Pow2(k) + Pow2(k)
  {
    Pow2Splits(k, e - k);
    Regroup(m, Pow2(k), Pow2(e - k));
    MultipleOf(m * Pow2(e - k), q, Pow2(k));
  }

  /** A multiple of a smaller power of two is below the unit's range. */
  lemma FineIsBelow(m: nat, e: nat, k: nat, q: nat)
    requires e < k && m <= EXACT && EXACT / 2 <= q
    ensures m * Pow2(e) <= q * Pow2(k)
  {
    Pow2Splits(k - 1 - e, e);
    TooSmall(m, Pow2(e), Pow2(k - 1 - e));
    Monotone(EXACT / 2, q, Pow2(k));
  }

  /** Which multiples of the unit enclose `n`, and that they are doubles. */
  lemma Enclosed(n: nat) returns (q: nat, e: nat)
    ensures q == n / Ulp(n) && q < EXACT && Ulp(n) == Pow2(e) && (e > 0 ==> EXACT / 2 <= q)
    ensures q * Ulp(n) <= n < q * Ulp(n) + Ulp(n)
  {
    e := UlpScales(n);
    var u := Ulp(n);
    q := n / u;
    Split(n, u);
    BoundsOf(n, q, u);
  }

  lemma BoundsOf(n: nat, q: nat, u: nat)
    requires q * u <= n < q * u + u
    ensures n < EXACT * u ==> q < EXACT
    ensures EXACT / 2 * u <= n ==> EXACT / 2 <= q
  {
    Monotone(EXACT, q, u);
    Monotone(q + 1, EXACT / 2, u);
  }

  /** Between neighbouring multiples of the unit no double lies. */
  lemma NoneBetween(n: nat, r: nat)
    requires Representable(r)
    ensures r <= n / Ulp(n) * Ulp(n) || r >= n / Ulp(n) * Ulp(n) + Ulp(n)
  {
    var q, k := Enclosed(n);
    var m: nat, e: nat :| IsProduct(r, m, e);
    if e >= k {
      CoarseIsMultiple(m, e, k, q);
    } else {
      FineIsBelow(m, e, k, q);
    }
  }

  /** No double is closer. */
  lemma MagnitudeIsNearest(n: nat, r: nat)
    requires Representable(r)
    ensures Abs(Magnitude(n) - n) <= Abs(r - n)
  {
    Split(n, Ulp(n));
    NoneBetween(n, r);
  }

  /** Of two equally close ones it is the even multiple of the unit. */
  lemma TiesGoToEven(n: nat, r: nat)
    requires Representable(r) && r != Magnitude(n) && Abs(Magnitude(n) - n) == Abs(r - n)
    ensures Magnitude(n) % Ulp(n) == 0 && Magnitude(n) / Ulp(n) % 2 == 0
  {
    Split(n, Ulp(n));
    NoneBetween(n, r);
    RoundedTie(n, Ulp(n), r);
  }

  lemma RoundedTie(n: nat, u: nat, r: nat)
    requires u > 0 && r != RoundTo(n, u) && Abs(RoundTo(n, u) - n) == Abs(r - n)
    requires n == n / u * u + n % u && (n / u + 1) * u == n / u * u + u
    requires r <= n / u * u || r >= n / u * u + u
    ensures RoundTo(n, u) % u == 0 && RoundTo(n, u) / u % 2 == 0
  {
    Quotient(n / u, u);
    Quotient(n / u + 1, u);
  }

  lemma Quotient(q: nat, u: nat)
    requires u > 0
    ensures q * u % u == 0 && q * u / u == q
  {
    var a := q * u / u;
    Split(q * u, u);
    MultipleOf(q, a, u);
    MultipleOf(a, q, u);
    assert (q - a) * u == 0;
  }

  /** Reading keeps order. */
  lemma MagnitudeMonotone(a: nat, b: nat)
    requires a <= b
    ensures Magnitude(a) <= Magnitude(b)
  {
    MagnitudeIsDouble(a);
    MagnitudeIsDouble(b);
    MagnitudeIsNearest(a, Magnitude(b));
    MagnitudeIsNearest(b, Magnitude(a));
  }

  lemma MagnitudeIsDouble(n: nat)
    ensures Representable(Magnitude(n))
  {
    var q, e := Enclosed(n);
    Split(n, Ulp(n));
    assert IsProduct(q * Ulp(n), q, e) && IsProduct((q + 1) * Ulp(n), q + 1, e);
  }

  /** The conversion keeps an integer exactly when its magnitude is at most 2^53 times a power of two. */
  lemma NumberKeepsIff(n: int)
    ensures Number(n) == n <==> Representable(Abs(n))
  {
    MagnitudeIsDouble(Abs(n));
    if Representable(Abs(n)) { MagnitudeIsNearest(Abs(n), Abs(n)); }
  }

  /** Every integer up to 2^53 is kept, and the next one is not. */
  lemma SmallNumbersAreKept(n: int)
    ensures Abs(n) <= EXACT ==> Number(n) == n
    ensures Number(EXACT + 1) == EXACT
  {
    if Abs(n) <= EXACT {
      assert IsProduct(Abs(n), Abs(n), 0);
      NumberKeepsIff(n);
    }
    assert Ulp(EXACT / 2) == 1;
  }

  // ---------------------------------------------------------------- printing

  function Pow10(j: nat): (p: nat)
    ensures p > 0
  {
    if j == 0 then 1 else 10 * Pow10(j - 1)
  }

  /** The nearer of two neighbouring multiples that read as wanted, the even one on a tie; `r` is the way from the lower one. */
  function Nearer(below: nat, p: nat, q: nat, r: nat, belowReads: bool, aboveReads: bool): Option<nat> {
    if belowReads && (!aboveReads || 2 * r < p || (2 * r == p && q % 2 == 0)) then Some(below)
    else if aboveReads then Some(below + p)
    else None
  }

  /** The closest multiple of `p` that reads as the double `x`, the even one on a tie. */
  function ClosestReading(x: nat, p: nat): Option<nat>
    requires p > 0
  {
    var below := x / p * p;
    Nearer(below, p, x / p, x % p, Magnitude(below) == x, Magnitude(below + p) == x)
  }

  /** As many trailing zeros as possible, at most `j`. */
  function ShortestFrom(x: nat, j: nat): nat {
    if j == 0 then x
    else
      match ClosestReading(x, Pow10(j))
      case Some(v) => v
      case None => ShortestFrom(x, j - 1)
  }

  const MAX_DIGITS := 21

  /** What `JSON.stringify` prints for a double. */
  function Printed(x: int): int {
    var m: int := ShortestFrom(Abs(x), MAX_DIGITS);
    if x < 0 then -m else m
  }

  /** What arrives when JavaScript sends an integer: converted to a double, then printed. */
  function Sent(n: int): int {
    Printed(Number(n))
  }

  lemma {:induction false} ShortestReads(x: nat, j: nat)
    requires Magnitude(x) == x
    ensures Magnitude(ShortestFrom(x, j)) == x
  {
    if j == 0 {
    } else {
      ShortestReads(x, j - 1);
    }
  }

  /** Printing loses nothing that reading kept: what was sent reads back as the same double. */
  lemma SentReadsBack(n: int)
    ensures Number(Sent(n)) == Number(n)
  {
    MagnitudeIsDouble(Abs(n));
    NumberKeepsIff(Magnitude(Abs(n)));
    ShortestReads(Magnitude(Abs(n)), MAX_DIGITS);
    ZeroIsZero(ShortestFrom(Magnitude(Abs(n)), MAX_DIGITS));
  }

  lemma ZeroIsZero(n: nat)
    ensures n > 0 ==> Magnitude(n) > 0
  {
    if n > 0 {
      assert IsProduct(1, 1, 0);
      MagnitudeIsNearest(n, 1);
    }
  }

  /** `v` is a multiple of `p` that reads as `x`, and none is closer; an even one if another is as close. */
  ghost predicate IsClosest(x: nat, p: nat, v: nat)
    requires p > 0
  {
    && v % p == 0 && Magnitude(v) == x
    && forall w: nat {:trigger Magnitude(w * p)} | Magnitude(w * p) == x ::
         Abs(v - x) <= Abs(w * p - x) && (w * p != v && Abs(w * p - x) == Abs(v - x) ==> v / p % 2 == 0)
  }

  /** What reads as `x` on one side of it leaves everything between reading as `x` too. */
  lemma NeighbourReads(x: nat, below: nat, above: nat, v: nat)
    requires below <= x <= above && Magnitude(x) == x && Magnitude(v) == x
    ensures v <= below ==> Magnitude(below) == x
    ensures v >= above ==> Magnitude(above) == x
  {
    if v <= below {
      MagnitudeMonotone(v, below);
      MagnitudeMonotone(below, x);
    }
    if v >= above {
      MagnitudeMonotone(x, above);
      MagnitudeMonotone(above, v);
    }
  }

  /** The reading is one of the neighbours of `x`, no further than `v`; on a tie the even multiple. */
  lemma NearerReads(x: nat, p: nat, q: nat, r: nat, below: nat, v: nat)
    requires x == below + r && r < p && Magnitude(x) == x && Magnitude(v) == x && (v <= below || v >= below + p)
    ensures var c := Nearer(below, p, q, r, Magnitude(below) == x, Magnitude(below + p) == x);
      && c.Some? && c.value in {below, below + p} && Abs(c.value - x) <= Abs(v - x)
      && (v != c.value && Abs(v - x) == Abs(c.value - x) ==> (if c.value == below then q else q + 1) % 2 == 0)
  {
    NeighbourReads(x, below, below + p, v);
    NearerIs(below, p, q, r, Magnitude(below) == x, Magnitude(below + p) == x, v);
  }

  lemma NearerIs(below: nat, p: nat, q: nat, r: nat, belowReads: bool, aboveReads: bool, v: nat)
    requires r < p && (if v <= below then belowReads else v >= below + p && aboveReads)
    ensures var c := Nearer(below, p, q, r, belowReads, aboveReads);
      && c.Some? && c.value in {below, below + p} && Abs(c.value - (below + r)) <= Abs(v - (below + r))
      && (v != c.value && Abs(v - (below + r)) == Abs(c.value - (below + r)) ==> (if c.value == below then q else q + 1) % 2 == 0)
  {
  }

  lemma ClosestReadingIs(x: nat, p: nat)
    requires p > 0 && Magnitude(x) == x
    ensures match ClosestReading(x, p)
      case Some(v) => IsClosest(x, p, v)
      case None => forall w: nat :: Magnitude(w * p) != x
  {
    var q := x / p;
    Split(x, p);
    Quotient(q, p);
    Quotient(q + 1, p);
    forall w: nat | Magnitude(w * p) == x
      ensures ClosestReading(x, p).Some?
      ensures var v := ClosestReading(x, p).value;
        Abs(v - x) <= Abs(w * p - x) && (w * p != v && Abs(w * p - x) == Abs(v - x) ==> v / p % 2 == 0)
    {
      MultipleOf(w, q, p);
      NearerReads(x, p, q, x % p, q * p, w * p);
    }
  }

  /**
    What is printed for a double is the shortest decimal that reads as it: with some number of trailing
    zeros, than which no such decimal has more; and the closest of those, the even one on a tie.
   */
  lemma {:induction false} PrintedIsShortest(x: nat, j: nat) returns (i: nat)
    requires Magnitude(x) == x
    ensures i <= j && IsClosest(x, Pow10(i), ShortestFrom(x, j))
    ensures forall k: nat, w: nat | i < k <= j :: Magnitude(w * Pow10(k)) != x
  {
    if j == 0 {
      i := 0;
      assert Pow10(0) == 1;
    } else {
      ClosestReadingIs(x, Pow10(j));
      if ClosestReading(x, Pow10(j)).Some? {
        i := j;
      } else {
        i := PrintedIsShortest(x, j - 1);
      }
    }
  }

  /** No other multiple of ten reads as a number up to 2^53. */
  lemma OnlyItselfReads(x: nat, w: nat)
    requires x <= EXACT && Magnitude(10 * w) == x
    ensures 10 * w == x
  {
    if 10 * w <= EXACT {
      SmallNumbersAreKept(10 * w);
    } else {
      assert IsProduct(EXACT + 2, EXACT / 2 + 1, 1) by { assert Pow2(1) == 2 * Pow2(0); }
      MagnitudeIsNearest(10 * w, EXACT + 2);
    }
  }

  lemma {:induction false} SmallPrintAsThemselves(x: nat, j: nat)
    requires x <= EXACT
    ensures ShortestFrom(x, j) == x
  {
    if j == 0 {
    } else {
      SmallPrintAsThemselves(x, j - 1);
      var reading := ClosestReading(x, Pow10(j));
      if reading.Some? {
        var w := ReadingIsMultiple(x, j);
        OnlyItselfReads(x, w);
      }
    }
  }

  lemma ReadingIsMultiple(x: nat, j: nat) returns (w: nat)
    requires j > 0 && ClosestReading(x, Pow10(j)).Some?
    ensures ClosestReading(x, Pow10(j)) == Some(10 * w) && Magnitude(10 * w) == x
  {
    var q, t := x / Pow10(j), Pow10(j - 1);
    assert q * Pow10(j) == 10 * (q * t);
    assert q * Pow10(j) + Pow10(j) == 10 * (q * t + t);
    var v := ClosestReading(x, Pow10(j)).value;
    w := if v == q * Pow10(j) then q * t else q * t + t;
  }

  /** Up to 2^53 an integer survives being sent and being read. */
  lemma SmallNumbersSurvive(n: int)
    requires Abs(n) <= EXACT
    ensures Number(n) == n && Sent(n) == n
  {
    SmallNumbersAreKept(n);
    SmallPrintAsThemselves(Abs(n), MAX_DIGITS);
  }
}
