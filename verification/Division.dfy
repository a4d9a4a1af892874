/** Quotients and remainders with a variable divisor, proved from products. */
module Division {

  lemma {:induction false} ProductGap(a: nat, b: nat, c: nat)
    requires a < b
    ensures a * c + c <= b * c
  {
    assert b * c == a * c + (b - a) * c;
    assert (b - a) * c == c + (b - a - 1) * c;
  }

  /** A quotient and a small remainder determine each other. */
  lemma {:induction false} QuotientUnique(x: nat, c: nat, q: nat, r: nat)
    requires c > 0 && r < c && x == q * c + r
    ensures x / c == q && x % c == r
  {
    var q', r' := x / c, x % c;
    assert x == c * q' + r';
    if q' < q {
      ProductGap(q', q, c);
    } else if q < q' {
      ProductGap(q, q', c);
    }
  }

  lemma {:induction false} Regroup(q: nat, w: nat, a: nat, c: nat)
    ensures (q * w + a) * c == q * (w * c) + a * c
  {
    assert (q * w) * c == q * (w * c);
  }

  lemma {:induction false} NestedDigits(x: nat, w: nat, c: nat, q: nat, a: nat, b: nat)
    requires w > 0 && c > 0 && a < w && b < c && x == q * (w * c) + (a * c + b)
    ensures w * c > 0 && x / (w * c) == q && x % (w * c) == a * c + b
    ensures (a * c + b) / c == a
    ensures x / c == q * w + a && (q * w + a) % w == a
  {
    ProductGap(a, w, c);
    QuotientUnique(x, w * c, q, a * c + b);
    QuotientUnique(a * c + b, c, a, b);
    Regroup(q, w, a, c);
    QuotientUnique(x, c, q * w + a, b);
    QuotientUnique(q * w + a, w, q, a);
  }

  lemma {:induction false} DigitsOf(x: nat, w: nat, c: nat) returns (q: nat, a: nat, b: nat)
    requires w > 0 && c > 0
    ensures a < w && b < c && x == q * (w * c) + (a * c + b)
  {
    var n := x / c;
    b, q, a := x % c, n / w, n % w;
    Regroup(q, w, a, c);
    assert n == q * w + a;
    assert x == n * c + b;
  }

  /** Dividing the remainder of a big period is the remainder of the quotient. */
  lemma {:induction false} RemainderQuotient(x: nat, w: nat, c: nat)
    requires w > 0 && c > 0
    ensures w * c > 0
    ensures (x % (w * c)) / c == (x / c) % w
    ensures (x % (w * c)) / c < w
    ensures x / c == (x / (w * c)) * w + (x % (w * c)) / c
  {
    var q, a, b := DigitsOf(x, w, c);
    NestedDigits(x, w, c, q, a, b);
  }

  /** Being in the i-th period after the one that holds `base`. */
  lemma {:induction false} PeriodIff(x: nat, period: nat, q: nat)
    requires period > 0
    ensures q * period <= x < q * period + period <==> x / period == q
  {
    var q', r' := x / period, x % period;
    assert x == period * q' + r';
    if q' < q {
      ProductGap(q', q, period);
    } else if q < q' {
      ProductGap(q, q', period);
    }
  }

  lemma {:induction false} QuotientMonotone(x: nat, y: nat, c: nat)
    requires c > 0 && x <= y
    ensures x / c <= y / c
  {
    var q, q' := x / c, y / c;
    assert x == c * q + x % c && y == c * q' + y % c;
    if q' < q {
      ProductGap(q', q, c);
    }
  }

  lemma {:induction false} ProductMonotone(a: nat, b: nat, c: nat)
    ensures a <= b ==> a * c <= b * c
    ensures a < b ==> a * c + c <= b * c
  {
    if a < b {
      ProductGap(a, b, c);
    }
  }

  lemma {:induction false} QuotientAtLeast(x: nat, q: nat, c: nat)
    requires c > 0 && x >= q * c
    ensures x / c >= q
  {
    QuotientUnique(q * c, c, q, 0);
    QuotientMonotone(q * c, x, c);
  }

  lemma {:induction false} QuotientBelow(x: nat, q: nat, c: nat)
    requires c > 0 && x < q * c
    ensures x / c < q
  {
    ProductMonotone(q, x / c, c);
    assert x == (x / c) * c + x % c;
  }

  lemma {:induction false} CongruentAndClose(a: nat, b: nat, w: nat)
    requires w > 0 && a <= b < a + w && a % w == b % w
    ensures a == b
  {
    var q, p := a / w, b / w;
    assert a == q * w + a % w && b == p * w + b % w;
    QuotientMonotone(a, b, w);
    ProductMonotone(q, p, w);
  }

  /** Less than two periods apart, equal remainders mean equal or one period apart. */
  lemma {:induction false} CongruentIff(a: nat, b: nat, w: nat)
    requires w > 0 && a <= b < a + 2 * w
    ensures a % w == b % w <==> a == b || a + w == b
  {
    OnePeriodLater(a, w);
    if a % w == b % w {
      if b < a + w {
        CongruentAndClose(a, b, w);
      } else {
        CongruentAndClose(a + w, b, w);
      }
    }
  }

  lemma {:induction false} OnePeriodLater(a: nat, w: nat)
    requires w > 0
    ensures (a + w) % w == a % w
  {
    assert (a / w + 1) * w == (a / w) * w + w;
    QuotientUnique(a + w, w, a / w + 1, a % w);
  }

  /** Two numbers are equal exactly when their quotients and remainders are. */
  lemma {:induction false} SameDigits(x: nat, y: nat, w: nat)
    requires w > 0
    ensures x == y <==> x / w == y / w && x % w == y % w
  {
    assert x == (x / w) * w + x % w && y == (y / w) * w + y % w;
  }

  lemma {:induction false} NestedQuotient(x: nat, w: nat, c: nat)
    requires w > 0 && c > 0
    ensures w * c > 0 && x / (w * c) == (x / c) / w
  {
    var q, a, b := DigitsOf(x, w, c);
    NestedDigits(x, w, c, q, a, b);
    QuotientUnique(q * w + a, w, q, a);
  }

  /** Equal quotients and remainders, taken in two steps or in one. */
  lemma {:induction false} SameNestedDigits(x: nat, y: nat, w: nat, c: nat)
    requires w > 0 && c > 0
    ensures w * c > 0
    ensures x / (w * c) == y / (w * c) && (x / c) % w == (y / c) % w <==> x / c == y / c
  {
    NestedQuotient(x, w, c);
    NestedQuotient(y, w, c);
    SameDigits(x / c, y / c, w);
  }

  /** Within two periods, equal remainders mean equal or one period apart, either way. */
  lemma {:induction false} CongruentEither(a: nat, b: nat, w: nat, low: nat)
    requires w > 0 && low <= a < low + 2 * w && low <= b < low + 2 * w
    ensures a % w == b % w <==> a == b || a + w == b || b + w == a
  {
    if a <= b {
      CongruentIff(a, b, w);
    } else {
      CongruentIff(b, a, w);
    }
  }

  /** Less than `w` times `c` later is at most `w` quotients later. */
  lemma {:induction false} QuotientSpan(x: nat, y: nat, w: nat, c: nat)
    requires c > 0 && y < x + w * c
    ensures y / c <= x / c + w
    ensures x % c == 0 && w > 0 ==> y / c < x / c + w
  {
    var q := x / c;
    Multiple(x, c);
    Shifted(q, w, c);
    Shifted(q, w + 1, c);
    Shifted(w, 1, c);
    QuotientBelow(y, q + (w + 1), c);
    if x % c == 0 && w > 0 {
      QuotientBelow(y, q + w, c);
    }
  }

  lemma {:induction false} Multiple(x: nat, c: nat)
    requires c > 0
    ensures x == (x / c) * c + x % c && x % c < c
  {
  }

  lemma {:induction false} Shifted(q: nat, w: nat, c: nat)
    ensures (q + w) * c == q * c + w * c
  {
  }

  /** The cycles from the base of the line of `x` up to one line after `x`. */
  lemma {:induction false} QuotientsFromBase(x: nat, y: nat, w: nat, c: nat)
    requires w > 0 && c > 0 && w * c > 0 && (x / (w * c)) * (w * c) <= y < x + w * c
    ensures (x / (w * c)) * w <= y / c < (x / (w * c)) * w + 2 * w
  {
    var q := x / (w * c);
    Multiple(x, w * c);
    Regroup(q, w, 0, c);
    Regroup(q, w, 2 * w, c);
    Shifted(w, w, c);
    QuotientAtLeast(y, q * w, c);
    QuotientBelow(y, q * w + 2 * w, c);
  }

  /** The first cycle of the line that `x` is on. */
  lemma {:induction false} FirstCycle(x: nat, width: nat, cycle: nat) returns (low: nat)
    requires width * cycle > 0
    ensures low == (x / (width * cycle)) * width
  {
    var q: nat := x / (width * cycle);
    low := q * width;
  }
}
