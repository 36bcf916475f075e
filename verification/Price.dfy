/** Price arithmetic: 128-bit multiply-and-divide with both roundings, the offer conversion built on
    it, and the continued-fraction approximation of a decimal price by two int32 numbers. */
module Price {
  import opened Common

  datatype PriceError = DivisionByZero | NoNegatives | Overflow | InvalidFormat | CannotParse | NoApproximation

  type Amount = Result<int, PriceError>

  predicate IsInt64(x: int) {
    -0x8000_0000_0000_0000 <= x <= MAX_INT64
  }

  /** `q` is the quotient a / d rounded down, respectively up. */
  predicate IsFloor(q: int, a: int, d: int) {
    q * d <= a < q * d + d
  }

  predicate IsCeil(q: int, a: int, d: int) {
    q * d - d < a <= q * d
  }

  /** bits.Mul64. */
  function Mul64(a: int, b: int): (r: (int, int))
    requires 0 <= a < TWO64 && 0 <= b < TWO64
    ensures 0 <= r.1 < TWO64 && 0 <= r.0 && r.0 * TWO64 + r.1 == a * b
  {
    assert a * b >= 0;
    (a * b / TWO64, a * b % TWO64)
  }

  /** bits.Div64, which panics unless hi < y. */
  function Div64(hi: int, lo: int, y: int): (q: int)
    requires 0 <= hi < y && 0 <= lo < TWO64
    ensures IsFloor(q, hi * TWO64 + lo, y) && 0 <= q < TWO64
  {
    var a := hi * TWO64 + lo;
    QuotientBounds(a, y);
    assert a < y * TWO64 by {
      assert hi + 1 <= y;
      MulMono(hi + 1, y, TWO64);
    }
    FloorBelow(a / y, a, y, TWO64);
    a / y
  }

  lemma QuotientBounds(a: int, d: int)
    requires a >= 0 && d > 0
    ensures IsFloor(a / d, a, d) && a / d >= 0
  {
  }

  /** A floor is below a bound exactly when the dividend is below the bound times the divisor. */
  lemma FloorBelow(q: int, a: int, d: int, bound: int)
    requires d > 0 && IsFloor(q, a, d)
    ensures q < bound <==> a < bound * d
  {
    if q < bound {
      MulMono(q + 1, bound, d);
    } else {
      MulMono(bound, q, d);
    }
  }

  /** MulFractionRoundDown: the exact floor of x·n/d, overflow reported exactly when it exceeds
      int64, and the errors in the order they are checked. */
  function MulFractionRoundDown(x: int, n: int, d: int): (r: Amount)
    requires IsInt64(x) && IsInt64(n) && IsInt64(d)
    ensures d == 0 ==> r == Err(DivisionByZero)
    ensures d != 0 && (x < 0 || n < 0 || d < 0) ==> r == Err(NoNegatives)
    ensures d > 0 && x >= 0 && n >= 0 ==>
              if x * n < (MAX_INT64 + 1) * d then r.Ok? && 0 <= r.value <= MAX_INT64 && IsFloor(r.value, x * n, d)
              else r == Err(Overflow)
  {
    if d == 0 then Err(DivisionByZero)
    else if x < 0 || n < 0 || d < 0 then Err(NoNegatives)
    else
      var (hi, lo) := Mul64(x, n);
      DivideChecked(hi, lo, d)
  }

  /** The shared tail: refuse a quotient of 65 bits or more, divide, refuse one above MaxInt64. */
  function DivideChecked(hi: int, lo: int, d: int): (r: Amount)
    requires 0 <= hi && 0 <= lo < TWO64 && 0 < d <= MAX_INT64
    ensures var a := hi * TWO64 + lo;
            if a < (MAX_INT64 + 1) * d then r.Ok? && 0 <= r.value <= MAX_INT64 && IsFloor(r.value, a, d)
            else r == Err(Overflow)
  {
    if d <= hi then
      MulMono(d, hi, TWO64);
      Err(Overflow)
    else
      var q := Div64(hi, lo, d);
      FloorBelow(q, hi * TWO64 + lo, d, MAX_INT64 + 1);
      if q > MAX_INT64 then Err(Overflow) else Ok(q)
  }

  /** mulFractionRoundUp: the exact ceiling of x·n/d. */
  function MulFractionRoundUp(x: int, n: int, d: int): (r: Amount)
    requires IsInt64(x) && IsInt64(n) && IsInt64(d)
    ensures d == 0 ==> r == Err(DivisionByZero)
    ensures d != 0 && (x < 0 || n < 0 || d < 0) ==> r == Err(NoNegatives)
    ensures d > 0 && x >= 0 && n >= 0 ==>
              if x * n <= MAX_INT64 * d then r.Ok? && 0 <= r.value <= MAX_INT64 && IsCeil(r.value, x * n, d)
              else r == Err(Overflow)
  {
    if d == 0 then Err(DivisionByZero)
    else if x < 0 || n < 0 || d < 0 then Err(NoNegatives)
    else
      var (hi, lo) := Mul64(x, n);
      var sum := lo + (d - 1);
      var carry := if sum >= TWO64 then 1 else 0;
      DivideChecked(hi + carry, sum - carry * TWO64, d)
  }

  // ---------------------------------------------------------------- offer conversion

  datatype Units = Units(buying: int, selling: int)

  /** ConvertToBuyingUnits. */
  function ConvertToBuyingUnits(amount: int, needed: int, n: int, d: int): (r: Result<Units, PriceError>)
    requires IsInt64(amount) && IsInt64(needed) && IsInt64(n) && IsInt64(d)
  {
    var bound :- OfferSellingBound(amount, n, d);
    var sold := if bound < needed then bound else needed;
    var bought :- MulFractionRoundUp(sold, n, d);
    Ok(Units(bought, sold))
  }

  /** The rounding-corrected offer: ceil(floor(amount·n/d)·d/n) when n <= d, amount otherwise. */
  function OfferSellingBound(amount: int, n: int, d: int): (r: Amount)
    requires IsInt64(amount) && IsInt64(n) && IsInt64(d)
    ensures r.Ok? ==> IsInt64(r.value)
  {
    if n <= d then
      var down :- MulFractionRoundDown(amount, n, d);
      MulFractionRoundUp(down, d, n)
    else Ok(amount)
  }

  /** For 0 < n <= d and a non-negative amount the correction exists, lies between 0 and the amount,
      and does not change what the offer is worth in whole buying units. */
  lemma CorrectionBounds(amount: int, n: int, d: int)
    requires IsInt64(amount) && IsInt64(d) && amount >= 0 && 0 < n <= d
    ensures MulFractionRoundDown(amount, n, d).Ok?
    ensures var m := MulFractionRoundDown(amount, n, d).value;
            var c := OfferSellingBound(amount, n, d);
            && 0 <= m <= amount && c.Ok? && 0 <= c.value <= amount && IsCeil(c.value, m * d, n)
            && MulFractionRoundDown(c.value, n, d) == Ok(m)
  {
    MulMono(n, d, amount);
    MulMono(amount, MAX_INT64, d);
    assert amount * n < (MAX_INT64 + 1) * d;
    var m := MulFractionRoundDown(amount, n, d).value;
    CancelLe(m, amount, d, amount * n);
    // m·d <= amount·n, so the ceiling of m·d/n is at most amount.
    MulMono(amount, MAX_INT64, n);
    assert m * d <= MAX_INT64 * n;
    var c := MulFractionRoundUp(m, d, n).value;
    assert IsCeil(c, m * d, n);
    CancelCeil(c, amount, m * d, n);
    // floor(c·n/d) is m: c·n >= m·d from below, c <= amount from above.
    MulMono(c, amount, n);
    assert IsFloor(m, c * n, d);
    MulMono(c, MAX_INT64, d);
    MulMono(n, d, c);
    FloorUnique(MulFractionRoundDown(c, n, d).value, m, c * n, d);
  }

  lemma CancelLe(m: int, x: int, d: int, a: int)
    requires d > 0 && m * d <= a <= x * d
    ensures m <= x
  {
    if m > x { MulMono(x + 1, m, d); }
  }

  lemma CancelCeil(c: int, x: int, a: int, d: int)
    requires d > 0 && IsCeil(c, a, d) && a <= x * d
    ensures c <= x
  {
    if c > x { MulMono(x + 1, c, d); }
  }

  lemma FloorUnique(p: int, q: int, a: int, d: int)
    requires d > 0 && IsFloor(p, a, d) && IsFloor(q, a, d)
    ensures p == q
  {
    if p < q { MulMono(p + 1, q, d); }
    if q < p { MulMono(q + 1, p, d); }
  }

  /** For positive prices and non-negative amounts: what is taken is what is needed or what the offer can
      sell, if that is less. That is its amount at a price above one, and at any other price the fewest
      units worth as many whole buying units, ceil(floor(amount·n/d)·d/n). The payment is the exact
      ceiling of what they cost. A price of at most one never overflows, and a price above one exactly
      when that ceiling does not fit. */
  lemma ConvertIsExact(amount: int, needed: int, n: int, d: int)
    requires IsInt64(amount) && IsInt64(needed) && IsInt64(n) && IsInt64(d)
    requires amount >= 0 && needed >= 0 && n > 0 && d > 0
    ensures var r := ConvertToBuyingUnits(amount, needed, n, d);
            && (n <= d ==> r.Ok?)
            && (r.Ok? ==> 0 <= r.value.selling <= amount && r.value.selling <= needed
                          && IsCeil(r.value.buying, r.value.selling * n, d))
            && (n > d ==> (r.Ok? <==> (if amount < needed then amount else needed) * n <= MAX_INT64 * d)
                          && (r.Ok? ==> r.value.selling == if amount < needed then amount else needed))
    ensures n <= d ==>
              forall m, c :: IsFloor(m, amount * n, d) && IsCeil(c, m * d, n) ==>
                ConvertToBuyingUnits(amount, needed, n, d).value.selling == if c < needed then c else needed
  {
    if n <= d {
      CorrectionBounds(amount, n, d);
      var c := OfferSellingBound(amount, n, d).value;
      var sold := if c < needed then c else needed;
      MulMono(n, d, sold);
      MulMono(sold, MAX_INT64, d);
      var down := MulFractionRoundDown(amount, n, d).value;
      forall m, k | IsFloor(m, amount * n, d) && IsCeil(k, m * d, n) ensures m == down && k == c {
        FloorUnique(m, down, amount * n, d);
        CeilUnique(k, c, m * d, n);
      }
    }
  }

  lemma CeilUnique(p: int, q: int, a: int, d: int)
    requires d > 0 && IsCeil(p, a, d) && IsCeil(q, a, d)
    ensures p == q
  {
    CancelCeil(p, q, a, d);
    CancelCeil(q, p, a, d);
  }

  /** Everything else is refused: a zero divisor wherever it is met first, and otherwise a negative. */
  lemma ConvertRefuses(amount: int, needed: int, n: int, d: int)
    requires IsInt64(amount) && IsInt64(needed) && IsInt64(n) && IsInt64(d)
    requires amount < 0 || needed < 0 || n <= 0 || d <= 0
    ensures ConvertToBuyingUnits(amount, needed, n, d)
         == Err(if d == 0 || (n == 0 < d && amount >= 0) then DivisionByZero else NoNegatives)
  {
    if amount >= 0 && 0 < n <= d { CorrectionBounds(amount, n, d); }
  }

  /** The rounding correction is idempotent. */
  lemma CorrectionIdempotent(amount: int, n: int, d: int)
    requires IsInt64(amount) && IsInt64(d) && amount >= 0 && 0 < n <= d
    ensures var c := OfferSellingBound(amount, n, d);
            c.Ok? && OfferSellingBound(c.value, n, d) == c
  {
    CorrectionBounds(amount, n, d);
  }
}
