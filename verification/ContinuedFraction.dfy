/** Approximating a decimal price by a fraction of two positive int32 numbers: the continued-fraction
    loop, what its result is for every price, and where it falls short of its documentation. */
module ContinuedFraction {
  import opened Common
  import opened Price

  datatype Fraction = Fraction(n: int, d: int)

  function Abs(x: int): (a: nat)
    ensures a == x || a == -x
  {
    if x < 0 then -x else x
  }

  /** The loop's state: the complete quotient num/den and the last two convergents, h1/k1 newest. */
  datatype Conv = Conv(num: int, den: int, h1: int, k1: int, h2: int, k2: int)

  /** Standing facts for the price p/q: p/q = (α·h1 + h2)/(α·k1 + k2) for α = num/den, already without
      the division, and consecutive convergents have determinant ±1. */
  predicate Inv(p: int, q: int, c: Conv) {
    && c.num >= 0 && c.den >= 0 && c.h1 >= 0 && c.k1 >= 0 && c.h2 >= 0 && c.k2 >= 0
    && p == c.num * c.h1 + c.den * c.h2
    && q == c.num * c.k1 + c.den * c.k2
    && (c.h1 * c.k2 - c.h2 * c.k1 == 1 || c.h1 * c.k2 - c.h2 * c.k1 == -1)
  }

  function Next(c: Conv): (c': Conv)
    requires c.den > 0 && c.num >= 0
  {
    var a := c.num / c.den;
    Conv(c.den, c.num % c.den, a * c.h1 + c.h2, a * c.k1 + c.k2, c.h1, c.k1)
  }

  lemma NextKeepsInv(p: int, q: int, c: Conv)
    requires Inv(p, q, c) && c.den > 0
    ensures Inv(p, q, Next(c)) && 0 <= Next(c).den < c.den
  {
    var a, r := c.num / c.den, c.num % c.den;
    assert c.num == a * c.den + r;
    assert a >= 0;
    Regroup2(a, c.den, r, c.h1, c.h2);
    Regroup2(a, c.den, r, c.k1, c.k2);
    Determinant(a, c.h1, c.h2, c.k1, c.k2);
  }

  lemma Regroup2(a: int, den: int, r: int, x: int, y: int)
    ensures (a * den + r) * x + den * y == den * (a * x + y) + r * x
  {
  }

  lemma Determinant(a: int, h1: int, h2: int, k1: int, k2: int)
    ensures (a * h1 + h2) * k1 - h1 * (a * k1 + k2) == -(h1 * k2 - h2 * k1)
  {
  }

  // ---------------------------------------------------------------- what a stopped loop has found

  function Det(c: Conv): (det: int) {
    c.h1 * c.k2 - c.h2 * c.k1
  }

  /** How far the price is from each of the two convergents, over the common denominators. */
  lemma Residues(p: int, q: int, c: Conv)
    requires Inv(p, q, c)
    ensures p * c.k1 - q * c.h1 == -(c.den * Det(c))
    ensures p * c.k2 - q * c.h2 == c.num * Det(c)
    ensures Abs(p * c.k1 - q * c.h1) == c.den
  {
    Cross(c.num, c.den, c.h1, c.h2, c.k1, c.k2);
    assert c.den * 1 == c.den && c.den * -1 == -c.den;
  }

  lemma Cross(num: int, den: int, h1: int, h2: int, k1: int, k2: int)
    ensures (num * h1 + den * h2) * k1 - (num * k1 + den * k2) * h1 == -(den * (h1 * k2 - h2 * k1))
    ensures (num * h1 + den * h2) * k2 - (num * k1 + den * k2) * h2 == num * (h1 * k2 - h2 * k1)
  {
  }

  /** Coordinates of a fraction in the basis of the last two convergents, and its residue there. */
  lemma Coordinates(p: int, q: int, c: Conv, n: int, d: int) returns (s: int, t: int)
    requires Inv(p, q, c)
    ensures n == s * c.h1 + t * c.h2 && d == s * c.k1 + t * c.k2
    ensures Abs(p * d - q * n) == Abs(c.num * t - c.den * s)
  {
    var det := Det(c);
    s, t := det * (n * c.k2 - d * c.h2), det * (d * c.h1 - n * c.k1);
    Solve(det, c.h1, c.h2, c.k1, c.k2, n, d);
    Residues(p, q, c);
    Combine(p, q, c.h1, c.h2, c.k1, c.k2, s, t);
    Factor(c.num, c.den, det, s, t);
  }

  lemma Combine(p: int, q: int, h1: int, h2: int, k1: int, k2: int, s: int, t: int)
    ensures p * (s * k1 + t * k2) - q * (s * h1 + t * h2) == s * (p * k1 - q * h1) + t * (p * k2 - q * h2)
  {
    assert p * (s * k1 + t * k2) == s * (p * k1) + t * (p * k2);
    assert q * (s * h1 + t * h2) == s * (q * h1) + t * (q * h2);
  }

  lemma Factor(num: int, den: int, det: int, s: int, t: int)
    requires det == 1 || det == -1
    ensures Abs(s * -(den * det) + t * (num * det)) == Abs(num * t - den * s)
  {
    if det == 1 {
      assert den * det == den && num * det == num;
    } else {
      assert den * det == -den && num * det == -num;
    }
  }

  lemma Solve(det: int, h1: int, h2: int, k1: int, k2: int, n: int, d: int)
    requires det == h1 * k2 - h2 * k1 && (det == 1 || det == -1)
    ensures det * (n * k2 - d * h2) * h1 + det * (d * h1 - n * k1) * h2 == n
    ensures det * (n * k2 - d * h2) * k1 + det * (d * h1 - n * k1) * k2 == d
  {
    assert (n * k2 - d * h2) * h1 + (d * h1 - n * k1) * h2 == n * (h1 * k2 - h2 * k1);
    assert (n * k2 - d * h2) * k1 + (d * h1 - n * k1) * k2 == d * (h1 * k2 - h2 * k1);
    assert det * det == 1;
    assert n * det * det == n && d * det * det == d;
  }

  // ---------------------------------------------------------------- best approximation

  /** The newest convergent of a loop that stopped with a remainder: the complete quotient exceeds one,
      and if it is the first convergent, two. */
  predicate Stopped(c: Conv) {
    && 0 < c.den <= c.num && 1 <= c.k1 && 0 <= c.k2 <= c.k1
    && (c.k2 == 0 ==> c.k1 == 1 && 2 * c.den <= c.num)
  }

  /** No fraction with a denominator up to that of the newest convergent is nearer to the price. */
  lemma BestUpToDenominator(p: int, q: int, c: Conv, n: int, d: int)
    requires Inv(p, q, c) && Stopped(c) && 1 <= d <= c.k1
    ensures Abs(p * c.k1 - q * c.h1) * d <= Abs(p * d - q * n) * c.k1
  {
    Residues(p, q, c);
    var s, t := Coordinates(p, q, c, n, d);
    NotNearer(c.num, c.den, c.k1, c.k2, s, t);
  }

  lemma NotNearer(num: int, den: int, k1: int, k2: int, s: int, t: int)
    requires 0 < den <= num && 1 <= k1 && 0 <= k2 <= k1 && (k2 == 0 ==> k1 == 1 && 2 * den <= num)
    requires 1 <= s * k1 + t * k2 <= k1
    ensures den * (s * k1 + t * k2) <= Abs(num * t - den * s) * k1
  {
    if t == 0 {
      OnNewest(num, den, k1, k2, s);
    } else if t >= 1 && s <= 0 {
      OlderSide(num, den, k1, k2, s, t);
    } else if t <= -1 && s >= 1 {
      NewerSide(num, den, k1, k2, s, t);
    } else if t >= 1 {
      Between(num, den, k1, k2, s, t);
    } else {
      MulMono(s, 0, k1);
      MulMono(t, 0, k2);
      assert false;
    }
  }

  lemma OlderSide(num: int, den: int, k1: int, k2: int, s: int, t: int)
    requires 0 < den <= num && 0 <= k2 <= k1 && t >= 1 && s <= 0
    ensures den * (s * k1 + t * k2) <= Abs(num * t - den * s) * k1
  {
    MulMono(s, 0, den);
    MulMono(den, num, t);
    var gap := Abs(num * t - den * s);
    assert gap >= den * t;
    MulMono(den * t, gap, k1);
    MulMono(s, 0, k1);
    MulMono(k2, k1, t);
    MulMono(s * k1 + t * k2, t * k1, den);
    assert den * (t * k1) == den * t * k1;
  }

  lemma NewerSide(num: int, den: int, k1: int, k2: int, s: int, t: int)
    requires 0 < den && 0 <= num && 0 <= k2 && 0 <= k1 && t <= -1 && s >= 1
    ensures den * (s * k1 + t * k2) <= Abs(num * t - den * s) * k1
  {
    MulMono(t, 0, num);
    MulMono(0, s, den);
    var gap := Abs(num * t - den * s);
    assert gap >= den * s;
    MulMono(den * s, gap, k1);
    MulMono(t, 0, k2);
    MulMono(s * k1 + t * k2, s * k1, den);
    assert den * (s * k1) == den * s * k1;
  }

  lemma Between(num: int, den: int, k1: int, k2: int, s: int, t: int)
    requires 0 < den <= num && 1 <= k1 && 0 <= k2 <= k1 && (k2 == 0 ==> k1 == 1 && 2 * den <= num)
    requires s >= 1 && t >= 1 && s * k1 + t * k2 <= k1
    ensures den * (s * k1 + t * k2) <= Abs(num * t - den * s) * k1
  {
    MulMono(1, s, k1);
    MulMono(1, t, k2);
    assert k2 == 0 && k1 == 1;
    assert t * k2 == 0 && s * k1 == s;
    assert s == 1;
    MulMono(1, t, num);
    assert num * t - den * s >= den;
    assert Abs(num * t - den * s) * k1 == Abs(num * t - den * s);
  }

  /** A fraction equal to the price cannot have both parts smaller than the next convergent: while the
      price fits in int32, so does every step. */
  lemma ExactFractionFits(p: int, q: int, c: Conv, n: int, d: int)
    requires Inv(p, q, c) && c.den > 0 && c.num > 0 && n >= 1 && d >= 1 && p * d == q * n
    requires c.h1 >= 1 || c.k1 >= 1
    ensures var a := c.num / c.den;
            && a * c.h1 + c.h2 <= n && a * c.k1 + c.k2 <= d
            && (c.num <= n * c.den || c.num <= d * c.den)
  {
    var s, t := Coordinates(p, q, c, n, d);
    assert c.num * t == c.den * s;
    SameSign(c.num, c.den, s, t, c.h1, c.h2, n);
    var a := c.num / c.den;
    QuotientBounds(c.num, c.den);
    MulMono(1, t, a);
    AtLeastQuotient(c.num, c.den, a, s, t);
    MulMono(a, s, c.h1);
    MulMono(a, s, c.k1);
    MulMono(1, t, c.h2);
    MulMono(1, t, c.k2);
    MulMono(1, t, c.num);
    if c.h1 >= 1 {
      MulMono(1, c.h1, s);
      MulMono(0, t, c.h2);
      MulMono(s, n, c.den);
    } else {
      MulMono(1, c.k1, s);
      MulMono(0, t, c.k2);
      MulMono(s, d, c.den);
    }
  }

  /** den·s = num·t >= a·den·t, so s >= a·t >= a. */
  lemma AtLeastQuotient(num: int, den: int, a: int, s: int, t: int)
    requires den > 0 && a >= 0 && a * den <= num && num * t == den * s && t >= 1
    ensures s >= a
  {
    MulMono(a * den, num, t);
    assert a * den * t == a * t * den;
    assert s * den == num * t;
    CancelLe(a * t, s, den, num * t);
    MulMono(1, t, a);
  }

  lemma SameSign(num: int, den: int, s: int, t: int, h1: int, h2: int, n: int)
    requires num > 0 && den > 0 && num * t == den * s && h1 >= 0 && h2 >= 0 && n == s * h1 + t * h2 && n >= 1
    ensures t >= 1 && s >= 1
  {
    if t <= 0 {
      MulMono(t, 0, num);
      assert s <= 0 by { if s >= 1 { MulMono(1, s, den); } }
      MulMono(s, 0, h1);
      MulMono(t, 0, h2);
      assert false;
    }
    MulMono(1, t, num);
    if s <= 0 {
      MulMono(s, 0, den);
      assert false;
    }
  }

  // ---------------------------------------------------------------- the loop

  predicate Divides(g: int, x: int)
    requires g != 0
  {
    x % g == 0
  }

  ghost predicate Coprime(n: int, d: int) {
    forall g :: g >= 2 ==> !(Divides(g, n) && Divides(g, d))
  }

  lemma UnimodularIsCoprime(n: int, d: int, u: int, v: int)
    requires n * u - d * v == 1 || n * u - d * v == -1
    ensures Coprime(n, d)
  {
    forall g | g >= 2 ensures !(Divides(g, n) && Divides(g, d)) {
      if Divides(g, n) && Divides(g, d) {
        var e := CommonDivisor(n, d, u, v, g);
        if e >= 1 { MulMono(1, e, g); }
        if e <= -1 { MulMono(e, -1, g); }
      }
    }
  }

  lemma CommonDivisor(n: int, d: int, u: int, v: int, g: int) returns (e: int)
    requires g >= 2 && Divides(g, n) && Divides(g, d)
    ensures n * u - d * v == e * g
  {
    var a, b := n / g, d / g;
    assert n == a * g && d == b * g;
    e := a * u - b * v;
    assert a * g * u == a * u * g && b * g * v == b * v * g;
  }

  /** The fraction is as near to p/q as any with a denominator no larger. */
  ghost predicate BestFor(p: int, q: int, f: Fraction) {
    forall n, d :: 1 <= d <= f.d ==> NoFarther(p, q, f, n, d)
  }

  /** |p/q - f| <= |p/q - n/d|, cleared of denominators. */
  predicate NoFarther(p: int, q: int, f: Fraction, n: int, d: int) {
    Abs(p * f.d - q * f.n) * d <= Abs(p * d - q * n) * f.d
  }

  predicate Fits(n: int, d: int) {
    1 <= n <= MAX_INT32 && 1 <= d <= MAX_INT32
  }

  predicate Equal(p: int, q: int, n: int, d: int) {
    p * d == q * n
  }

  /** If the price is a fraction of int32 numbers at all, it is this one. */
  ghost predicate ExactIfItFits(p: int, q: int, f: Fraction) {
    forall n, d :: Fits(n, d) && Equal(p, q, n, d) ==> Equal(p, q, f.n, f.d)
  }

  /** What is known of the loop state: nothing found yet, only the integer part 0 found, or a usable
      convergent of a price in range. */
  predicate LoopInv(p: int, q: int, c: Conv) {
    && Inv(p, q, c) && c.den > 0
    && (if c.k1 == 0 then c == Conv(p, q, 1, 0, 0, 1)
        else
          && c.den < c.num && 1 <= c.k1 <= MAX_INT32 && 0 <= c.k2 <= c.k1 && (c.k2 == 0 ==> c.k1 == 1 && c.h2 == 1)
          && c.h1 <= MAX_INT32 && p <= MAX_INT32 * q
          && (if c.h1 == 0 then c == Conv(q, p, 0, 1, 1, 0) else q <= MAX_INT32 * p))
  }

  lemma LoopStep(p: int, q: int, c: Conv)
    requires LoopInv(p, q, c) && c.num <= MAX_INT32 * c.den
    ensures var c' := Next(c);
            && Inv(p, q, c') && 0 <= c'.den < c.den
            && (c'.h1 <= MAX_INT32 && c'.k1 <= MAX_INT32 && c'.den > 0 ==> LoopInv(p, q, c'))
            && (c.k1 == 0 ==> c'.h1 <= MAX_INT32 && c'.k1 == 1)
            && (c'.h1 >= 1 ==> q <= MAX_INT32 * p && p <= MAX_INT32 * q)
            && c'.k1 >= 1 && (c'.h1 == 0 ==> p < q && c'.den == p)
            && (c.k1 > 0 ==> c'.h1 >= 1)
  {
    NextKeepsInv(p, q, c);
    var a, c' := c.num / c.den, Next(c);
    QuotientBounds(c.num, c.den);
    if c.k1 == 0 {
      FloorBelow(a, p, q, MAX_INT32 + 1);
      assert a * 0 == 0 && a * 1 == a;
      if a >= 1 {
        MulMono(1, a, q);
        MulMono(1, MAX_INT32, p);
      } else {
        assert a == 0 && p < q;
      }
    } else {
      assert a >= 1 by { FloorBelow(a, c.num, c.den, 1); }
      MulMono(1, a, c.k1);
      MulMono(1, a, c.h1);
      if c.h1 == 0 {
        assert a * 0 == 0;
        MulMono(1, MAX_INT32, q);
      }
    }
  }

  /** A loop that stops with a remainder has a convergent BestUpToDenominator speaks about. */
  lemma StoppedWithRemainder(p: int, q: int, c: Conv)
    requires LoopInv(p, q, c) && c.k1 > 0
    requires c.num > MAX_INT32 * c.den || Next(c).h1 > MAX_INT32 || Next(c).k1 > MAX_INT32
    ensures Stopped(c)
  {
    if c.k2 == 0 && c.num <= MAX_INT32 * c.den {
      var a := c.num / c.den;
      QuotientBounds(c.num, c.den);
      FloorBelow(a, c.num, c.den, MAX_INT32 + 1);
      assert c.num * 1 == c.num && c.den * 0 == 0 && q == c.num;
      if c.num < 2 * c.den {
        FloorBelow(a, c.num, c.den, 2);
        FloorBelow(a, c.num, c.den, 1);
        assert false;
      }
    }
  }

  /** While some fraction equal to the price fits in int32, the loop does not stop early. */
  lemma NoEarlyStop(p: int, q: int, c: Conv, n: int, d: int)
    requires LoopInv(p, q, c) && Fits(n, d) && Equal(p, q, n, d) && c.num > 0
    ensures c.num <= MAX_INT32 * c.den && Next(c).h1 <= MAX_INT32 && Next(c).k1 <= MAX_INT32
  {
    ExactFractionFits(p, q, c, n, d);
    MulMono(n, MAX_INT32, c.den);
    MulMono(d, MAX_INT32, c.den);
  }

  /** The next step would leave int32. */
  predicate MustStop(c: Conv) {
    c.den > 0 && c.num >= 0 && (c.num > MAX_INT32 * c.den || Next(c).h1 > MAX_INT32 || Next(c).k1 > MAX_INT32)
  }

  predicate PriceInRange(p: int, q: int) {
    q <= MAX_INT32 * p && p <= MAX_INT32 * q
  }

  /** The states the loop goes through, its last one included. */
  predicate Reached(p: int, q: int, c: Conv) {
    && Inv(p, q, c) && c.h1 <= MAX_INT32 && c.k1 <= MAX_INT32
    && (c.den > 0 ==> LoopInv(p, q, c))
    && (c.den == 0 ==> c.k1 >= 1 && c.num > 0 && (c.h1 == 0 ==> p == 0) && (c.h1 >= 1 ==> PriceInRange(p, q)))
  }

  lemma ReachedStep(p: int, q: int, c: Conv)
    requires Reached(p, q, c) && c.den > 0 && !MustStop(c)
    ensures Reached(p, q, Next(c)) && 0 <= Next(c).den < c.den
  {
    LoopStep(p, q, c);
  }

  lemma FoundInRange(p: int, q: int, c: Conv)
    requires Reached(p, q, c) && q > 0 && (c.den == 0 || MustStop(c))
    ensures c.h1 >= 1 && c.k1 >= 1 <==> PriceInRange(p, q)
  {
    if c.den > 0 {
      if c.k1 == 0 {
        NothingFound(p, q, c);
      } else if c.h1 == 0 {
        ZeroFound(p, q, c);
      }
    }
  }

  /** A loop that stops at once was given a price above MaxInt32. */
  lemma NothingFound(p: int, q: int, c: Conv)
    requires LoopInv(p, q, c) && c.k1 == 0 && q > 0 && MustStop(c)
    ensures !PriceInRange(p, q)
  {
    if p <= MAX_INT32 * q {
      LoopStep(p, q, c);
    }
  }

  /** A loop that stops after the integer part 0 was given a price below 1/MaxInt32. */
  lemma ZeroFound(p: int, q: int, c: Conv)
    requires LoopInv(p, q, c) && c.k1 > 0 && c.h1 == 0 && MustStop(c)
    ensures !PriceInRange(p, q)
  {
    assert c == Conv(q, p, 0, 1, 1, 0);
    var a := q / p;
    QuotientBounds(q, p);
    assert Next(c).h1 == 1 && Next(c).k1 == a by { assert a * 0 == 0 && a * 1 == a; }
    FloorBelow(a, q, p, MAX_INT32 + 1);
    assert (MAX_INT32 + 1) * p == MAX_INT32 * p + p;
  }

  /** The state in which the loop ends. */
  function Converge(c: Conv): (end: Conv)
    requires c.den >= 0 && c.num >= 0
    decreases c.den
  {
    if c.den == 0 || MustStop(c) then c
    else
      assert 0 <= c.num % c.den < c.den;
      Converge(Next(c))
  }

  function Start(p: nat, q: nat): (c: Conv) {
    Conv(p, q, 1, 0, 0, 1)
  }

  /** continuedFraction on an exact rational p/q. It succeeds exactly for 1/MaxInt32 <= p/q <= MaxInt32.
      Its result has coprime positive int32 parts, is within 1/D² of the price, is a best
      approximation among all fractions with denominators up to its own, and is the price itself
      whenever the price is a fraction of int32 numbers. */
  method Approximate(p: nat, q: nat) returns (r: Result<Fraction, PriceError>)
    requires q > 0
    ensures r.Ok? <==> PriceInRange(p, q)
    ensures r.Err? ==> r.error == NoApproximation
    ensures r.Ok? ==> Fits(r.value.n, r.value.d) && Coprime(r.value.n, r.value.d)
    ensures r.Ok? ==> Abs(p * r.value.d - q * r.value.n) * r.value.d <= q
    ensures r.Ok? ==> BestFor(p, q, r.value)
    ensures r.Ok? ==> ExactIfItFits(p, q, r.value)
    ensures r.Ok? ==> (BestWithinInt32(p, q, r.value) <==> Balanced(Converge(Start(p, q))))
  {
    var c := Start(p, q);
    assert Reached(p, q, c);
    hide Inv, LoopInv, Equal, BestFor, Coprime, PriceInRange, Balanced, BestWithinInt32;
    while c.den > 0
      invariant Reached(p, q, c) && c.den >= 0 && c.num >= 0
      invariant Converge(c) == Converge(Start(p, q))
      decreases c.den
    {
      if c.num > MAX_INT32 * c.den {
        break;
      }
      var next := Next(c);
      if next.h1 > MAX_INT32 || next.k1 > MAX_INT32 {
        break;
      }
      ReachedStep(p, q, c);
      c := next;
    }
    FoundInRange(p, q, c);
    ReachedSigns(p, q, c);
    if c.h1 == 0 || c.k1 == 0 {
      return Err(NoApproximation);
    }
    ConvergentIsGood(p, q, c);
    BestExactly(p, q, c);
    r := Ok(Fraction(c.h1, c.k1));
  }

  lemma ReachedSigns(p: int, q: int, c: Conv)
    requires Reached(p, q, c)
    ensures c.h1 >= 0 && c.k1 >= 0
  {
  }

  lemma ConvergentIsGood(p: int, q: int, c: Conv)
    requires Reached(p, q, c) && q > 0 && c.h1 >= 1 && c.k1 >= 1 && (c.den == 0 || MustStop(c))
    ensures Coprime(c.h1, c.k1)
    ensures Abs(p * c.k1 - q * c.h1) * c.k1 <= q
    ensures BestFor(p, q, Fraction(c.h1, c.k1))
    ensures forall n, d :: Fits(n, d) && Equal(p, q, n, d) ==> Equal(p, q, c.h1, c.k1)
  {
    UnimodularIsCoprime(c.h1, c.k1, c.k2, c.h2);
    Residues(p, q, c);
    if c.den == 0 {
      assert 0 * c.k1 == 0;
      forall n, d | 1 <= d <= c.k1 ensures NoFarther(p, q, Fraction(c.h1, c.k1), n, d) {
        assert Abs(p * c.k1 - q * c.h1) == 0 && 0 * d == 0;
        MulMono(0, Abs(p * d - q * n), c.k1);
      }
    } else {
      StoppedWithRemainder(p, q, c);
      MulMono(c.den, c.num, c.k1);
      MulMono(0, c.k2, c.den);
      forall n, d | 1 <= d <= c.k1 ensures NoFarther(p, q, Fraction(c.h1, c.k1), n, d) {
        BestUpToDenominator(p, q, c, n, d);
      }
      forall n, d | Fits(n, d) ensures !Equal(p, q, n, d) {
        if Equal(p, q, n, d) { NoEarlyStop(p, q, c, n, d); }
      }
    }
  }

  // ---------------------------------------------------------------- best within int32

  /** No fraction of two positive int32 numbers is nearer. */
  ghost predicate BestWithinInt32(p: int, q: int, f: Fraction) {
    forall n, d :: Fits(n, d) ==> NoFarther(p, q, f, n, d)
  }

  function Min(x: int, y: int): (m: int) {
    if x < y then x else y
  }

  /** How many times the newest convergent can be added to the one before it within int32. */
  function Room(c: Conv): (t: int)
    requires c.h1 >= 1 && c.k1 >= 1
  {
    Min((MAX_INT32 - c.h2) / c.h1, (MAX_INT32 - c.k2) / c.k1)
  }

  /** The loop ended exactly, or the last intermediate fraction that still fits is no nearer. */
  predicate Balanced(c: Conv) {
    c.den == 0 || (c.h1 >= 1 && c.k1 >= 1 && c.num * c.k1 >= c.den * (2 * (Room(c) * c.k1) + c.k2))
  }

  predicate InBox(c: Conv, t: int) {
    t * c.h1 + c.h2 <= MAX_INT32 && t * c.k1 + c.k2 <= MAX_INT32
  }

  lemma RoomIsLast(c: Conv, t: int)
    requires c.h1 >= 1 && c.k1 >= 1
    ensures InBox(c, t) <==> t <= Room(c)
  {
    QuotientFits(MAX_INT32 - c.h2, c.h1, t);
    QuotientFits(MAX_INT32 - c.k2, c.k1, t);
  }

  lemma QuotientFits(a: int, d: int, t: int)
    requires d >= 1
    ensures t * d <= a <==> t <= a / d
  {
    var q := a / d;
    assert q * d <= a < q * d + d;
    if t <= q { MulMono(t, q, d); } else { MulMono(q + 1, t, d); }
  }

  /** The loop's result is the best approximation within int32 exactly when it ended balanced. */
  lemma BestExactly(p: int, q: int, c: Conv)
    requires Reached(p, q, c) && q > 0 && c.h1 >= 1 && c.k1 >= 1 && (c.den == 0 || MustStop(c))
    ensures BestWithinInt32(p, q, Fraction(c.h1, c.k1)) <==> Balanced(c)
  {
    Residues(p, q, c);
    if c.den == 0 {
      forall n, d | Fits(n, d) ensures NoFarther(p, q, Fraction(c.h1, c.k1), n, d) {
        assert Abs(p * c.k1 - q * c.h1) == 0 && 0 * d == 0;
        MulMono(0, Abs(p * d - q * n), c.k1);
      }
    } else {
      StoppedWithRemainder(p, q, c);
      if Balanced(c) {
        forall n, d | Fits(n, d) ensures NoFarther(p, q, Fraction(c.h1, c.k1), n, d) {
          BalancedIsBest(p, q, c, n, d);
        }
      } else {
        UnbalancedIsNot(p, q, c);
      }
    }
  }

  lemma BalancedIsBest(p: int, q: int, c: Conv, n: int, d: int)
    requires Inv(p, q, c) && Stopped(c) && c.h1 >= 1 && Balanced(c) && Fits(n, d)
    ensures NoFarther(p, q, Fraction(c.h1, c.k1), n, d)
  {
    Residues(p, q, c);
    var s, t := Coordinates(p, q, c, n, d);
    if s >= 1 && t >= 1 { WithinRoom(c, s, t); }
    hide Inv, Room, Coprime;
    NotNearerWithin(c.num, c.den, c.k1, c.k2, s, t, Room(c));
  }

  /** More of the newest convergent than fits once would not fit with more of the older one. */
  lemma WithinRoom(c: Conv, s: int, t: int)
    requires c.h1 >= 1 && c.k1 >= 1 && c.h2 >= 0 && c.k2 >= 0 && t >= 1
    requires s * c.h1 + t * c.h2 <= MAX_INT32 && s * c.k1 + t * c.k2 <= MAX_INT32
    ensures s <= Room(c)
  {
    RoomIsLast(c, s);
    MulMono(1, t, c.h2);
    MulMono(1, t, c.k2);
  }

  lemma NotNearerWithin(num: int, den: int, k1: int, k2: int, s: int, t: int, room: int)
    requires 0 < den <= num && 1 <= k1 && 0 <= k2 <= k1 && 1 <= s * k1 + t * k2
    requires num * k1 >= den * (2 * (room * k1) + k2)
    requires s >= 1 && t >= 1 ==> s <= room
    ensures den * (s * k1 + t * k2) <= Abs(num * t - den * s) * k1
  {
    if s >= 1 && t >= 1 {
      Inside(num, den, k1, k2, s, t, room);
    } else if t == 0 {
      OnNewest(num, den, k1, k2, s);
    } else if t >= 1 {
      OlderSide(num, den, k1, k2, s, t);
    } else if s >= 1 {
      NewerSide(num, den, k1, k2, s, t);
    } else {
      MulMono(s, 0, k1);
      MulMono(t, 0, k2);
      assert false;
    }
  }

  lemma OnNewest(num: int, den: int, k1: int, k2: int, s: int)
    requires den > 0 && k1 >= 1 && 1 <= s * k1 + 0 * k2
    ensures den * (s * k1 + 0 * k2) <= Abs(num * 0 - den * s) * k1
  {
    assert s >= 1 by { if s <= 0 { MulMono(s, 0, k1); } }
    MulMono(1, s, den);
    assert den * (s * k1) == den * s * k1;
  }

  lemma Inside(num: int, den: int, k1: int, k2: int, s: int, t: int, room: int)
    requires den > 0 && k1 >= 1 && k2 >= 0 && 1 <= s <= room && t >= 1
    requires num * k1 >= den * (2 * (room * k1) + k2)
    ensures den * (s * k1 + t * k2) <= Abs(num * t - den * s) * k1
  {
    var x := num * t - den * s;
    Scaled(num, den, k1, k2, t, room);
    MulMono(1, t, room);
    MulMono(s, room * t, k1);
    MulMono(2 * (s * k1) + t * k2, 2 * (room * t * k1) + t * k2, den);
    Spread(num, den, k1, k2, s, t);
    MulMono(x, Abs(x), k1);
  }

  lemma Scaled(num: int, den: int, k1: int, k2: int, t: int, room: int)
    requires t >= 1 && num * k1 >= den * (2 * (room * k1) + k2)
    ensures num * t * k1 >= den * (2 * (room * t * k1) + t * k2)
  {
    var w := 2 * (room * k1) + k2;
    MulMono(den * w, num * k1, t);
    assert num * k1 * t == num * t * k1;
    assert w * t == 2 * (room * t * k1) + t * k2 by { assert room * k1 * t == room * t * k1; }
    assert den * w * t == den * (w * t);
  }

  lemma Spread(num: int, den: int, k1: int, k2: int, s: int, t: int)
    ensures (num * t - den * s) * k1 == num * t * k1 - den * (s * k1)
    ensures den * (2 * (s * k1) + t * k2) == den * (s * k1) + den * (s * k1 + t * k2)
  {
    assert den * s * k1 == den * (s * k1);
  }

  /** Otherwise the last intermediate fraction that fits is strictly nearer. */
  lemma UnbalancedIsNot(p: int, q: int, c: Conv)
    requires Reached(p, q, c) && Stopped(c) && c.h1 >= 1 && MustStop(c) && !Balanced(c)
    ensures !BestWithinInt32(p, q, Fraction(c.h1, c.k1))
  {
    var room := Room(c);
    RoomFits(p, q, c);
    SemiResidue(p, q, c, room);
    RoomBelowQuotient(p, q, c);
    Residues(p, q, c);
    hide Inv, Reached, Room, Stopped, MustStop, Det;
    Outside(c.num, c.den, c.k1, c.k2, room);
    assert !NoFarther(p, q, Fraction(c.h1, c.k1), room * c.h1 + c.h2, room * c.k1 + c.k2);
  }

  lemma RoomFits(p: int, q: int, c: Conv)
    requires Reached(p, q, c) && Stopped(c) && c.h1 >= 1 && !Balanced(c)
    ensures Room(c) >= 1 && Fits(Room(c) * c.h1 + c.h2, Room(c) * c.k1 + c.k2)
  {
    var room := Room(c);
    RoomIsLast(c, room);
    if room <= 0 {
      NoRoom(c.num, c.den, c.k1, c.k2, room);
      assert false;
    }
    MulMono(1, room, c.h1);
    MulMono(1, room, c.k1);
  }

  lemma NoRoom(num: int, den: int, k1: int, k2: int, room: int)
    requires 0 < den <= num && 0 <= k2 <= k1 && room <= 0
    ensures num * k1 >= den * (2 * (room * k1) + k2)
  {
    MulMono(den, num, k1);
    MulMono(room, 0, k1);
    MulMono(2 * (room * k1) + k2, k1, den);
  }

  lemma SemiResidue(p: int, q: int, c: Conv, t: int)
    requires Inv(p, q, c)
    ensures Abs(p * (t * c.k1 + c.k2) - q * (t * c.h1 + c.h2)) == Abs(c.num - c.den * t)
  {
    Residues(p, q, c);
    Combine(p, q, c.h1, c.h2, c.k1, c.k2, t, 1);
    Factor(c.num, c.den, Det(c), t, 1);
    assert 1 * c.k2 == c.k2 && 1 * c.h2 == c.h2;
  }

  /** The room is smaller than the complete quotient, or the loop would have gone on. */
  lemma RoomBelowQuotient(p: int, q: int, c: Conv)
    requires Reached(p, q, c) && c.den > 0 && c.h1 >= 1 && c.k1 >= 1 && MustStop(c)
    ensures c.den * Room(c) <= c.num
  {
    var room, a := Room(c), c.num / c.den;
    RoomIsLast(c, room);
    QuotientBounds(c.num, c.den);
    if room > a {
      RoomIsLast(c, a);
      assert c.num > MAX_INT32 * c.den;
      assert room <= MAX_INT32 by { if room > MAX_INT32 { MulMono(1, c.h1, room); } }
      MulMono(room, MAX_INT32, c.den);
    } else {
      MulMono(room, a, c.den);
    }
  }

  lemma Outside(num: int, den: int, k1: int, k2: int, room: int)
    requires den > 0 && k1 >= 1 && den * room <= num
    requires num * k1 < den * (2 * (room * k1) + k2)
    ensures Abs(num - den * room) * k1 < den * (room * k1 + k2)
  {
    assert (num - den * room) * k1 == num * k1 - den * room * k1;
    assert den * room * k1 == den * (room * k1);
    assert den * (2 * (room * k1) + k2) == den * (room * k1) + den * (room * k1 + k2);
  }

  // ---------------------------------------------------------------- decimal strings

  predicate IsDigit(ch: char) {
    '0' <= ch <= '9'
  }

  /** validAmountSimple. */
  predicate IsSimple(s: string) {
    1 <= |s| <= 20 && forall i :: 0 <= i < |s| ==> IsDigit(s[i]) || s[i] == '.'
  }

  function Dots(s: string): (n: nat) {
    if s == [] then 0 else (if s[|s| - 1] == '.' then 1 else 0) + Dots(s[..|s| - 1])
  }

  /** The digits as one integer, the dot skipped. */
  function Digits(s: string): (n: nat)
    requires forall i :: 0 <= i < |s| ==> IsDigit(s[i]) || s[i] == '.'
  {
    if s == [] then 0
    else
      var init, last := s[..|s| - 1], s[|s| - 1];
      assert IsDigit(last) || last == '.';
      if last == '.' then Digits(init) else 10 * Digits(init) + (last as int - '0' as int)
  }

  /** Ten to the number of digits after the dot. */
  function Scale(s: string): (n: nat)
    ensures n >= 1
  {
    if s == [] || Dots(s) == 0 || s[|s| - 1] == '.' then 1 else 10 * Scale(s[..|s| - 1])
  }

  /** price.Parse. The accepted strings are those big.Rat reads as a plain decimal: one dot at most
      and at least one digit. */
  method Parse(price: string) returns (r: Result<Fraction, PriceError>)
    ensures "-" <= price ==> r == Err(NoNegatives)
    ensures r == Err(InvalidFormat) <==>
              !("-" <= price)
              && (price == "" || |price| > 20 || exists ch :: ch in price && !('0' <= ch <= '9') && ch != '.')
    ensures IsSimple(price) && (Dots(price) > 1 || Dots(price) == |price|) ==> r == Err(CannotParse)
    ensures IsSimple(price) && Dots(price) <= 1 && Dots(price) < |price| ==>
              && (r.Ok? <==> PriceInRange(Digits(price), Scale(price)))
              && (r.Err? ==> r.error == NoApproximation)
              && (r.Ok? ==>
                    && Fits(r.value.n, r.value.d) && Coprime(r.value.n, r.value.d)
                    && Abs(Digits(price) * r.value.d - Scale(price) * r.value.n) * r.value.d <= Scale(price)
                    && BestFor(Digits(price), Scale(price), r.value)
                    && ExactIfItFits(Digits(price), Scale(price), r.value)
                    && (BestWithinInt32(Digits(price), Scale(price), r.value)
                        <==> Balanced(Converge(Start(Digits(price), Scale(price))))))
  {
    if "-" <= price {
      assert price[0] == '-';
      return Err(NoNegatives);
    }
    if !IsSimple(price) {
      assert forall i :: 0 <= i < |price| ==> price[i] in price;
      return Err(InvalidFormat);
    }
    if Dots(price) > 1 || Dots(price) == |price| {
      return Err(CannotParse);
    }
    r := Approximate(Digits(price), Scale(price));
  }

  /** The documentation promises the best approximation within int32. It is not: 1.0000000004 is
      answered by 1/1, and 2147483647/2147483646 is strictly nearer. */
  lemma NotBestWithinInt32()
    ensures IsSimple("1.0000000004") && Digits("1.0000000004") == 10000000004 && Scale("1.0000000004") == 10000000000
    ensures var p, q := 10000000004, 10000000000;
            var c := Next(Conv(p, q, 1, 0, 0, 1));
            && Converge(Start(p, q)) == c && c.h1 == 1 && c.k1 == 1 && !Balanced(c)
            && Fits(2147483647, 2147483646)
            && !NoFarther(p, q, Fraction(1, 1), 2147483647, 2147483646)
  {
    ExampleDigits();
  }

  lemma ExampleDigits()
    ensures IsSimple("1.0000000004") && Digits("1.0000000004") == 10000000004 && Scale("1.0000000004") == 10000000000
  {
    var s := "1.0000000004";
    assert s[..0] == [] && Digits(s[..0]) == 0 && Scale(s[..0]) == 1 && Dots(s[..0]) == 0;
    hide Digits, Scale, Dots;
    DigitStep(s, 1);
    DigitStep(s, 2);
    assert Digits(s[..2]) == 1 && Scale(s[..2]) == 1 && Dots(s[..2]) == 1;
    ZeroRun(s, 2, 9);
    DigitStep(s, 12);
    assert Power10(9) == 1000000000 by { NinthPower(); }
    assert s[..12] == s;
  }

  function Power10(n: nat): nat {
    if n == 0 then 1 else 10 * Power10(n - 1)
  }

  lemma NinthPower()
    ensures Power10(9) == 1000000000
  {
    assert Power10(3) == 1000 && Power10(6) == 1000 * Power10(3);
  }

  /** A plain decimal: whole part and fraction, over ten to the number of digits of the fraction. */
  lemma {:induction false} DecimalValue(whole: string, fraction: string)
    requires forall ch :: ch in whole || ch in fraction ==> IsDigit(ch)
    ensures var s := whole + "." + fraction;
            && Decimal(s) && Decimal(whole) && Decimal(fraction)
            && Digits(s) == Digits(whole) * Power10(|fraction|) + Digits(fraction)
            && Scale(s) == Power10(|fraction|) && Scale(whole) == 1 && Dots(s) == 1
    decreases |fraction|
  {
    hide Digits, Scale, Dots, IsDigit;
    NoDots(whole);
    AllDigits(whole, fraction);
    if fraction == [] {
      NoDigits();
      DigitSnoc(whole, '.');
      assert whole + "." + fraction == whole + ['.'];
    } else {
      var n := |fraction| - 1;
      var init, ch := fraction[..n], fraction[n];
      assert ch in fraction && fraction == init + [ch];
      DecimalValue(whole, init);
      var s := whole + "." + init;
      assert whole + "." + fraction == s + [ch];
      DigitIsNoDot(ch);
      DigitSnoc(s, ch);
      DigitSnoc(init, ch);
      Tenfold(Digits(whole), Power10(n));
    }
  }

  lemma NoDigits()
    ensures Decimal("") && Digits("") == 0
  {
  }

  lemma DigitIsNoDot(ch: char)
    requires IsDigit(ch)
    ensures ch != '.'
  {
  }

  lemma AllDigits(a: string, b: string)
    requires forall ch :: ch in a || ch in b ==> IsDigit(ch)
    ensures Decimal(a) && Decimal(b)
  {
  }

  lemma Tenfold(x: int, y: int)
    ensures 10 * (x * y) == x * (10 * y)
  {
  }

  predicate Decimal(s: string) {
    forall i :: 0 <= i < |s| ==> IsDigit(s[i]) || s[i] == '.'
  }

  /** Reading one more character. */
  lemma DigitSnoc(s: string, ch: char)
    requires Decimal(s) && (IsDigit(ch) || ch == '.')
    ensures Decimal(s + [ch])
    ensures Dots(s + [ch]) == Dots(s) + if ch == '.' then 1 else 0
    ensures Digits(s + [ch]) == if ch == '.' then Digits(s) else 10 * Digits(s) + (ch as int - '0' as int)
    ensures Scale(s + [ch]) == if Dots(s + [ch]) == 0 || ch == '.' then 1 else 10 * Scale(s)
  {
    assert (s + [ch])[..|s|] == s;
  }

  lemma {:induction false} NoDots(s: string)
    requires forall ch :: ch in s ==> IsDigit(ch)
    ensures Dots(s) == 0 && Scale(s) == 1
  {
    if s != [] {
      assert s[|s| - 1] in s;
      NoDots(s[..|s| - 1]);
    }
  }

  /** Zeros after the dot scale digits and denominator alike. */
  lemma {:induction false} ZeroRun(s: string, k: nat, n: nat)
    requires k + n <= |s| && forall i :: 0 <= i < |s| ==> IsDigit(s[i]) || s[i] == '.'
    requires forall i :: k <= i < k + n ==> s[i] == '0'
    requires Dots(s[..k]) > 0
    ensures Digits(s[..k + n]) == Power10(n) * Digits(s[..k]) && Scale(s[..k + n]) == Power10(n) * Scale(s[..k])
    ensures Dots(s[..k + n]) == Dots(s[..k])
  {
    hide Digits, Scale, Dots;
    if n > 0 {
      ZeroRun(s, k, n - 1);
      DigitStep(s, k + n);
      var p := Power10(n - 1);
      assert 10 * (p * Digits(s[..k])) == (10 * p) * Digits(s[..k]);
      assert 10 * (p * Scale(s[..k])) == (10 * p) * Scale(s[..k]);
    }
  }

  /** Reading one more character. */
  lemma DigitStep(s: string, n: nat)
    requires 1 <= n <= |s| && forall i :: 0 <= i < |s| ==> IsDigit(s[i]) || s[i] == '.'
    ensures Dots(s[..n]) == Dots(s[..n - 1]) + if s[n - 1] == '.' then 1 else 0
    ensures Digits(s[..n])
         == if s[n - 1] == '.' then Digits(s[..n - 1]) else 10 * Digits(s[..n - 1]) + (s[n - 1] as int - '0' as int)
    ensures Scale(s[..n]) == if Dots(s[..n]) == 0 || s[n - 1] == '.' then 1 else 10 * Scale(s[..n - 1])
  {
    assert s[..n] == s[..n - 1] + [s[n - 1]];
    DigitSnoc(s[..n - 1], s[n - 1]);
  }
}
