/** The two-bus operating point: the damped phasor iteration and the closed form of its high-voltage
    solution, over exact arithmetic. */
module TwoBus {
  import opened Arithmetic
  import opened Prelude

  datatype Complex = Complex(re: real, im: real)

  function Plus(a: Complex, b: Complex): Complex {
    Complex(a.re + b.re, a.im + b.im)
  }

  function Minus(a: Complex, b: Complex): Complex {
    Complex(a.re - b.re, a.im - b.im)
  }

  function Times(a: Complex, b: Complex): Complex {
    Complex(a.re * b.re - a.im * b.im, a.re * b.im + a.im * b.re)
  }

  function Scaled(c: real, a: Complex): Complex {
    Complex(c * a.re, c * a.im)
  }

  function Conjugate(a: Complex): Complex {
    Complex(a.re, -a.im)
  }

  function Squared(a: Complex): real {
    a.re * a.re + a.im * a.im
  }

  lemma SquaredIsPositive(a: Complex)
    ensures Squared(a) >= 0.0 && (Squared(a) == 0.0 <==> a == Complex(0.0, 0.0))
  {
    SquareIsPositive(a.re);
    SquareIsPositive(a.im);
  }

  function Over(a: Complex, b: Complex): Complex
    requires b != Complex(0.0, 0.0)
  {
    SquaredIsPositive(b);
    Complex((a.re * b.re + a.im * b.im) / Squared(b), (a.im * b.re - a.re * b.im) / Squared(b))
  }

  lemma OverParts(a: Complex, b: Complex)
    requires b != Complex(0.0, 0.0)
    ensures Squared(b) != 0.0
    ensures Squared(b) * Over(a, b).re == a.re * b.re + a.im * b.im
    ensures Squared(b) * Over(a, b).im == a.im * b.re - a.re * b.im
  {
    SquaredIsPositive(b);
    hide Squared;
    SameQuotient(Squared(b), Over(a, b).re, a.re * b.re + a.im * b.im);
    SameQuotient(Squared(b), Over(a, b).im, a.im * b.re - a.re * b.im);
  }

  lemma TimesParts(a: Complex, b: Complex, p: real, q: real)
    requires a.re * b.re - a.im * b.im == p && a.re * b.im + a.im * b.re == q
    ensures Times(a, b) == Complex(p, q)
  {
  }

  /** Division undoes multiplication. */
  lemma OverTimes(a: Complex, b: Complex)
    requires b != Complex(0.0, 0.0)
    ensures Times(Over(a, b), b) == a
  {
    hide Times, Over, Squared;
    var q := Over(a, b);
    OverParts(a, b);
    ProductsRecombine(a, b);
    var s, x, y := Squared(b), a.re * b.re + a.im * b.im, a.im * b.re - a.re * b.im;
    CommonDenominator(s, q.re, q.im, x, y, b.re, b.im, a.re, a.im);
    TimesParts(q, b, a.re, a.im);
  }

  lemma CommonDenominator(s: real, q: real, r: real, x: real, y: real, c: real, d: real, u: real, v: real)
    requires s != 0.0 && s * q == x && s * r == y
    requires x * c - y * d == u * s && x * d + y * c == v * s
    ensures q * c - r * d == u && q * d + r * c == v
  {
    Cleared(s, q, x, c);
    Cleared(s, r, y, d);
    Cleared(s, q, x, d);
    Cleared(s, r, y, c);
    Spread(s, q * c, r * d);
    Spread(s, q * d, r * c);
    SameFactor(s, q * c - r * d, u);
    SameFactor(s, q * d + r * c, v);
  }

  lemma ProductsRecombine(a: Complex, b: Complex)
    ensures var x, y := a.re * b.re + a.im * b.im, a.im * b.re - a.re * b.im;
            x * b.re - y * b.im == a.re * Squared(b) && x * b.im + y * b.re == a.im * Squared(b)
  {
    Recombine(a.re, a.im, b.re, b.im);
  }

  lemma Recombine(p: real, q: real, r: real, s: real)
    ensures (p * r + q * s) * r - (q * r - p * s) * s == p * (r * r + s * s)
    ensures (p * r + q * s) * s + (q * r - p * s) * r == q * (r * r + s * s)
  {
    SpreadTwice(p, q, r, s);
    SpreadTwice(q, p, r, s);
    assert q * r * s == q * s * r && p * r * s == p * s * r;
  }

  lemma SpreadTwice(p: real, q: real, r: real, s: real)
    ensures (p * r + q * s) * r == p * r * r + q * s * r && (p * r + q * s) * s == p * r * s + q * s * s
    ensures (p * r - q * s) * r == p * r * r - q * s * r && (p * r - q * s) * s == p * r * s - q * s * s
    ensures p * (r * r + s * s) == p * r * r + p * s * s
  {
  }

  datatype Feeder = Feeder(resistance: real, reactance: real, source: real, reactiveRatio: real)

  function Power(kw: real, ratio: real): Complex {
    Complex(kw * 1000.0, kw * 1000.0 * ratio)
  }

  // ---------------------------------------------------------------- the phasor iteration

  function LoadCurrent(f: Feeder, kw: real, voltage: Complex): Complex
    requires voltage != Complex(0.0, 0.0)
  {
    Conjugate(Over(Power(kw, f.reactiveRatio), Scaled(3.0, voltage)))
  }

  /** The voltage implied by the currents drawn at `voltage`. */
  function Candidate(f: Feeder, chargerKw: real, inverterKw: real, admittance: Complex, voltage: Complex): Complex
    requires voltage != Complex(0.0, 0.0)
  {
    var feederCurrent := Plus(Minus(LoadCurrent(f, chargerKw, voltage), LoadCurrent(f, inverterKw, voltage)), Times(admittance, voltage));
    Minus(Complex(f.source, 0.0), Times(Complex(f.resistance, f.reactance), feederCurrent))
  }

  function Damped(voltage: Complex, candidate: Complex): Complex {
    Plus(Scaled(0.55, voltage), Scaled(0.45, candidate))
  }

  datatype IterationError = ZeroDivision | NotConverged
  datatype OperatingPoint = OperatingPoint(voltage: Complex, iterations: nat)

  const ITERATIONS := 500
  const SETTLED_SQUARED := 0.00000000000000000001

  ghost predicate Settles(before: Complex, after: Complex) {
    Squared(Minus(after, before)) < SETTLED_SQUARED
  }

  /** Less than 1e-10 volts. */
  lemma SettlesWithin(a: Complex, b: Complex)
    ensures Settles(a, b) <==> (b.re - a.re) * (b.re - a.re) + (b.im - a.im) * (b.im - a.im) < 0.0000000001 * 0.0000000001
  {
  }

  /** The voltage after `k` updates, or `None` once an update has divided by a zero voltage: from then
      on the value is not a number. */
  function Iterate(f: Feeder, chargerKw: real, inverterKw: real, admittance: Complex, k: nat): Option<Complex> {
    if k == 0 then Some(Complex(f.source, 0.0))
    else match Iterate(f, chargerKw, inverterKw, admittance, k - 1)
      case None => None
      case Some(v) => if v == Complex(0.0, 0.0) then None else Some(Damped(v, Candidate(f, chargerKw, inverterKw, admittance, v)))
  }

  /** The iteration starts at the source voltage and mixes 55 % of the last voltage with 45 % of the
      voltage its currents imply. */
  lemma UpdatesMix(f: Feeder, chargerKw: real, inverterKw: real, admittance: Complex, k: nat)
    ensures Iterate(f, chargerKw, inverterKw, admittance, 0) == Some(Complex(f.source, 0.0))
    ensures match Iterate(f, chargerKw, inverterKw, admittance, k)
            case None => Iterate(f, chargerKw, inverterKw, admittance, k + 1) == None
            case Some(v) =>
              if v.re == 0.0 && v.im == 0.0 then Iterate(f, chargerKw, inverterKw, admittance, k + 1) == None
              else
                var c := Candidate(f, chargerKw, inverterKw, admittance, v);
                Iterate(f, chargerKw, inverterKw, admittance, k + 1) == Some(Complex(0.55 * v.re + 0.45 * c.re, 0.55 * v.im + 0.45 * c.im))
  {
    hide Candidate;
  }

  /** Update `i` gives a number and moves the voltage by less than the threshold. */
  ghost predicate SettlesAt(f: Feeder, chargerKw: real, inverterKw: real, admittance: Complex, i: nat)
    requires i > 0
  {
    && Iterate(f, chargerKw, inverterKw, admittance, i - 1).Some? && Iterate(f, chargerKw, inverterKw, admittance, i).Some?
    && Settles(Iterate(f, chargerKw, inverterKw, admittance, i - 1).value, Iterate(f, chargerKw, inverterKw, admittance, i).value)
  }

  /** The loop returns the first update that moves the voltage by less than the threshold. Dividing by
      a zero source raises; dividing by a zero voltage later on only prevents convergence. */
  method SolveOperatingPoint(f: Feeder, chargerKw: real, inverterKw: real, admittance: Complex) returns (r: Result<OperatingPoint, IterationError>)
    ensures r == Err(ZeroDivision) <==> f.source == 0.0
    ensures r.Ok? <==> f.source != 0.0 && exists i :: 1 <= i <= 500 && SettlesAt(f, chargerKw, inverterKw, admittance, i)
    ensures r.Ok? ==>
      && 1 <= r.value.iterations <= 500
      && SettlesAt(f, chargerKw, inverterKw, admittance, r.value.iterations)
      && Iterate(f, chargerKw, inverterKw, admittance, r.value.iterations) == Some(r.value.voltage)
    ensures r.Ok? ==> forall i :: 1 <= i < r.value.iterations ==> !SettlesAt(f, chargerKw, inverterKw, admittance, i)
  {
    hide Candidate, Damped;
    var voltage := Some(Complex(f.source, 0.0));
    for iteration := 1 to ITERATIONS + 1
      invariant iteration > 1 ==> f.source != 0.0
      invariant Iterate(f, chargerKw, inverterKw, admittance, iteration - 1) == voltage
      invariant forall i :: 1 <= i < iteration ==> !SettlesAt(f, chargerKw, inverterKw, admittance, i)
    {
      if iteration == 1 && voltage == Some(Complex(0.0, 0.0)) {
        return Err(ZeroDivision);
      }
      var updated :=
        if voltage.None? || voltage.value == Complex(0.0, 0.0) then None
        else Some(Damped(voltage.value, Candidate(f, chargerKw, inverterKw, admittance, voltage.value)));
      assert Iterate(f, chargerKw, inverterKw, admittance, iteration) == updated;
      if voltage.Some? && updated.Some? && Squared(Minus(updated.value, voltage.value)) < SETTLED_SQUARED {
        assert SettlesAt(f, chargerKw, inverterKw, admittance, iteration);
        return Ok(OperatingPoint(updated.value, iteration));
      }
      voltage := updated;
    }
    r := Err(NotConverged);
  }

  /** Damping changes no fixed point, and an update that moves the voltage by little leaves a
      residual at most 1/0.45 times as large. */
  lemma DampingKeepsFixedPoints(voltage: Complex, candidate: Complex)
    ensures Damped(voltage, candidate) == voltage <==> candidate == voltage
    ensures Squared(Minus(Damped(voltage, candidate), voltage)) == 0.45 * 0.45 * Squared(Minus(candidate, voltage))
  {
    var d := Minus(candidate, voltage);
    assert Minus(Damped(voltage, candidate), voltage) == Scaled(0.45, d);
    assert (0.45 * d.re) * (0.45 * d.re) == 0.45 * 0.45 * (d.re * d.re);
    assert (0.45 * d.im) * (0.45 * d.im) == 0.45 * 0.45 * (d.im * d.im);
  }

  // ---------------------------------------------------------------- fixed points and the quadratic

  /** A fixed point of the iteration without the shunt. */
  ghost predicate IsOperatingPoint(f: Feeder, chargerKw: real, inverterKw: real, voltage: Complex) {
    voltage != Complex(0.0, 0.0) && Damped(voltage, Candidate(f, chargerKw, inverterKw, Complex(0.0, 0.0), voltage)) == voltage
  }

  function PhaseP(chargerKw: real, inverterKw: real): real {
    (chargerKw - inverterKw) * 1000.0 / 3.0
  }

  function PhaseQ(f: Feeder, chargerKw: real, inverterKw: real): real {
    (chargerKw - inverterKw) * 1000.0 * f.reactiveRatio / 3.0
  }

  /** Voltage drop terms in phase with the source and across it. */
  function InPhase(f: Feeder, chargerKw: real, inverterKw: real): real {
    f.resistance * PhaseP(chargerKw, inverterKw) + f.reactance * PhaseQ(f, chargerKw, inverterKw)
  }

  function Across(f: Feeder, chargerKw: real, inverterKw: real): real {
    f.resistance * PhaseQ(f, chargerKw, inverterKw) - f.reactance * PhaseP(chargerKw, inverterKw)
  }

  /** The net current, times the voltage, is the net power of one phase. */
  lemma NetCurrentCarriesThePower(f: Feeder, chargerKw: real, inverterKw: real, v: Complex) returns (d: Complex)
    requires v != Complex(0.0, 0.0)
    ensures Minus(LoadCurrent(f, chargerKw, v), LoadCurrent(f, inverterKw, v)) == Conjugate(d)
    ensures Times(d, v) == Complex(PhaseP(chargerKw, inverterKw), PhaseQ(f, chargerKw, inverterKw))
  {
    var a, b := Power(chargerKw, f.reactiveRatio), Power(inverterKw, f.reactiveRatio);
    var x, y := Over(a, Scaled(3.0, v)), Over(b, Scaled(3.0, v));
    OverTimes(a, Scaled(3.0, v));
    OverTimes(b, Scaled(3.0, v));
    d := Minus(x, y);
    ThirdOfTheDifference(x, y, v, a, b);
    assert chargerKw * 1000.0 * f.reactiveRatio - inverterKw * 1000.0 * f.reactiveRatio == (chargerKw - inverterKw) * 1000.0 * f.reactiveRatio;
  }

  lemma ThirdOfTheDifference(x: Complex, y: Complex, v: Complex, a: Complex, b: Complex)
    requires Times(x, Scaled(3.0, v)) == a && Times(y, Scaled(3.0, v)) == b
    ensures Times(Minus(x, y), v) == Complex((a.re - b.re) / 3.0, (a.im - b.im) / 3.0)
  {
    hide Times;
    TimesScaled(3.0, x, v);
    TimesScaled(3.0, y, v);
    TimesMinus(x, y, v);
  }

  lemma TimesScaled(c: real, x: Complex, v: Complex)
    ensures Times(x, Scaled(c, v)) == Scaled(c, Times(x, v))
  {
    assert x.re * (c * v.re) == c * (x.re * v.re) && x.im * (c * v.im) == c * (x.im * v.im);
    assert x.re * (c * v.im) == c * (x.re * v.im) && x.im * (c * v.re) == c * (x.im * v.re);
  }

  lemma TimesMinus(x: Complex, y: Complex, v: Complex)
    ensures Times(Minus(x, y), v) == Minus(Times(x, v), Times(y, v))
  {
    assert (x.re - y.re) * v.re == x.re * v.re - y.re * v.re && (x.im - y.im) * v.im == x.im * v.im - y.im * v.im;
    assert (x.re - y.re) * v.im == x.re * v.im - y.re * v.im && (x.im - y.im) * v.re == x.im * v.re - y.im * v.re;
  }

  lemma TimesPlus(a: Complex, b: Complex, v: Complex)
    ensures Times(Plus(a, b), v) == Plus(Times(a, v), Times(b, v))
  {
    assert (a.re + b.re) * v.re == a.re * v.re + b.re * v.re && (a.im + b.im) * v.im == a.im * v.im + b.im * v.im;
    assert (a.re + b.re) * v.im == a.re * v.im + b.re * v.im && (a.im + b.im) * v.re == a.im * v.re + b.im * v.re;
  }

  lemma TimesAssociates(a: Complex, b: Complex, c: Complex)
    ensures Times(Times(a, b), c) == Times(a, Times(b, c))
  {
    SpreadBoth(a.re, a.im, b.re, b.im, c.re);
    SpreadBoth(a.re, a.im, b.re, b.im, c.im);
    Spread(a.re, b.re * c.re, b.im * c.im);
    Spread(a.im, b.re * c.im, b.im * c.re);
    Spread(a.re, b.re * c.im, b.im * c.re);
    Spread(a.im, b.re * c.re, b.im * c.im);
  }

  lemma SpreadBoth(p: real, q: real, r: real, s: real, c: real)
    ensures (p * r - q * s) * c == p * (r * c) - q * (s * c) && (p * s + q * r) * c == p * (s * c) + q * (r * c)
  {
  }

  lemma ConjugateOfProduct(a: Complex, b: Complex)
    ensures Times(Conjugate(a), Conjugate(b)) == Conjugate(Times(a, b))
  {
    assert -a.im * -b.im == a.im * b.im && a.re * -b.im == -(a.re * b.im) && -a.im * b.re == -(a.im * b.re);
  }

  lemma TimesItsConjugate(y: Complex, v: Complex)
    ensures Times(Times(y, v), Conjugate(v)) == Complex(y.re * Squared(v), y.im * Squared(v))
  {
    hide Times, Squared;
    TimesAssociates(y, v, Conjugate(v));
    VoltageTimesItsConjugate(v);
    TimesReal(y, Squared(v));
  }

  lemma VoltageTimesItsConjugate(v: Complex)
    ensures Times(v, Conjugate(v)) == Complex(Squared(v), 0.0)
  {
    hide Times;
    TimesConjugate(v, v);
  }

  lemma TimesReal(y: Complex, m: real)
    ensures Times(y, Complex(m, 0.0)) == Complex(y.re * m, y.im * m)
  {
    assert y.im * 0.0 == 0.0 && y.re * 0.0 == 0.0;
  }

  /** The drop across the feeder, after multiplying by the conjugate of the voltage: the power of one
      phase and the shunt carried through the line. These two equations determine the candidate. */
  lemma CandidateEquations(f: Feeder, chargerKw: real, inverterKw: real, y: Complex, v: Complex)
    requires v != Complex(0.0, 0.0)
    ensures var c, r, x, m := Candidate(f, chargerKw, inverterKw, y, v), f.resistance, f.reactance, Squared(v);
            var p, q := (chargerKw - inverterKw) * 1000.0 / 3.0, (chargerKw - inverterKw) * 1000.0 * f.reactiveRatio / 3.0;
            && (f.source - c.re) * v.re - c.im * v.im == r * (p + y.re * m) - x * (y.im * m - q)
            && -(c.im * v.re) - (f.source - c.re) * v.im == x * (p + y.re * m) + r * (y.im * m - q)
  {
    hide Times, Squared, LoadCurrent;
    var c, m := Candidate(f, chargerKw, inverterKw, y, v), Squared(v);
    var z := Complex(f.resistance, f.reactance);
    var d := NetCurrentCarriesThePower(f, chargerKw, inverterKw, v);
    var current := Plus(Conjugate(d), Times(y, v));
    var drop := Minus(Complex(f.source, 0.0), c);
    assert drop == Times(z, current);
    TimesPlus(Conjugate(d), Times(y, v), Conjugate(v));
    ConjugateOfProduct(d, v);
    TimesItsConjugate(y, v);
    var p, q := PhaseP(chargerKw, inverterKw), PhaseQ(f, chargerKw, inverterKw);
    assert Times(current, Conjugate(v)) == Complex(p + y.re * m, y.im * m - q);
    TimesAssociates(z, current, Conjugate(v));
    TimesConjugate(drop, v);
    PartsOfTheDrop(z, p + y.re * m, y.im * m - q);
    NegatedFactor(v.re, c.im);
    NegatedFactor(v.im, c.im);
  }

  lemma PartsOfTheDrop(z: Complex, a: real, b: real)
    ensures Times(z, Complex(a, b)) == Complex(z.re * a - z.im * b, z.im * a + z.re * b)
  {
  }

  /** With the shunt, being a fixed point is still a pair of equations without division. */
  lemma FixedPointEquationsWithShunt(f: Feeder, chargerKw: real, inverterKw: real, y: Complex, v: Complex)
    requires v != Complex(0.0, 0.0)
    ensures var r, x, m := f.resistance, f.reactance, Squared(v);
            var p, q := (chargerKw - inverterKw) * 1000.0 / 3.0, (chargerKw - inverterKw) * 1000.0 * f.reactiveRatio / 3.0;
            Damped(v, Candidate(f, chargerKw, inverterKw, y, v)) == v <==>
              && f.source * v.re == m + r * (p + y.re * m) - x * (y.im * m - q)
              && f.source * v.im == -(x * (p + y.re * m)) - r * (y.im * m - q)
  {
    hide Candidate, Squared, Times, Damped;
    var c, r, x, m := Candidate(f, chargerKw, inverterKw, y, v), f.resistance, f.reactance, Squared(v);
    var p, q := (chargerKw - inverterKw) * 1000.0 / 3.0, (chargerKw - inverterKw) * 1000.0 * f.reactiveRatio / 3.0;
    DampingKeepsFixedPoints(v, c);
    CandidateEquations(f, chargerKw, inverterKw, y, v);
    FixedByComponents(f.source, c, v, r * (p + y.re * m) - x * (y.im * m - q), x * (p + y.re * m) + r * (y.im * m - q));
  }

  /** Without it, the pair in terms of the drops in phase with the source and across it. */
  lemma FixedPointEquations(f: Feeder, chargerKw: real, inverterKw: real, v: Complex)
    requires v != Complex(0.0, 0.0)
    ensures IsOperatingPoint(f, chargerKw, inverterKw, v) <==>
      f.source * v.re == Squared(v) + InPhase(f, chargerKw, inverterKw) && f.source * v.im == Across(f, chargerKw, inverterKw)
  {
    hide Candidate, Squared, Damped;
    var p, q := PhaseP(chargerKw, inverterKw), PhaseQ(f, chargerKw, inverterKw);
    FixedPointEquationsWithShunt(f, chargerKw, inverterKw, Complex(0.0, 0.0), v);
    NoShunt(f.resistance, f.reactance, p, q, Squared(v));
  }

  lemma NoShunt(r: real, x: real, p: real, q: real, m: real)
    ensures r * (p + 0.0 * m) - x * (0.0 * m - q) == r * p + x * q
    ensures -(x * (p + 0.0 * m)) - r * (0.0 * m - q) == r * q - x * p
  {
    assert 0.0 * m == 0.0;
    NegatedFactor(x, q);
    NegatedFactor(r, q);
  }

  lemma FixedByComponents(s: real, c: Complex, v: Complex, drop: real, across: real)
    requires v != Complex(0.0, 0.0)
    requires (s - c.re) * v.re - c.im * v.im == drop && -(c.im * v.re) - (s - c.re) * v.im == across
    ensures c == v <==> s * v.re == Squared(v) + drop && s * v.im == -across
  {
    hide Times;
    var e := Minus(c, v);
    ZeroProduct(e, v);
    TimesConjugate(e, v);
    Spread(v.re, s, c.re);
    Spread(v.im, s, c.re);
    Spread(v.re, c.re, v.re);
    Spread(v.im, c.im, v.im);
    Spread(v.re, c.im, v.im);
    Spread(v.im, c.re, v.re);
  }

  lemma TimesConjugate(a: Complex, d: Complex)
    ensures Times(a, Conjugate(d)) == Complex(a.re * d.re + a.im * d.im, a.im * d.re - a.re * d.im)
  {
    NegatedFactor(a.im, d.im);
    NegatedFactor(a.re, d.im);
  }

  lemma ZeroProduct(e: Complex, v: Complex)
    requires v != Complex(0.0, 0.0)
    ensures Times(e, Conjugate(v)) == Complex(0.0, 0.0) <==> e == Complex(0.0, 0.0)
  {
    hide Times, Squared;
    SquaredIsPositive(v);
    UndoConjugate(e, v);
    ZeroTimes(v);
    ZeroTimes(Conjugate(v));
    ZeroFactor(Squared(v), e.re);
    ZeroFactor(Squared(v), e.im);
  }

  lemma ZeroTimes(v: Complex)
    ensures Times(Complex(0.0, 0.0), v) == Complex(0.0, 0.0)
  {
  }

  lemma UndoConjugate(e: Complex, v: Complex)
    ensures Times(Times(e, Conjugate(v)), v) == Complex(Squared(v) * e.re, Squared(v) * e.im)
  {
    hide Times;
    TimesConjugate(e, v);
    RecombineConjugate(e, v);
  }

  lemma RecombineConjugate(e: Complex, v: Complex)
    ensures Times(Complex(e.re * v.re + e.im * v.im, e.im * v.re - e.re * v.im), v) == Complex(Squared(v) * e.re, Squared(v) * e.im)
  {
    Recombine(e.re, e.im, v.re, v.im);
  }

  // ---------------------------------------------------------------- the closed form

  function Coefficient(f: Feeder, chargerKw: real, inverterKw: real): real {
    2.0 * InPhase(f, chargerKw, inverterKw) - f.source * f.source
  }

  function Constant(f: Feeder, chargerKw: real, inverterKw: real): real {
    var p, q := PhaseP(chargerKw, inverterKw), PhaseQ(f, chargerKw, inverterKw);
    (f.resistance * f.resistance + f.reactance * f.reactance) * (p * p + q * q)
  }

  function Discriminant(f: Feeder, chargerKw: real, inverterKw: real): real {
    Coefficient(f, chargerKw, inverterKw) * Coefficient(f, chargerKw, inverterKw) - 4.0 * Constant(f, chargerKw, inverterKw)
  }

  function Quadratic(f: Feeder, chargerKw: real, inverterKw: real, m: real): real {
    m * m + Coefficient(f, chargerKw, inverterKw) * m + Constant(f, chargerKw, inverterKw)
  }

  function VoltageAt(f: Feeder, chargerKw: real, inverterKw: real, m: real): Complex
    requires f.source != 0.0
  {
    Complex((m + InPhase(f, chargerKw, inverterKw)) / f.source, Across(f, chargerKw, inverterKw) / f.source)
  }

  lemma ConstantIsASumOfSquares(r: real, x: real, p: real, q: real)
    ensures (r * r + x * x) * (p * p + q * q) == (r * p + x * q) * (r * p + x * q) + (r * q - x * p) * (r * q - x * p)
  {
    var a, b, c, d := r * p, x * q, r * q, x * p;
    assert (a + b) * (a + b) + (c - d) * (c - d) == a * a + b * b + c * c + d * d + 2.0 * (a * b) - 2.0 * (c * d);
    assert a * b == c * d;
    assert a * a == r * r * (p * p) && b * b == x * x * (q * q) && c * c == r * r * (q * q) && d * d == x * x * (p * p);
    assert (r * r + x * x) * (p * p + q * q) == r * r * (p * p) + r * r * (q * q) + x * x * (p * p) + x * x * (q * q);
  }

  /** Scaled by the source, the components of `VoltageAt` have the squared magnitude `m` exactly at a
      root of the quadratic. */
  lemma MagnitudeIsARoot(source: real, a: real, b: real, v: Complex, m: real)
    requires source != 0.0 && source * v.re == m + a && source * v.im == b
    ensures Squared(v) == m <==> m * m + (2.0 * a - source * source) * m + (a * a + b * b) == 0.0
  {
    var s2 := source * source;
    SquareIsPositive(source);
    assert s2 * Squared(v) == (source * v.re) * (source * v.re) + (source * v.im) * (source * v.im);
    assert (m + a) * (m + a) + b * b == m * m + 2.0 * a * m + (a * a + b * b);
    assert (2.0 * a - s2) * m == 2.0 * a * m - s2 * m;
    Cancel(Squared(v), m, s2);
    Cancel(m, Squared(v), s2);
  }

  lemma OnlyNonzeroVoltages(f: Feeder, chargerKw: real, inverterKw: real, v: Complex)
    ensures IsOperatingPoint(f, chargerKw, inverterKw, v) ==> v != Complex(0.0, 0.0)
  {
  }

  /** The fixed points are exactly the voltages at the positive roots of the quadratic. */
  lemma FixedPointsAreThePositiveRoots(f: Feeder, chargerKw: real, inverterKw: real, v: Complex)
    requires f.source != 0.0
    ensures IsOperatingPoint(f, chargerKw, inverterKw, v) <==>
      Squared(v) > 0.0 && Quadratic(f, chargerKw, inverterKw, Squared(v)) == 0.0 && v == VoltageAt(f, chargerKw, inverterKw, Squared(v))
  {
    hide IsOperatingPoint, Squared, Quadratic, InPhase, Across, VoltageAt;
    SquaredIsPositive(v);
    OnlyNonzeroVoltages(f, chargerKw, inverterKw, v);
    if v != Complex(0.0, 0.0) {
      FixedPointEquations(f, chargerKw, inverterKw, v);
      VoltageAtIsDivision(f, chargerKw, inverterKw, v, Squared(v));
      if v == VoltageAt(f, chargerKw, inverterKw, Squared(v)) {
        QuadraticAt(f, chargerKw, inverterKw, v, Squared(v));
      }
    }
  }

  lemma VoltageAtIsDivision(f: Feeder, chargerKw: real, inverterKw: real, v: Complex, m: real)
    requires f.source != 0.0
    ensures v == VoltageAt(f, chargerKw, inverterKw, m) <==>
      f.source * v.re == m + InPhase(f, chargerKw, inverterKw) && f.source * v.im == Across(f, chargerKw, inverterKw)
  {
    hide InPhase, Across;
    DivideBack(m + InPhase(f, chargerKw, inverterKw), f.source);
    DivideBack(Across(f, chargerKw, inverterKw), f.source);
    SameQuotient(f.source, v.re, m + InPhase(f, chargerKw, inverterKw));
    SameQuotient(f.source, v.im, Across(f, chargerKw, inverterKw));
  }

  lemma QuadraticAt(f: Feeder, chargerKw: real, inverterKw: real, v: Complex, m: real)
    requires f.source != 0.0
    requires f.source * v.re == m + InPhase(f, chargerKw, inverterKw) && f.source * v.im == Across(f, chargerKw, inverterKw)
    ensures Squared(v) == m <==> Quadratic(f, chargerKw, inverterKw, m) == 0.0
  {
    ConstantIsASumOfSquares(f.resistance, f.reactance, PhaseP(chargerKw, inverterKw), PhaseQ(f, chargerKw, inverterKw));
    hide PhaseP, PhaseQ;
    MagnitudeIsARoot(f.source, InPhase(f, chargerKw, inverterKw), Across(f, chargerKw, inverterKw), v, m);
  }

  /** Every positive root is the squared magnitude of a fixed point. */
  lemma EveryPositiveRootIsAnOperatingPoint(f: Feeder, chargerKw: real, inverterKw: real, m: real)
    requires f.source != 0.0 && m > 0.0 && Quadratic(f, chargerKw, inverterKw, m) == 0.0
    ensures IsOperatingPoint(f, chargerKw, inverterKw, VoltageAt(f, chargerKw, inverterKw, m))
    ensures Squared(VoltageAt(f, chargerKw, inverterKw, m)) == m
  {
    hide Quadratic, IsOperatingPoint, VoltageAt;
    var v := VoltageAt(f, chargerKw, inverterKw, m);
    VoltageAtIsDivision(f, chargerKw, inverterKw, v, m);
    QuadraticAt(f, chargerKw, inverterKw, v, m);
    FixedPointsAreThePositiveRoots(f, chargerKw, inverterKw, v);
  }

  datatype ClosedFormError = NoPhysicalSolution | MathDomain

  /** The squared voltage the closed form takes the root of. `root` stands for the square root of
      the discriminant. */
  function ClosedForm(f: Feeder, chargerKw: real, inverterKw: real, root: real): Result<real, ClosedFormError> {
    if Discriminant(f, chargerKw, inverterKw) < 0.0 then Err(NoPhysicalSolution)
    else
      var voltageSquared := (-Coefficient(f, chargerKw, inverterKw) + root) / 2.0;
      if voltageSquared < 0.0 then Err(MathDomain) else Ok(voltageSquared)
  }

  ghost predicate IsRootOf(root: real, square: real) {
    square >= 0.0 ==> root >= 0.0 && root * root == square
  }

  /** The two roots of a quadratic with discriminant `root * root`, and no third. */
  lemma QuadraticFormula(c: real, k: real, root: real, m: real)
    requires root * root == c * c - 4.0 * k
    ensures m * m + c * m + k == 0.0 <==> m == (-c + root) / 2.0 || m == (-c - root) / 2.0
  {
    var x, y := m - (-c + root) / 2.0, m - (-c - root) / 2.0;
    assert x * y == m * m + c * m + (c * c - root * root) / 4.0;
    assert x * y == 0.0 <==> x == 0.0 || y == 0.0;
  }

  lemma NegativeDiscriminantHasNoRoot(c: real, k: real, m: real)
    requires c * c - 4.0 * k < 0.0
    ensures m * m + c * m + k > 0.0
  {
    var s := m + c / 2.0;
    assert s * s == m * m + c * m + c * c / 4.0;
    assert s * s >= 0.0;
  }

  /** The larger root is positive exactly when the coefficient is negative, since the constant is
      not. */
  lemma LargerRootIsPositive(c: real, k: real, root: real)
    requires k >= 0.0 && root >= 0.0 && root * root == c * c - 4.0 * k
    ensures (-c + root) / 2.0 > 0.0 <==> c < 0.0
    ensures (-c + root) / 2.0 < 0.0 <==> c > 0.0 && k > 0.0
  {
    if c >= 0.0 {
      SquaresKeepOrder(root, c);
      SquaresKeepOrder(c, root);
    }
  }

  lemma ConstantIsNotNegative(f: Feeder, chargerKw: real, inverterKw: real)
    ensures Constant(f, chargerKw, inverterKw) >= 0.0
  {
    SquaredIsPositive(Complex(f.resistance, f.reactance));
    var p, q := PhaseP(chargerKw, inverterKw), PhaseQ(f, chargerKw, inverterKw);
    SquaredIsPositive(Complex(p, q));
    NotNegative(Squared(Complex(f.resistance, f.reactance)), Squared(Complex(p, q)));
  }

  /** What the closed form returns is the largest squared voltage of any fixed point. */
  lemma ClosedFormIsTheHighestOperatingPoint(f: Feeder, chargerKw: real, inverterKw: real, root: real)
    requires f.source != 0.0 && IsRootOf(root, Discriminant(f, chargerKw, inverterKw))
    requires ClosedForm(f, chargerKw, inverterKw, root).Ok? && ClosedForm(f, chargerKw, inverterKw, root).value > 0.0
    ensures var m := ClosedForm(f, chargerKw, inverterKw, root).value;
            && IsOperatingPoint(f, chargerKw, inverterKw, VoltageAt(f, chargerKw, inverterKw, m))
            && Squared(VoltageAt(f, chargerKw, inverterKw, m)) == m
            && forall v :: IsOperatingPoint(f, chargerKw, inverterKw, v) ==> Squared(v) <= m
  {
    hide Coefficient, Constant, IsOperatingPoint, VoltageAt, Squared;
    var m, c, k := ClosedForm(f, chargerKw, inverterKw, root).value, Coefficient(f, chargerKw, inverterKw), Constant(f, chargerKw, inverterKw);
    QuadraticFormula(c, k, root, m);
    EveryPositiveRootIsAnOperatingPoint(f, chargerKw, inverterKw, m);
    forall v | IsOperatingPoint(f, chargerKw, inverterKw, v) ensures Squared(v) <= m {
      FixedPointsAreThePositiveRoots(f, chargerKw, inverterKw, v);
      QuadraticFormula(c, k, root, Squared(v));
    }
  }

  /** There is an operating point exactly when the discriminant is not negative and the coefficient
      is; the closed form then returns one. */
  lemma OperatingPointExistsIff(f: Feeder, chargerKw: real, inverterKw: real, root: real)
    requires f.source != 0.0 && IsRootOf(root, Discriminant(f, chargerKw, inverterKw))
    ensures (exists v :: IsOperatingPoint(f, chargerKw, inverterKw, v)) <==>
      Discriminant(f, chargerKw, inverterKw) >= 0.0 && Coefficient(f, chargerKw, inverterKw) < 0.0
    ensures (exists v :: IsOperatingPoint(f, chargerKw, inverterKw, v)) <==>
      ClosedForm(f, chargerKw, inverterKw, root).Ok? && ClosedForm(f, chargerKw, inverterKw, root).value > 0.0
  {
    hide Coefficient, Constant, IsOperatingPoint, VoltageAt, Squared;
    var c, k := Coefficient(f, chargerKw, inverterKw), Constant(f, chargerKw, inverterKw);
    ConstantIsNotNegative(f, chargerKw, inverterKw);
    if Discriminant(f, chargerKw, inverterKw) >= 0.0 {
      LargerRootIsPositive(c, k, root);
      if c < 0.0 {
        ClosedFormIsTheHighestOperatingPoint(f, chargerKw, inverterKw, root);
      }
    }
    if v :| IsOperatingPoint(f, chargerKw, inverterKw, v) {
      FixedPointsAreThePositiveRoots(f, chargerKw, inverterKw, v);
      if Discriminant(f, chargerKw, inverterKw) < 0.0 {
        NegativeDiscriminantHasNoRoot(c, k, Squared(v));
        assert false;
      }
      QuadraticFormula(c, k, root, Squared(v));
    }
  }

  /** With a coefficient that is not negative there is no operating point, yet the closed form
      answers zero for an unloaded line and leaves by a domain error otherwise. */
  lemma OtherAnswersOfTheClosedForm(f: Feeder, chargerKw: real, inverterKw: real, root: real)
    requires IsRootOf(root, Discriminant(f, chargerKw, inverterKw)) && Discriminant(f, chargerKw, inverterKw) >= 0.0
    ensures ClosedForm(f, chargerKw, inverterKw, root) == Err(MathDomain) <==>
      Coefficient(f, chargerKw, inverterKw) > 0.0 && Constant(f, chargerKw, inverterKw) > 0.0
    ensures ClosedForm(f, chargerKw, inverterKw, root) == Ok(0.0) <==>
      Coefficient(f, chargerKw, inverterKw) >= 0.0 && Constant(f, chargerKw, inverterKw) == 0.0
  {
    hide Coefficient, Constant;
    ConstantIsNotNegative(f, chargerKw, inverterKw);
    LargerRootIsPositive(Coefficient(f, chargerKw, inverterKw), Constant(f, chargerKw, inverterKw), root);
  }
}
