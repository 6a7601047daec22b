/** Escape-time computation for one point c = a + bi of the complex plane.
    The recurrence z := z*z + c is iterated on real/imaginary pairs, starting
    from z = c, and the point escapes at the first update whose Euclidean
    norm is strictly greater than 2 (squared norm greater than 4). */
module Escape {

  /** A complex number a + bi, as its real part and its imaginary part. */
  datatype Complex = Complex(re: real, im: real)

  /** One update of the recurrence: z*z + c. */
  function Step(z: Complex, c: Complex): Complex
  {
    Complex(z.re * z.re - z.im * z.im + c.re, 2.0 * z.re * z.im + c.im)
  }

  /** The square of the Euclidean norm of z. */
  function SqNorm(z: Complex): real
  {
    z.re * z.re + z.im * z.im
  }

  /** The escape test: the norm of z is strictly greater than 2. */
  predicate Escaped(z: Complex)
  {
    SqNorm(z) > 4.0
  }

  /** The iterate held when the counter is n: the iteration starts at c itself. */
  function Orbit(c: Complex, n: nat): Complex
  {
    if n == 0 then c else Step(Orbit(c, n - 1), c)
  }

  /** The value computed (and tested) when the counter is k. */
  function Update(c: Complex, k: nat): Complex
  {
    Orbit(c, k + 1)
  }

  /** None of the updates at counters 0 .. m-1 escapes. */
  ghost predicate BoundedThrough(c: Complex, m: nat)
  {
    forall k: nat :: k < m ==> !Escaped(Update(c, k))
  }

  /** r is the escape count of c under the bound J: the updates before r stay
      within radius 2, and, unless r saturates at J, the update at r escapes. */
  ghost predicate IsEscapeCount(c: Complex, J: nat, r: nat)
  {
    r <= J && BoundedThrough(c, r) && (r < J ==> Escaped(Update(c, r)))
  }

  // ---------------------------------------------------------------------------
  // Count mode

  /** The recursive helper of the count mode, entered with the counter and the
      current iterate z; it returns the counter of the first escaping update,
      or J when the update at counter J is reached still bounded. */
  function ThresholdFrom(c: Complex, J: nat, counter: nat, z: Complex): (r: nat)
    requires counter <= J
    ensures counter <= r <= J
    decreases J - counter
  {
    var next := Step(z, c);
    if Escaped(next) then counter
    else if counter < J then ThresholdFrom(c, J, counter + 1, next)
    else counter
  }

  /** The escape count of c under the bound J. */
  function Threshold(c: Complex, J: nat): (r: nat)
    ensures r <= J
  {
    ThresholdFrom(c, J, 0, c)
  }

  lemma {:induction false} ThresholdFromIsEscapeCount(c: Complex, J: nat, counter: nat, z: Complex)
    requires counter <= J && z == Orbit(c, counter) && BoundedThrough(c, counter)
    ensures IsEscapeCount(c, J, ThresholdFrom(c, J, counter, z))
    decreases J - counter
  {
    var next := Step(z, c);
    assert next == Update(c, counter);
    if !Escaped(next) && counter < J {
      forall k: nat | k < counter + 1
        ensures !Escaped(Update(c, k))
      {
        if k < counter {
          assert !Escaped(Update(c, k));
        }
      }
      ThresholdFromIsEscapeCount(c, J, counter + 1, next);
    }
  }

  /** An escape count is unique: at most one r satisfies IsEscapeCount. */
  lemma EscapeCountUnique(c: Complex, J: nat, r1: nat, r2: nat)
    requires IsEscapeCount(c, J, r1) && IsEscapeCount(c, J, r2)
    ensures r1 == r2
  {
  }

  /** The count mode returns exactly the 0-based counter of the first update
      whose norm exceeds 2, saturating at J. */
  lemma ThresholdIsFirstEscape(c: Complex, J: nat, r: nat)
    ensures Threshold(c, J) == r <==> IsEscapeCount(c, J, r)
  {
    ThresholdFromIsEscapeCount(c, J, 0, c);
    if IsEscapeCount(c, J, r) {
      EscapeCountUnique(c, J, r, Threshold(c, J));
    }
  }

  /** The result is 0 exactly when the bound is 0 or the first update c*c + c
      already escapes. */
  lemma ThresholdZero(c: Complex, J: nat)
    ensures Threshold(c, J) == 0 <==> (J == 0 || Escaped(Update(c, 0)))
  {
    ThresholdIsFirstEscape(c, J, Threshold(c, J));
  }

  /** Once a point escapes below the bound, a larger bound finds the same count. */
  lemma ThresholdStable(c: Complex, J: nat, J': nat)
    requires J <= J' && Threshold(c, J) < J
    ensures Threshold(c, J') == Threshold(c, J)
  {
    var r := Threshold(c, J);
    ThresholdIsFirstEscape(c, J, r);
    ThresholdIsFirstEscape(c, J', r);
  }

  /** Raising the bound never lowers the count. */
  lemma ThresholdMonotone(c: Complex, J: nat, J': nat)
    requires J <= J'
    ensures Threshold(c, J) <= Threshold(c, J')
  {
    var r, r' := Threshold(c, J), Threshold(c, J');
    ThresholdIsFirstEscape(c, J, r);
    ThresholdIsFirstEscape(c, J', r');
  }

  // ---------------------------------------------------------------------------
  // Binary (membership) mode

  /** The recursive helper of the binary mode: 0 on the first escaping update,
      1 when the update at counter J is reached still bounded. */
  function MembershipFrom(c: Complex, J: nat, counter: nat, z: Complex): (r: nat)
    requires counter <= J
    ensures r <= 1
    decreases J - counter
  {
    var next := Step(z, c);
    if Escaped(next) then 0
    else if counter < J then MembershipFrom(c, J, counter + 1, next)
    else 1
  }

  /** 1 when c stays within radius 2 through the updates at counters 0 .. J, else 0. */
  function Membership(c: Complex, J: nat): (r: nat)
    ensures r == 0 || r == 1
  {
    MembershipFrom(c, J, 0, c)
  }

  lemma {:induction false} MembershipFromIsBoundedness(c: Complex, J: nat, counter: nat, z: Complex)
    requires counter <= J && z == Orbit(c, counter) && BoundedThrough(c, counter)
    ensures MembershipFrom(c, J, counter, z) == 1 <==> BoundedThrough(c, J + 1)
    decreases J - counter
  {
    var next := Step(z, c);
    assert next == Update(c, counter);
    if Escaped(next) {
      assert !BoundedThrough(c, J + 1) by {
        assert counter < J + 1;
      }
    } else {
      assert BoundedThrough(c, counter + 1) by {
        forall k: nat | k < counter + 1
          ensures !Escaped(Update(c, k))
        {
          if k < counter {
            assert !Escaped(Update(c, k));
          }
        }
      }
      if counter < J {
        MembershipFromIsBoundedness(c, J, counter + 1, next);
      }
    }
  }

  /** The binary mode is a membership test: 1 exactly when all J + 1 updates
      (counters 0 .. J) have norm at most 2, and 0 otherwise. */
  lemma MembershipIsBoundedness(c: Complex, J: nat)
    ensures Membership(c, J) == 1 <==> BoundedThrough(c, J + 1)
    ensures Membership(c, J) == 0 <==> !BoundedThrough(c, J + 1)
  {
    MembershipFromIsBoundedness(c, J, 0, c);
  }

  /** The two modes agree in one direction only: membership 1 is a saturated
      count whose update at counter J is also bounded. */
  lemma MembershipVsThreshold(c: Complex, J: nat)
    ensures Membership(c, J) == 1 <==> (Threshold(c, J) == J && !Escaped(Update(c, J)))
    ensures Membership(c, J) == 1 ==> Threshold(c, J) == J
    ensures Threshold(c, J) < J ==> Membership(c, J) == 0
  {
    MembershipIsBoundedness(c, J);
    ThresholdIsFirstEscape(c, J, J);
    if Threshold(c, J) == J && !Escaped(Update(c, J)) {
      forall k: nat | k < J + 1
        ensures !Escaped(Update(c, k))
      {
        if k < J {
          assert !Escaped(Update(c, k));
        }
      }
    }
  }

  /** Raising the bound can only turn a membership 1 into 0. */
  lemma MembershipAntitone(c: Complex, J: nat, J': nat)
    requires J <= J'
    ensures Membership(c, J') <= Membership(c, J)
  {
    MembershipIsBoundedness(c, J);
    MembershipIsBoundedness(c, J');
    if Membership(c, J') == 1 {
      assert BoundedThrough(c, J + 1) by {
        forall k: nat | k < J + 1
          ensures !Escaped(Update(c, k))
        {
          assert k < J' + 1;
        }
      }
    }
  }

  // ---------------------------------------------------------------------------
  // The escape test and concrete points

  /** Comparing the norm t with 2 is the same as comparing its square with 4. */
  lemma NormTestEquivalent(z: Complex, t: real)
    requires t >= 0.0 && t * t == SqNorm(z)
    ensures t > 2.0 <==> Escaped(z)
  {
    if t > 2.0 {
      assert t * t > 2.0 * t;
    } else {
      assert t * t <= 2.0 * t;
    }
  }

  /** The update squares the norm of the iterate before adding c: the part
      z*z of Step(z, c) has squared norm SqNorm(z) squared. A real iterate
      and a real c give a real update. */
  lemma StepSquaresNorm(z: Complex, c: Complex)
    ensures SqNorm(Complex(Step(z, c).re - c.re, Step(z, c).im - c.im)) == SqNorm(z) * SqNorm(z)
    ensures z.im == 0.0 && c.im == 0.0 ==> Step(z, c).im == 0.0
  {
  }

  lemma SquareNonNegative(x: real)
    ensures x * x >= 0.0
    ensures x != 0.0 ==> x * x > 0.0
  {
  }

  /** A part beyond 2 in magnitude makes z escape; an escaping z has a part
      whose square exceeds 2. */
  lemma EscapedByParts(z: Complex)
    ensures (z.re > 2.0 || z.re < -2.0 || z.im > 2.0 || z.im < -2.0) ==> Escaped(z)
    ensures Escaped(z) ==> z.re * z.re > 2.0 || z.im * z.im > 2.0
  {
    SquareNonNegative(z.re);
    SquareNonNegative(z.im);
    assert SqNorm(z) == z.re * z.re + z.im * z.im;
    if z.re > 2.0 || z.re < -2.0 {
      assert z.re * z.re == (if z.re > 0.0 then z.re else -z.re) * (if z.re > 0.0 then z.re else -z.re);
      assert z.re * z.re > 4.0;
    }
    if z.im > 2.0 || z.im < -2.0 {
      assert z.im * z.im == (if z.im > 0.0 then z.im else -z.im) * (if z.im > 0.0 then z.im else -z.im);
      assert z.im * z.im > 4.0;
    }
  }

  /** The point 3 + 0i: its first update is 3*3 + 3 = 12, so it escapes at once. */
  lemma ThreeEscapesAtOnce(J: nat)
    ensures Update(Complex(3.0, 0.0), 0) == Complex(12.0, 0.0)
    ensures Threshold(Complex(3.0, 0.0), J) == 0
    ensures Membership(Complex(3.0, 0.0), J) == 0
  {
    ThresholdZero(Complex(3.0, 0.0), J);
  }

  lemma {:induction false} OriginIsFixed(n: nat)
    ensures Orbit(Complex(0.0, 0.0), n) == Complex(0.0, 0.0)
  {
    if n > 0 {
      OriginIsFixed(n - 1);
    }
  }

  /** The origin is a fixed point of the recurrence, so it never escapes. */
  lemma OriginNeverEscapes(J: nat)
    ensures Threshold(Complex(0.0, 0.0), J) == J
    ensures Membership(Complex(0.0, 0.0), J) == 1
  {
    var c := Complex(0.0, 0.0);
    assert BoundedThrough(c, J + 1) by {
      forall k: nat | k < J + 1
        ensures !Escaped(Update(c, k))
      {
        OriginIsFixed(k + 1);
      }
    }
    ThresholdIsFirstEscape(c, J, J);
    MembershipIsBoundedness(c, J);
  }

  lemma {:induction false} MinusTwoOrbit(n: nat)
    ensures Orbit(Complex(-2.0, 0.0), n + 1) == Complex(2.0, 0.0)
  {
    if n > 0 {
      MinusTwoOrbit(n - 1);
    }
  }

  lemma MinusTwoBounded(m: nat)
    ensures BoundedThrough(Complex(-2.0, 0.0), m)
  {
    forall i: nat | i < m
      ensures !Escaped(Update(Complex(-2.0, 0.0), i))
    {
      MinusTwoOrbit(i);
    }
  }

  /** The point -2 + 0i: every update is 2 + 0i, of norm exactly 2. The test is
      strict, so the point never escapes. */
  lemma BoundaryNeverEscapes(J: nat, k: nat)
    ensures SqNorm(Update(Complex(-2.0, 0.0), k)) == 4.0
    ensures Threshold(Complex(-2.0, 0.0), J) == J
    ensures Membership(Complex(-2.0, 0.0), J) == 1
  {
    MinusTwoOrbit(k);
    MinusTwoBounded(J + 1);
    ThresholdIsFirstEscape(Complex(-2.0, 0.0), J, J);
    MembershipIsBoundedness(Complex(-2.0, 0.0), J);
  }

  /** A point whose first update stays within radius 2 and whose second
      escapes has count 1 under every bound J >= 1, and binary result 1 only
      under the bound 0. */
  lemma EscapesAtCounterOne(c: Complex, J: nat)
    requires !Escaped(Update(c, 0)) && Escaped(Update(c, 1))
    ensures Threshold(c, J) == if J == 0 then 0 else 1
    ensures Membership(c, J) == if J == 0 then 1 else 0
  {
    MembershipIsBoundedness(c, J);
    if J == 0 {
      ThresholdIsFirstEscape(c, J, 0);
      assert BoundedThrough(c, 1);
    } else {
      ThresholdIsFirstEscape(c, J, 1);
      assert Escaped(Update(c, 1)) && 1 < J + 1;
    }
  }

  /** The first two updates of 1 + 0i: 1*1 + 1 = 2, then 2*2 + 1 = 5. */
  lemma OneFirstUpdates(c: Complex)
    requires c == Complex(1.0, 0.0)
    ensures Update(c, 0) == Complex(2.0, 0.0) && Update(c, 1) == Complex(5.0, 0.0)
  {
  }

  /** The point 1 + 0i: the first update 2 has norm exactly 2 and the
      iteration goes on; the second, 5, escapes at counter 1. With the bound 0
      only the first update is made and the point counts as bounded. */
  lemma OneEscapesAtCounterOne(c: Complex, J: nat)
    requires c == Complex(1.0, 0.0)
    ensures SqNorm(Update(c, 0)) == 4.0
    ensures Escaped(Update(c, 1))
    ensures Threshold(c, J) == if J == 0 then 0 else 1
    ensures Membership(c, J) == if J == 0 then 1 else 0
  {
    OneFirstUpdates(c);
    EscapesAtCounterOne(c, J);
  }

  /** The converse of MembershipVsThreshold fails: a point escaping exactly at
      counter J has count J but membership 0. */
  lemma SaturatedCountButNotMember()
    ensures exists c: Complex, J: nat :: Threshold(c, J) == J && Membership(c, J) == 0
  {
    OneEscapesAtCounterOne(Complex(1.0, 0.0), 1);
  }
}
