/**
 The escape-time evaluator `cal_pixel`: the real/imaginary recurrence
 z <- z^2 + c started at z = 0, run as a do-while loop that counts its
 passes and stops once the squared length of the z seen at the start of a
 pass reaches 4, or once the pass count reaches MaxIter.

 `real` stands in for C's `double` exactly; rounding is not modelled.
 */
module Escape {

  /** MAX_ITER, the bound on the number of passes. */
  const MaxIter: int := 255

  /** A point of the complex plane as its two parts (`struct complex`). */
  datatype Complex = Complex(re: real, im: real)

  const Origin: Complex := Complex(0.0, 0.0)

  /** One step of the recurrence, z^2 + c, written on the parts. */
  function Step(z: Complex, c: Complex): Complex
  {
    Complex(z.re * z.re - z.im * z.im + c.re, 2.0 * z.re * z.im + c.im)
  }

  /** The squared length |z|^2. */
  function LengthSq(z: Complex): real
  {
    z.re * z.re + z.im * z.im
  }

  /** z_k of the orbit of c: z_0 = 0 and z_{k+1} = z_k^2 + c. */
  function Orbit(c: Complex, k: nat): Complex
  {
    if k == 0 then Origin else Step(Orbit(c, k - 1), c)
  }

  /** z_k lies on or outside the circle of radius 2. */
  predicate Escaped(c: Complex, k: nat)
  {
    LengthSq(Orbit(c, k)) >= 4.0
  }

  /**
   n is what the loop returns for c: pass n is the first pass whose test
   fails, where pass n (n >= 1) tests the z_{n-1} it started from, and
   the count is capped at MaxIter.
   */
  ghost predicate IsEscapeCount(c: Complex, n: int)
  {
    && 1 <= n <= MaxIter
    && (n == MaxIter || Escaped(c, n - 1))
    && forall k :: 0 <= k < n - 1 ==> !Escaped(c, k)
  }

  /** The least count from n on that stops the loop, given that none before n does. */
  function CountFrom(c: Complex, n: int): (r: int)
    requires 1 <= n <= MaxIter
    requires forall k :: 0 <= k < n - 1 ==> !Escaped(c, k)
    ensures n <= r && IsEscapeCount(c, r)
    decreases MaxIter - n
  {
    if n == MaxIter || Escaped(c, n - 1) then n else CountFrom(c, n + 1)
  }

  /**
   The value `cal_pixel` computes for c. The first pass always starts from
   z_0 = 0, which is inside the circle, so the count is never below 2.
   */
  function EscapeCount(c: Complex): (n: int)
    ensures IsEscapeCount(c, n)
    ensures 2 <= n <= MaxIter
  {
    CountFrom(c, 1)
  }

  /** The loop's result is determined: only one n satisfies IsEscapeCount. */
  lemma EscapeCountUnique(c: Complex, n: int)
    ensures IsEscapeCount(c, n) <==> n == EscapeCount(c)
  {
  }

  /** One pass of the loop body, on the parts, is one step of the recurrence. */
  lemma PassIsStep(zReal: real, zImag: real, c: Complex)
    ensures Step(Complex(zReal, zImag), c) == Complex(zReal * zReal - zImag * zImag + c.re, 2.0 * zReal * zImag + c.im)
    ensures LengthSq(Complex(zReal, zImag)) == zReal * zReal + zImag * zImag
  {
  }

  /** `cal_pixel`: the do-while loop over the parts of z. */
  method CalPixel(c: Complex) returns (iter: int)
    ensures IsEscapeCount(c, iter)
    ensures iter == EscapeCount(c)
  {
    var zReal, zImag := 0.0, 0.0;
    var lengthSq := 0.0;
    iter := 0;
    var again := true;
    while again
      invariant 0 <= iter <= MaxIter
      invariant Complex(zReal, zImag) == Orbit(c, iter)
      invariant iter >= 1 ==> lengthSq == LengthSq(Orbit(c, iter - 1))
      invariant again <==> iter == 0 || (iter < MaxIter && lengthSq < 4.0)
      invariant forall k :: 0 <= k < iter - 1 ==> !Escaped(c, k)
      decreases MaxIter - iter
    {
      PassIsStep(zReal, zImag, c);
      var zReal2 := zReal * zReal;
      var zImag2 := zImag * zImag;
      zImag := 2.0 * zReal * zImag + c.im;
      zReal := zReal2 - zImag2 + c.re;
      lengthSq := zReal2 + zImag2;
      iter := iter + 1;
      again := iter < MaxIter && lengthSq < 4.0;
    }
    EscapeCountUnique(c, iter);
  }

  /** The complex conjugate: the mirror image in the real axis. */
  function Conj(z: Complex): Complex
  {
    Complex(z.re, -z.im)
  }

  lemma LengthSqConj(z: Complex)
    ensures LengthSq(Conj(z)) == LengthSq(z)
  {
    assert -z.im * -z.im == z.im * z.im;
  }

  lemma StepConj(z: Complex, c: Complex)
    ensures Step(Conj(z), Conj(c)) == Conj(Step(z, c))
  {
    var s, t := Step(Conj(z), Conj(c)), Step(z, c);
    assert s.re == t.re by {
      assert -z.im * -z.im == z.im * z.im;
    }
    assert s.im == -t.im by {
      assert 2.0 * z.re * -z.im == -(2.0 * z.re * z.im);
    }
  }

  /** The orbit of the conjugate is the conjugate of the orbit. */
  lemma {:induction false} OrbitConj(c: Complex, k: nat)
    ensures Orbit(Conj(c), k) == Conj(Orbit(c, k))
  {
    if k > 0 {
      OrbitConj(c, k - 1);
      StepConj(Orbit(c, k - 1), c);
    }
  }

  /** Conjugate symmetry: c and its mirror image get the same count. */
  lemma ConjugateSymmetry(c: Complex)
    ensures EscapeCount(Conj(c)) == EscapeCount(c)
  {
    var n := EscapeCount(c);
    forall k: nat
      ensures Escaped(Conj(c), k) == Escaped(c, k)
    {
      OrbitConj(c, k);
      LengthSqConj(Orbit(c, k));
    }
    assert IsEscapeCount(Conj(c), n);
    EscapeCountUnique(Conj(c), n);
  }

  /** The orbit of the origin stays at the origin. */
  lemma {:induction false} OriginOrbit(k: nat)
    ensures Orbit(Origin, k) == Origin
  {
    if k > 0 {
      OriginOrbit(k - 1);
    }
  }

  /** The origin never escapes, so it gets the full MaxIter passes. */
  lemma OriginCount()
    ensures EscapeCount(Origin) == MaxIter
  {
    forall k: nat
      ensures !Escaped(Origin, k)
    {
      OriginOrbit(k);
    }
    EscapeCountUnique(Origin, MaxIter);
  }

  /**
   The count is exactly 2 when, and only when, c itself (which is z_1) is
   on or outside the circle of radius 2.
   */
  lemma CountTwo(c: Complex)
    ensures EscapeCount(c) == 2 <==> LengthSq(c) >= 4.0
  {
    assert Orbit(c, 1) == c;
    if LengthSq(c) >= 4.0 {
      EscapeCountUnique(c, 2);
    }
  }

  /**
   The count is exactly 3 when c (which is z_1) is inside the circle of
   radius 2 and z_2 = c^2 + c is not.
   */
  lemma CountThree(c: Complex)
    ensures EscapeCount(c) == 3 <==> LengthSq(c) < 4.0 && LengthSq(Step(c, c)) >= 4.0
  {
    assert Orbit(c, 1) == c;
    assert Orbit(c, 2) == Step(c, c);
    if LengthSq(c) < 4.0 && LengthSq(Step(c, c)) >= 4.0 {
      assert !Escaped(c, 0) && !Escaped(c, 1) && Escaped(c, 2);
      EscapeCountUnique(c, 3);
    }
  }

  /** A point far outside the set, such as (10, 10), stops after the second pass. */
  lemma FarPointCount()
    ensures EscapeCount(Complex(10.0, 10.0)) == 2
  {
    CountTwo(Complex(10.0, 10.0));
  }
}
