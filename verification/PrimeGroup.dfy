/** An abelian group with a generator of order `n` and a parity that negation
    flips: what MuSig2 and BIP-340 need of secp256k1. The group is a value, so
    every theorem over it holds for every group with these laws. */
module PrimeGroup {

  // The laws below are instantiated only where a proof writes one of these.
  ghost predicate At1<P>(a: P) { true }
  ghost predicate At2<P>(a: P, b: P) { true }
  ghost predicate At3<P>(a: P, b: P, c: P) { true }
  ghost predicate AtK<P>(k: int, a: P) { true }
  ghost predicate AtK2<P>(k: int, a: P, b: P) { true }
  ghost predicate AtJK<P>(j: int, k: int, a: P) { true }

  /** `zero` is the point at infinity, `gen` the base point G. */
  datatype Group<!P(==)> = Group(
    n: int,
    zero: P,
    gen: P,
    add: (P, P) -> P,
    neg: P -> P,
    mul: (int, P) -> P,
    even: P -> bool)

  ghost predicate AdditionLaws<P(!new)>(E: Group<P>) {
    && (forall a, b, c {:trigger At3(a, b, c)} :: E.add(E.add(a, b), c) == E.add(a, E.add(b, c)))
    && (forall a, b {:trigger At2(a, b)} :: E.add(a, b) == E.add(b, a))
    && (forall a {:trigger At1(a)} :: E.add(a, E.zero) == a && E.add(a, E.neg(a)) == E.zero)
  }

  ghost predicate SumLaw<P(!new)>(E: Group<P>) {
    forall j, k, a {:trigger AtJK(j, k, a)} :: E.mul(j + k, a) == E.add(E.mul(j, a), E.mul(k, a))
  }

  ghost predicate ProductLaw<P(!new)>(E: Group<P>) {
    forall j, k, a {:trigger AtJK(j, k, a)} :: E.mul(j * k, a) == E.mul(j, E.mul(k, a))
  }

  ghost predicate DistributeLaw<P(!new)>(E: Group<P>) {
    forall k, a, b {:trigger AtK2(k, a, b)} :: E.mul(k, E.add(a, b)) == E.add(E.mul(k, a), E.mul(k, b))
  }

  /** One fixes and n kills every point, the generator has order exactly n, and negation flips
      the parity of every point but zero. */
  ghost predicate OrderLaws<P(!new)>(E: Group<P>) {
    && E.n > 2
    && (forall a {:trigger At1(a)} :: E.mul(1, a) == a)
    && (forall a {:trigger At1(a)} :: E.mul(E.n, a) == E.zero)
    && (forall k {:trigger AtK(k, E.gen)} :: E.mul(k, E.gen) == E.zero ==> k % E.n == 0)
    && (forall a {:trigger At1(a)} :: a != E.zero ==> E.even(E.neg(a)) != E.even(a))
  }

  ghost predicate Laws<P(!new)>(E: Group<P>) {
    AdditionLaws(E) && SumLaw(E) && ProductLaw(E) && DistributeLaw(E) && OrderLaws(E)
  }

  function Sub<P>(E: Group<P>, a: P, b: P): P { E.add(a, E.neg(b)) }

  /** The even-y point with the x-coordinate of `a`. Two points share an
      x-coordinate exactly when their lifts agree, so the lift stands for the
      32 x-bytes. */
  function Lift<P>(E: Group<P>, a: P): P { if E.even(a) then a else E.neg(a) }

  // ----- laws, one lemma each -----

  lemma Assoc<P(!new)>(E: Group<P>, a: P, b: P, c: P)
    requires Laws(E)
    ensures E.add(E.add(a, b), c) == E.add(a, E.add(b, c))
  {
    assert At3(a, b, c);
  }

  lemma Comm<P(!new)>(E: Group<P>, a: P, b: P)
    requires Laws(E)
    ensures E.add(a, b) == E.add(b, a)
  {
    assert At2(a, b);
  }

  lemma Zero<P(!new)>(E: Group<P>, a: P)
    requires Laws(E)
    ensures E.add(a, E.zero) == a && E.add(E.zero, a) == a
  {
    assert At1(a);
    Comm(E, a, E.zero);
  }

  lemma Inverse<P(!new)>(E: Group<P>, a: P)
    requires Laws(E)
    ensures E.add(a, E.neg(a)) == E.zero && E.add(E.neg(a), a) == E.zero
  {
    assert At1(a);
    Comm(E, a, E.neg(a));
  }

  lemma One<P(!new)>(E: Group<P>, a: P)
    requires Laws(E)
    ensures E.mul(1, a) == a
  {
    assert At1(a);
  }

  lemma MulSum<P(!new)>(E: Group<P>, j: int, k: int, a: P)
    requires Laws(E)
    ensures E.mul(j + k, a) == E.add(E.mul(j, a), E.mul(k, a))
  {
    assert AtJK(j, k, a);
  }

  lemma MulMul<P(!new)>(E: Group<P>, j: int, k: int, a: P)
    requires Laws(E)
    ensures E.mul(j * k, a) == E.mul(j, E.mul(k, a))
  {
    assert AtJK(j, k, a);
  }

  lemma MulAdd<P(!new)>(E: Group<P>, k: int, a: P, b: P)
    requires Laws(E)
    ensures E.mul(k, E.add(a, b)) == E.add(E.mul(k, a), E.mul(k, b))
  {
    assert AtK2(k, a, b);
  }

  lemma FlipsParity<P(!new)>(E: Group<P>, a: P)
    requires Laws(E) && a != E.zero
    ensures E.even(E.neg(a)) != E.even(a)
  {
    assert At1(a);
  }

  // ----- consequences -----

  lemma Cancel<P(!new)>(E: Group<P>, a: P, b: P, c: P)
    requires Laws(E) && E.add(a, c) == E.add(b, c)
    ensures a == b
  {
    Assoc(E, a, c, E.neg(c));
    Assoc(E, b, c, E.neg(c));
    Inverse(E, c);
    Zero(E, a);
    Zero(E, b);
  }

  lemma MulZero<P(!new)>(E: Group<P>, a: P)
    requires Laws(E)
    ensures E.mul(0, a) == E.zero
  {
    MulSum(E, 0, 0, a);
    Zero(E, E.mul(0, a));
    Cancel(E, E.mul(0, a), E.zero, E.mul(0, a));
  }

  lemma MulOfZero<P(!new)>(E: Group<P>, k: int)
    requires Laws(E)
    ensures E.mul(k, E.zero) == E.zero
  {
    MulZero(E, E.zero);
    MulMul(E, k, 0, E.zero);
  }

  lemma Minus<P(!new)>(E: Group<P>, a: P)
    requires Laws(E)
    ensures E.mul(-1, a) == E.neg(a)
  {
    MulSum(E, -1, 1, a);
    One(E, a);
    MulZero(E, a);
    Inverse(E, a);
    Cancel(E, E.mul(-1, a), E.neg(a), a);
  }

  /** Scalars count modulo n. */
  lemma Reduce<P(!new)>(E: Group<P>, k: int, a: P)
    requires Laws(E)
    ensures E.mul(k % E.n, a) == E.mul(k, a)
  {
    var q := k / E.n;
    assert k == q * E.n + k % E.n;
    MulSum(E, q * E.n, k % E.n, a);
    MulMul(E, q, E.n, a);
    assert At1(a);
    MulOfZero(E, q);
    Zero(E, E.mul(k % E.n, a));
  }

  /** The code negates a scalar as n - k. */
  lemma MinusModular<P(!new)>(E: Group<P>, k: int, a: P)
    requires Laws(E)
    ensures E.mul(E.n - k, a) == E.neg(E.mul(k, a))
  {
    MulSum(E, E.n, -k, a);
    assert At1(a);
    Zero(E, E.mul(-k, a));
    assert -k == -1 * k;
    MulMul(E, -1, k, a);
    Minus(E, E.mul(k, a));
  }

  lemma Interchange<P(!new)>(E: Group<P>, a: P, b: P, c: P, d: P)
    requires Laws(E)
    ensures E.add(E.add(a, b), E.add(c, d)) == E.add(E.add(a, c), E.add(b, d))
  {
    Assoc(E, a, b, E.add(c, d));
    Assoc(E, b, c, d);
    Comm(E, b, c);
    Assoc(E, c, b, d);
    Assoc(E, a, c, E.add(b, d));
  }

  lemma NegZero<P(!new)>(E: Group<P>)
    requires Laws(E)
    ensures E.neg(E.zero) == E.zero
  {
    Inverse(E, E.zero);
    Zero(E, E.neg(E.zero));
  }

  lemma NegNeg<P(!new)>(E: Group<P>, a: P)
    requires Laws(E)
    ensures E.neg(E.neg(a)) == a
  {
    Inverse(E, a);
    Inverse(E, E.neg(a));
    Cancel(E, a, E.neg(E.neg(a)), E.neg(a));
  }

  lemma NegAdd<P(!new)>(E: Group<P>, a: P, b: P)
    requires Laws(E)
    ensures E.neg(E.add(a, b)) == E.add(E.neg(a), E.neg(b))
  {
    Minus(E, a);
    Minus(E, b);
    Minus(E, E.add(a, b));
    MulAdd(E, -1, a, b);
  }

  lemma MulNeg<P(!new)>(E: Group<P>, k: int, a: P)
    requires Laws(E)
    ensures E.mul(k, E.neg(a)) == E.neg(E.mul(k, a))
  {
    Minus(E, a);
    Minus(E, E.mul(k, a));
    MulMul(E, k, -1, a);
    MulMul(E, -1, k, a);
    assert k * -1 == -1 * k;
  }

  lemma AddSub<P(!new)>(E: Group<P>, a: P, b: P)
    requires Laws(E)
    ensures Sub(E, E.add(a, b), b) == a
  {
    Assoc(E, a, b, E.neg(b));
    Inverse(E, b);
    Zero(E, a);
  }

  lemma LiftIsEven<P(!new)>(E: Group<P>, a: P)
    requires Laws(E) && a != E.zero
    ensures Lift(E, a) != E.zero && E.even(Lift(E, a))
    ensures Lift(E, Lift(E, a)) == Lift(E, a)
  {
    FlipsParity(E, a);
    NegNeg(E, a);
    NegZero(E);
  }

  /** Reducing an addend does not change a residue. */
  lemma ModAdd(n: int, a: int, b: int)
    requires n > 0
    ensures (a % n + b) % n == (a + b) % n
  {
    var q := a / n + b / n;
    var r := a % n + b % n;
    assert a + b == q * n + r;
    assert a % n + b == (b / n) * n + r;
    ModOf(n, a + b, q, r);
    ModOf(n, a % n + b, b / n, r);
  }

  lemma ProductSign(a: int, b: int)
    requires a >= 0 && b >= 0
    ensures a * b >= 0
  {
  }

  lemma SmallMultiple(n: int, k: int)
    requires n > 0 && -n < k * n < n
    ensures k == 0
  {
    if k >= 1 {
      ProductSign(k - 1, n);
    } else if k <= -1 {
      ProductSign(-k - 1, n);
    }
  }

  lemma ModOf(n: int, a: int, q: int, r: int)
    requires n > 0 && a == q * n + r && 0 <= r < 2 * n
    ensures a % n == if r < n then r else r - n
  {
    var s := if r < n then r else r - n;
    var p := if r < n then q else q + 1;
    assert a == p * n + s;
    var d := a / n;
    assert a == d * n + a % n;
    assert (d - p) * n == d * n - p * n;
    SmallMultiple(n, d - p);
  }

  // ----- the laws hold of the residues modulo the order of secp256k1 -----

  const SECP_ORDER: int := 0xfffffffffffffffffffffffffffffffebaaedce6af48a03bbfd25e8cd0364141

  type Residue = k: int | 0 <= k < SECP_ORDER

  function Mod(k: int): Residue { k % SECP_ORDER }

  function ResidueAdd(a: Residue, b: Residue): Residue { Mod(a + b) }

  function ResidueNeg(a: Residue): Residue { if a == 0 then 0 else SECP_ORDER - a }

  function ResidueMul(k: int, a: Residue): Residue { Mod(k * a) }

  predicate ResidueEven(a: Residue) { 2 * a < SECP_ORDER }

  function Residues(): Group<Residue> {
    Group(SECP_ORDER, 0, 1, ResidueAdd, ResidueNeg, ResidueMul, ResidueEven)
  }

  lemma ModUnique(a: int, r: Residue, q: int)
    requires a == q * SECP_ORDER + r
    ensures Mod(a) == r
  {
    assert (a / SECP_ORDER - q) * SECP_ORDER == r - Mod(a);
  }

  lemma ModShift(a: int, b: int, q: int)
    requires a == b + q * SECP_ORDER
    ensures Mod(a) == Mod(b)
  {
    ModUnique(a, Mod(b), b / SECP_ORDER + q);
  }

  lemma ResidueAssoc(a: Residue, b: Residue, c: Residue)
    ensures ResidueAdd(ResidueAdd(a, b), c) == ResidueAdd(a, ResidueAdd(b, c))
  {
    var N := SECP_ORDER;
    ModShift(Mod(a + b) + c, a + b + c, -((a + b) / N));
    ModShift(a + Mod(b + c), a + b + c, -((b + c) / N));
  }

  lemma ResidueUnits(k: int, a: Residue)
    ensures ResidueAdd(a, 0) == a && ResidueAdd(a, ResidueNeg(a)) == 0
    ensures ResidueMul(1, a) == a && ResidueMul(SECP_ORDER, a) == 0
    ensures a != 0 ==> ResidueEven(ResidueNeg(a)) != ResidueEven(a)
    ensures ResidueMul(k, 1) == 0 ==> k % SECP_ORDER == 0
  {
    ModUnique(SECP_ORDER * a, 0, a);
  }

  lemma ResiduesAreAGroup()
    ensures Laws(Residues())
  {
    ResidueAdditionLaws();
    ResidueSumLaw();
    ResidueProductLaw();
    ResidueDistributeLaw();
    ResidueOrderLaws();
  }

  lemma ResidueAdditionLaws()
    ensures AdditionLaws(Residues())
  {
    var E := Residues();
    forall a: Residue, b: Residue, c: Residue
      ensures E.add(E.add(a, b), c) == E.add(a, E.add(b, c))
    {
      ResidueAssoc(a, b, c);
    }
    forall a: Residue, b: Residue
      ensures E.add(a, b) == E.add(b, a)
    {
    }
    forall a: Residue
      ensures E.add(a, E.zero) == a && E.add(a, E.neg(a)) == E.zero
    {
      ResidueUnits(0, a);
    }
  }

  lemma ResidueSumLaw()
    ensures SumLaw(Residues())
  {
    hide ResidueAdd, ResidueMul;
    var E := Residues();
    forall j: int, k: int, a: Residue
      ensures E.mul(j + k, a) == E.add(E.mul(j, a), E.mul(k, a))
    {
      ResidueScalars(j, k, a);
    }
  }

  lemma ResidueProductLaw()
    ensures ProductLaw(Residues())
  {
    hide ResidueAdd, ResidueMul;
    var E := Residues();
    forall j: int, k: int, a: Residue
      ensures E.mul(j * k, a) == E.mul(j, E.mul(k, a))
    {
      ResidueScalars(j, k, a);
    }
  }

  lemma ResidueDistributeLaw()
    ensures DistributeLaw(Residues())
  {
    hide ResidueAdd, ResidueMul;
    var E := Residues();
    forall k: int, a: Residue, b: Residue
      ensures E.mul(k, E.add(a, b)) == E.add(E.mul(k, a), E.mul(k, b))
    {
      ResidueDistributes(k, a, b);
    }
  }

  lemma ResidueOrderLaws()
    ensures OrderLaws(Residues())
  {
    var E := Residues();
    forall a: Residue
      ensures E.mul(1, a) == a && E.mul(E.n, a) == E.zero
      ensures a != E.zero ==> E.even(E.neg(a)) != E.even(a)
    {
      ResidueUnits(0, a);
    }
    forall k: int
      ensures E.mul(k, E.gen) == E.zero ==> k % E.n == 0
    {
      ResidueUnits(k, 0);
    }
  }

  lemma ResidueScalars(j: int, k: int, a: Residue)
    ensures ResidueMul(j + k, a) == ResidueAdd(ResidueMul(j, a), ResidueMul(k, a))
    ensures ResidueMul(j * k, a) == ResidueMul(j, ResidueMul(k, a))
  {
    var N := SECP_ORDER;
    var p, q := j * a / N, k * a / N;
    assert (j + k) * a == j * a + k * a;
    ModShift((j + k) * a, Mod(j * a) + Mod(k * a), p + q);
    assert k * a == Mod(k * a) + q * N;
    calc {
      (j * k) * a;
      j * (k * a);
      j * (Mod(k * a) + q * N);
      j * Mod(k * a) + (j * q) * N;
    }
    ModShift((j * k) * a, j * Mod(k * a), j * q);
  }

  lemma ResidueDistributes(k: int, a: Residue, b: Residue)
    ensures ResidueMul(k, ResidueAdd(a, b)) == ResidueAdd(ResidueMul(k, a), ResidueMul(k, b))
  {
    var N := SECP_ORDER;
    var q := (a + b) / N;
    assert a + b == Mod(a + b) + q * N;
    calc {
      k * (a + b);
      k * (Mod(a + b) + q * N);
      k * Mod(a + b) + (k * q) * N;
    }
    ModShift(k * (a + b), k * Mod(a + b), k * q);
    assert k * (a + b) == k * a + k * b;
    ModShift(k * (a + b), Mod(k * a) + Mod(k * b), k * a / N + k * b / N);
  }
}
