/**
 A scheme that meets every assumption at once: the ring Z_3[x]/(x^4 + 1), its elements encrypting
 themselves. It shows that what the theorems require of the evaluator is consistent, for a ring in
 which clients can ask questions.
 */
module ExampleScheme {
  import opened Arith
  import opened NegacyclicRing
  import opened Algebra
  import opened Freivalds
  import opened Retrieval
  import Embedding
  import QueryExpander
  import RowCheck

  const SMALL: Ring := RingShape.Ring(4, 3)

  type Elem = p: Poly | IsPoly(SMALL, p) witness [0, 0, 0, 0]

  function Zero(): Elem {
    Constant(SMALL, 0)
  }

  function Sum(x: Elem, y: Elem): Elem {
    Add(SMALL, x, y)
  }

  function Negated(x: Elem): Elem {
    seq(4, s requires 0 <= s < 4 => Neg(SMALL, x[s]))
  }

  function Multiplied(a: Poly, x: Elem): Elem {
    Product(SMALL, a, x)
  }

  function Scaled(s: nat, x: Elem): Elem {
    if s == 0 then Zero() else Sum(Scaled(s - 1, x), x)
  }

  function Elements(): Group<Elem> {
    Group(Zero(), (x: Elem, y: Elem) => Sum(x, y), (x: Elem) => Negated(x))
  }

  lemma ElementsFormGroup()
    ensures Lawful(Elements())
  {
    forall x: Elem, y: Elem, z: Elem | Cue(x, y, z)
      ensures Sum(x, y) == Sum(y, x) && Sum(Sum(x, y), z) == Sum(x, Sum(y, z))
      ensures Sum(x, Zero()) == x && Sum(x, Negated(x)) == Zero()
    {
      SumLaws(x, y, z);
    }
  }

  lemma SumLaws(x: Elem, y: Elem, z: Elem)
    ensures Sum(x, y) == Sum(y, x) && Sum(Sum(x, y), z) == Sum(x, Sum(y, z))
    ensures Sum(x, Zero()) == x && Sum(x, Negated(x)) == Zero()
  {
    AddSwap(SMALL, y, x, z);
    AddZero(SMALL, x);
    forall s | 0 <= s < 4 ensures Sum(x, y)[s] == Sum(y, x)[s] {
    }
    forall s | 0 <= s < 4 ensures Sum(Sum(y, z), x)[s] == Sum(x, Sum(y, z))[s] {
    }
  }

  lemma {:induction false} ScaledSum(s: nat, x: Elem, y: Elem)
    ensures Scaled(s, Sum(x, y)) == Sum(Scaled(s, x), Scaled(s, y))
  {
    if s == 0 {
      AddZero(SMALL, Zero());
    } else {
      ScaledSum(s - 1, x, y);
      ElementsFormGroup();
      Regroup(Elements(), Scaled(s - 1, x), Scaled(s - 1, y), x, y);
    }
  }

  lemma {:induction false} ScaledZero(s: nat)
    ensures Scaled(s, Zero()) == Zero()
  {
    AddZero(SMALL, Zero());
    if s > 0 { ScaledZero(s - 1); }
  }

  lemma {:induction false} MultipliedScaled(a: Poly, s: nat, x: Elem)
    ensures Multiplied(a, Scaled(s, x)) == Scaled(s, Multiplied(a, x))
  {
    if s == 0 {
      ProductOfZero(SMALL, a);
    } else {
      MultipliedScaled(a, s - 1, x);
      ProductDistributes(SMALL, a, Scaled(s - 1, x), x);
    }
  }

  /** The element as the residues of one polynomial modulo 3. */
  function Residues(): Elem -> Ct {
    (x: Elem) => [[x]]
  }

  function Plaintext(): Ct -> Poly {
    (c: Ct) => if |c| == 1 && |c[0]| == 1 then c[0][0] else []
  }

  function Clear(): Scheme<Elem> {
    Scheme(
      SMALL, Embedding.Parameters(1, 4, [3]), 1, Residues(), Plaintext(), Elements(),
      (a: Poly, x: Elem) => Multiplied(a, x))
  }

  function ClearExpander(): QueryExpander.Evaluator<Elem> {
    var dec: Elem -> Poly := (x: Elem) => x;
    var add: (Elem, Elem) -> Elem := (x: Elem, y: Elem) => Sum(x, y);
    var galois: (Elem, nat) -> Elem := (x: Elem, g: nat) => Rotate(SMALL, x, g);
    var shift: (Elem, nat) -> Elem := (x: Elem, e: nat) => Shift(SMALL, x, e);
    var double: Elem -> Elem := (x: Elem) => Sum(x, x);
    QueryExpander.Evaluator(dec, add, galois, shift, double, Zero())
  }

  function ClearChecker(): RowCheck.Evaluator<Poly, Elem> {
    RowCheck.Evaluator(Elements(), Clear().act, (s: nat, x: Elem) => Scaled(s, x), (x: Elem) => x == Zero())
  }

  lemma ElementIsCt(x: Elem)
    ensures Encrypts(Clear(), x, x)
  {
  }

  lemma ClearIsHomomorphic()
    ensures Homomorphic(Clear())
  {
    var S := Clear();
    assert Pow2(1) == 2;
    ElementIsCt(Zero());
    forall x: Elem, y: Elem ensures SumLaw(S, x, y) { ElementIsCt(Sum(x, y)); }
    forall a: Poly, x: Elem ensures ProductLaw(S, a, x) { ElementIsCt(Multiplied(a, x)); }
  }

  lemma MultipliedIsAdditive(a: Poly)
    ensures AdditiveIn(Elements(), Clear().act, a)
  {
    ProductOfZero(SMALL, a);
    forall x: Elem, y: Elem ensures Multiplied(a, Sum(x, y)) == Sum(Multiplied(a, x), Multiplied(a, y)) {
      ProductDistributes(SMALL, a, x, y);
    }
  }

  lemma ScaledIsAdditive(s: nat)
    ensures AdditiveIn(Elements(), ClearChecker().scale, s)
  {
    ScaledZero(s);
    forall x: Elem, y: Elem ensures Scaled(s, Sum(x, y)) == Sum(Scaled(s, x), Scaled(s, y)) {
      ScaledSum(s, x, y);
    }
  }

  lemma MultipliedCommutes(a: Poly, s: nat)
    ensures Commutes(Clear().act, a, ClearChecker().scale, s)
  {
    forall x: Elem ensures Multiplied(a, Scaled(s, x)) == Scaled(s, Multiplied(a, x)) {
      MultipliedScaled(a, s, x);
    }
  }

  lemma ZeroTestIsSubgroup()
    ensures Subgroup(Elements(), ClearChecker().passes)
  {
    SumLaws(Zero(), Zero(), Zero());
  }

  lemma ClearCheckerIsLinear()
    ensures RowCheck.Linear(ClearChecker())
  {
    ElementsFormGroup();
    forall a: Poly ensures AdditiveIn(Elements(), Clear().act, a) { MultipliedIsAdditive(a); }
    forall s: nat ensures AdditiveIn(Elements(), ClearChecker().scale, s) { ScaledIsAdditive(s); }
    forall a: Poly, s: nat ensures Commutes(Clear().act, a, ClearChecker().scale, s) { MultipliedCommutes(a, s); }
    ZeroTestIsSubgroup();
  }

  /** All at once, with one group, one product and one decryption. */
  lemma AssumptionsCanBeMet()
    ensures Homomorphic(Clear()) && QueryExpander.Faithful(SMALL, ClearExpander()) && RowCheck.Linear(ClearChecker())
    ensures ClearChecker().G == Clear().G && ClearChecker().act == Clear().act
    ensures forall x: Elem :: ClearExpander().dec(x) == Clear().Plain(x)
  {
    ClearIsHomomorphic();
    ClearCheckerIsLinear();
  }
}
