/**
 Residues modulo a prime, as integers that count up to multiples of it: the instance of the
 algebra in which one word of a ciphertext lives.
 */
module Residues {
  import opened Arith
  import opened Algebra
  import opened Freivalds

  predicate Prime(p: nat) {
    p > 1 && forall d | 1 < d < p :: p % d != 0
  }

  ghost predicate Divides(p: nat, a: int)
    requires p > 0
  {
    a % p == 0
  }

  lemma DividesAdds(p: nat, a: int, k: int, b: int)
    requires p > 0 && Divides(p, a)
    ensures Divides(p, b) <==> Divides(p, b + k * a)
  {
    assert k * a == (k * (a / p)) * p by { assert a == (a / p) * p; }
    ModAddMultiple(b, k * (a / p), p);
  }

  /** A prime that divides r*b, with 0 < r < p, divides b: descend through p mod r. */
  lemma {:induction false} PrimeDescent(p: nat, r: nat, b: int)
    requires Prime(p) && 1 <= r < p && Divides(p, r * b)
    ensures Divides(p, b)
    decreases r
  {
    if r > 1 {
      var quot, rest := p / r, p % r;
      assert rest * b == p * b - quot * (r * b) by { assert p == quot * r + rest; }
      ModMultiple(b, p);
      DividesAdds(p, r * b, -quot, p * b);
      PrimeDescent(p, rest, b);
    }
  }

  /** Euclid's lemma. */
  lemma PrimeDividesFactor(p: nat, a: int, b: int)
    requires Prime(p) && Divides(p, a * b)
    ensures Divides(p, a) || Divides(p, b)
  {
    var r := a % p;
    assert a == (a / p) * p + r;
    assert r * b == a * b + (-((a / p) * b)) * p;
    ModAddMultiple(a * b, -((a / p) * b), p);
    if r > 0 { PrimeDescent(p, r, b); }
  }

  function Integers(): Group<int> {
    Group(0, (x: int, y: int) => x + y, (x: int) => -x)
  }

  function Times(): (nat, int) -> int {
    (s: nat, x: int) => s * x
  }

  function IsMultiple(p: nat): int -> bool
    requires p > 0
  {
    (x: int) => x % p == 0
  }

  // ----- the words of a whole ciphertext

  /** All residues of a ciphertext in NTT form, one after the other; from its last non-zero one on they are zero. */
  type Words = w: seq<int> | w == [] || w[|w| - 1] != 0 witness []

  function Word(w: Words, i: nat): int {
    if i < |w| then w[i] else 0
  }

  /** Words that agree in every place are equal. */
  lemma SameWords(a: Words, b: Words)
    requires forall i: nat :: Word(a, i) == Word(b, i)
    ensures a == b
  {
    if |a| > 0 { assert Word(a, |a| - 1) == Word(b, |a| - 1); }
    if |b| > 0 { assert Word(a, |b| - 1) == Word(b, |b| - 1); }
    forall i | 0 <= i < |a| ensures a[i] == b[i] { assert Word(a, i) == Word(b, i); }
  }

  function Trim(s: seq<int>): (w: Words)
    ensures forall i: nat :: Word(w, i) == if i < |s| then s[i] else 0
  {
    if s == [] then [] else if s[|s| - 1] != 0 then s else Trim(s[..|s| - 1])
  }

  function Longer(a: Words, b: Words): nat {
    if |a| < |b| then |b| else |a|
  }

  function AddWords(a: Words, b: Words): (w: Words)
    ensures forall i: nat :: Word(w, i) == Word(a, i) + Word(b, i)
  {
    Trim(seq(Longer(a, b), i requires 0 <= i => Word(a, i) + Word(b, i)))
  }

  function NegWords(a: Words): (w: Words)
    ensures forall i: nat :: Word(w, i) == -Word(a, i)
  {
    Trim(seq(|a|, i requires 0 <= i => -Word(a, i)))
  }

  /** A scalar multiplies every word. */
  function ScaleWords(s: nat, a: Words): (w: Words)
    ensures forall i: nat :: Word(w, i) == s * Word(a, i)
  {
    Trim(seq(|a|, i requires 0 <= i => s * Word(a, i)))
  }

  /** In NTT form a plaintext multiplies word by word. */
  function MultiplyWords(p: Words, a: Words): (w: Words)
    ensures forall i: nat :: Word(w, i) == Word(p, i) * Word(a, i)
  {
    Trim(seq(|a|, i requires 0 <= i => Word(p, i) * Word(a, i)))
  }

  function WordGroup(): Group<Words> {
    Group([], (a: Words, b: Words) => AddWords(a, b), (a: Words) => NegWords(a))
  }

  lemma WordsFormGroup()
    ensures Lawful(WordGroup())
  {
    var G := WordGroup();
    forall x, y, z | Cue(x, y, z)
      ensures G.add(x, y) == G.add(y, x)
      ensures G.add(G.add(x, y), z) == G.add(x, G.add(y, z))
      ensures G.add(x, G.zero) == x && G.add(x, G.neg(x)) == G.zero
    {
      SameWords(AddWords(x, y), AddWords(y, x));
      SameWords(AddWords(AddWords(x, y), z), AddWords(x, AddWords(y, z)));
      SameWords(AddWords(x, []), x);
      SameWords(AddWords(x, NegWords(x)), []);
    }
  }

  predicate AllPrime(primes: seq<nat>) {
    forall i | 0 <= i < |primes| :: Prime(primes[i])
  }

  /** The zero test on a whole ciphertext: word i is zero modulo its own modulus. */
  predicate AllMultiples(primes: seq<nat>, w: Words)
    requires AllPrime(primes)
  {
    forall i | 0 <= i < |primes| :: Word(w, i) % primes[i] == 0
  }

  // ----- scalars

  ghost predicate DistinctModulo(S: set<nat>, p: nat)
    requires p > 0
  {
    forall s, r | s in S && r in S && s % p == r % p :: s == r
  }

  lemma MultiplesFormSubgroup(p: nat)
    requires p > 0
    ensures Lawful(Integers()) && Subgroup(Integers(), IsMultiple(p))
  {
    var G, passes := Integers(), IsMultiple(p);
    forall x: int, y: int | passes(x) && passes(y) ensures passes(G.Sub(x, y)) {
      DividesAdds(p, y, -1, x);
    }
  }

  lemma TimesIsAdditive(s: nat)
    ensures AdditiveIn(Integers(), Times(), s)
  {
    forall x: int, y: int ensures s * (x + y) == s * x + s * y {
    }
  }

  /** Two scalars that agree on a residue modulo a prime are congruent, or the residue is zero. */
  lemma ScalarsSeparate(p: nat, s: nat, r: nat, d: int)
    requires Prime(p) && s % p != r % p && Divides(p, s * d - r * d)
    ensures Divides(p, d)
  {
    assert s * d - r * d == (s - r) * d;
    PrimeDividesFactor(p, s - r, d);
    if Divides(p, s - r) {
      assert s == r + ((s - r) / p) * p;
      ModAddMultiple(r, (s - r) / p, p);
    }
  }

  /** Scalars distinct modulo a prime satisfy all the check asks of scalars. */
  lemma ResiduesScale(p: nat, S: set<nat>)
    requires Prime(p) && DistinctModulo(S, p)
    ensures Scaling(Integers(), Times(), IsMultiple(p), S)
  {
    var G, times, passes := Integers(), Times(), IsMultiple(p);
    MultiplesFormSubgroup(p);
    forall s, r, d | s in S && r in S && s != r && passes(G.Sub(times(s, d), times(r, d)))
      ensures passes(d)
    {
      ScalarsSeparate(p, s, r, d);
    }
    forall s | s in S ensures AdditiveIn(G, times, s) { TimesIsAdditive(s); }
  }

  /** All words below a bound are distinct modulo p exactly when p is at least the bound. */
  lemma WordsAreDistinct(S: set<nat>, bound: nat, p: nat)
    requires p > 0 && forall s: nat :: s in S <==> s < bound
    ensures DistinctModulo(S, p) <==> bound <= p
  {
    if bound <= p {
      forall s, r | s in S && r in S && s % p == r % p ensures s == r {
        DivModUnique(s, p, 0, s);
        DivModUnique(r, p, 0, r);
      }
    } else {
      DivModUnique(p, p, 1, 0);
      DivModUnique(0, p, 0, 0);
      assert 0 in S && p in S;
    }
  }
}
