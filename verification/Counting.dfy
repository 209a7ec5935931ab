/** Counting: finite sets, and challenge vectors, sequences of a given length over a set of scalars. */
module Counting {

  function Power(b: nat, e: nat): nat {
    if e == 0 then 1 else b * Power(b, e - 1)
  }

  ghost function Prefixed(S: set<nat>, T: set<seq<nat>>): set<seq<nat>> {
    set s, v | s in S && v in T :: [s] + v
  }

  /** All vectors of length k over S. */
  ghost function Challenges(S: set<nat>, k: nat): set<seq<nat>> {
    if k == 0 then {[]} else Prefixed(S, Challenges(S, k - 1))
  }

  lemma {:induction false} ChallengesAre(S: set<nat>, k: nat, v: seq<nat>)
    ensures v in Challenges(S, k) <==> |v| == k && forall i | 0 <= i < k :: v[i] in S
  {
    if k > 0 {
      if v in Challenges(S, k) {
        var s, w :| s in S && w in Challenges(S, k - 1) && v == [s] + w;
        ChallengesAre(S, k - 1, w);
      }
      if |v| == k && forall i | 0 <= i < k :: v[i] in S {
        ChallengesAre(S, k - 1, v[1..]);
        assert v == [v[0]] + v[1..];
      }
    }
  }

  /** An injective image of a finite set has as many elements. */
  lemma {:induction false} InjectiveImage<A(!new), B>(X: set<A>, Y: set<B>, f: A -> B)
    requires forall x | x in X :: f(x) in Y
    requires forall x, x' | x in X && x' in X && f(x) == f(x') :: x == x'
    ensures |X| <= |Y|
    decreases |X|
  {
    if X != {} {
      var x :| x in X;
      assert f(x) in Y;
      InjectiveImage(X - {x}, Y - {f(x)}, f);
    }
  }

  lemma PrefixedByOne(s: nat, T: set<seq<nat>>)
    ensures |Prefixed({s}, T)| == |T|
  {
    var one := Prefixed({s}, T);
    var put, take := (v: seq<nat>) => [s] + v, (v: seq<nat>) => if v == [] then [] else v[1..];
    forall v | v in T ensures take(put(v)) == v {
      assert ([s] + v)[1..] == v;
    }
    InjectiveImage(T, one, put);
    forall a | a in one ensures put(take(a)) == a && take(a) in T {
      var v :| v in T && a == [s] + v;
      assert a[1..] == v;
    }
    InjectiveImage(one, T, take);
  }

  lemma PrefixedGrows(s: nat, S: set<nat>, T: set<seq<nat>>)
    requires s !in S
    ensures |Prefixed({s} + S, T)| == |T| + |Prefixed(S, T)|
  {
    var one, rest := Prefixed({s}, T), Prefixed(S, T);
    PrefixedByOne(s, T);
    assert forall v | v in one :: v[0] == s;
    assert forall v | v in rest :: v[0] != s;
    assert one !! rest;
    assert Prefixed({s} + S, T) == one + rest;
  }

  lemma {:induction false} PrefixedCount(S: set<nat>, T: set<seq<nat>>)
    ensures |Prefixed(S, T)| == |S| * |T|
    decreases |S|
  {
    if S == {} {
      assert Prefixed(S, T) == {};
    } else {
      var s :| s in S;
      var rest := S - {s};
      PrefixedCount(rest, T);
      PrefixedGrows(s, rest, T);
      assert S == {s} + rest;
      NextMultiple(|rest|, |T|);
    }
  }

  lemma NextMultiple(a: nat, b: nat)
    ensures (a + 1) * b == a * b + b
  {
  }

  /** At most |S|^(k-1) of the |S|^k challenges of length k. */
  ghost predicate AreRare(X: set<seq<nat>>, S: set<nat>, k: nat) {
    k > 0 && |X| <= Power(|S|, k - 1) && |Challenges(S, k)| == Power(|S|, k)
  }

  lemma {:induction false} ChallengeCount(S: set<nat>, k: nat)
    ensures |Challenges(S, k)| == Power(|S|, k)
  {
    if k > 0 {
      ChallengeCount(S, k - 1);
      PrefixedCount(S, Challenges(S, k - 1));
    }
  }

  /** A subset of the same size is the whole set. */
  lemma SubsetSize<T>(X: set<T>, Y: set<T>)
    requires X <= Y
    ensures |X| <= |Y|
    ensures |X| == |Y| ==> X == Y
  {
    assert Y == X + (Y - X);
  }

  function Drop(v: seq<nat>, j: nat): seq<nat> {
    if j < |v| then v[..j] + v[j + 1..] else v
  }

  /** Equal length, and equal but perhaps at j. */
  ghost predicate AgreeOff(v: seq<nat>, w: seq<nat>, j: nat) {
    |v| == |w| && forall i | 0 <= i < |v| && i != j :: v[i] == w[i]
  }

  lemma DroppedEqual(v: seq<nat>, w: seq<nat>, j: nat)
    requires |v| == |w| && j < |v| && Drop(v, j) == Drop(w, j)
    ensures AgreeOff(v, w, j)
  {
    forall i | 0 <= i < |v| && i != j ensures v[i] == w[i] {
      if i < j {
        assert v[i] == Drop(v, j)[i] && w[i] == Drop(w, j)[i];
      } else {
        assert v[i] == Drop(v, j)[i - 1] && w[i] == Drop(w, j)[i - 1];
      }
    }
  }

  lemma DropIsChallenge(S: set<nat>, k: nat, j: nat, v: seq<nat>)
    requires j < k && v in Challenges(S, k)
    ensures |v| == k && Drop(v, j) in Challenges(S, k - 1)
  {
    ChallengesAre(S, k, v);
    ChallengesAre(S, k - 1, Drop(v, j));
  }

  /**
   If no two vectors of A differ in coordinate j alone, A holds at most one in |S| of all
   vectors.
   */
  lemma FewVectors(S: set<nat>, k: nat, j: nat, A: set<seq<nat>>)
    requires j < k && A <= Challenges(S, k)
    requires forall v, w | v in A && w in A && AgreeOff(v, w, j) :: v == w
    ensures |A| <= Power(|S|, k - 1)
  {
    var drop := (v: seq<nat>) => Drop(v, j);
    forall v | v in A ensures drop(v) in Challenges(S, k - 1) {
      DropIsChallenge(S, k, j, v);
    }
    forall v, w | v in A && w in A && drop(v) == drop(w) ensures v == w {
      DropIsChallenge(S, k, j, v);
      DropIsChallenge(S, k, j, w);
      DroppedEqual(v, w, j);
    }
    InjectiveImage(A, Challenges(S, k - 1), drop);
    ChallengeCount(S, k - 1);
  }
}
