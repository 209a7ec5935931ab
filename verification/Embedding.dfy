/** A ciphertext written out as plaintexts, digit by digit, and put together again. */
module Embedding {
  import opened Arith
  import opened SlotLayout

  const MAX_MODULUS := 0x1000_0000_0000_0000 // 2^60

  type Plaintext = seq<nat>

  /** Polynomial, then modulus, then coefficient; the n residues of a modulus are one row. */
  type Ciphertext = seq<seq<seq<nat>>>

  /** The plaintext modulus has `bits` whole bits; n coefficients; the coefficient moduli. */
  datatype Parameters = Parameters(bits: nat, n: nat, moduli: seq<nat>)

  /** The mask is computed in 32-bit arithmetic, and residues are 64-bit words of at most 60 bits. */
  predicate Usable(P: Parameters) {
    && 1 <= P.bits <= 30 && P.n > 0 && |P.moduli| > 0
    && forall i | 0 <= i < |P.moduli| :: 1 < P.moduli[i] <= MAX_MODULUS
  }

  /** Residues are below their moduli. */
  predicate WellFormed(P: Parameters, ct: Ciphertext) {
    forall k | 0 <= k < |ct| :: WellFormedPoly(P, ct[k])
  }

  predicate WellFormedPoly(P: Parameters, poly: seq<seq<nat>>) {
    && |poly| == |P.moduli|
    && forall i | 0 <= i < |poly| :: |poly[i]| == P.n && forall c | 0 <= c < P.n :: poly[i][c] < P.moduli[i]
  }

  lemma RoundUpDivision(a: nat, b: nat)
    requires b > 0
    ensures var L := (a + b - 1) / b; L * b >= a && (L > 0 ==> (L - 1) * b < a)
  {
    var L := (a + b - 1) / b;
    assert a + b - 1 == L * b + (a + b - 1) % b;
    assert (L - 1) * b == L * b - b;
  }

  /** How many digits of the given width a residue below q takes. */
  function DigitCount(q: nat, bits: nat): (L: nat)
    requires bits > 0
    ensures q > 1 ==> L > 0
  {
    var log := CeilLog2(q);
    RoundUpDivision(log, bits);
    (log + bits - 1) / bits
  }

  /** It is the least number of digits that hold every such residue. */
  lemma DigitCountIsLeast(q: nat, bits: nat)
    requires bits > 0
    ensures q <= Pow2(DigitCount(q, bits) * bits)
    ensures forall k: nat :: q <= Pow2(k * bits) ==> DigitCount(q, bits) <= k
  {
    var log, L := CeilLog2(q), DigitCount(q, bits);
    RoundUpDivision(log, bits);
    Pow2Monotone(log, L * bits);
    forall k: nat | q <= Pow2(k * bits) ensures L <= k {
      CeilLog2AtMost(q, k * bits);
      FactorBelow((L - 1), k, bits);
    }
  }

  lemma FactorBelow(a: int, b: int, c: nat)
    requires c > 0
    ensures a * c < b * c <==> a < b
  {
    assert b * c - a * c == (b - a) * c;
    NonzeroMultiple(b - a, c);
  }

  /** The digit counts of all moduli; compute_expansion_ratio is their total. */
  function DigitCounts(moduli: seq<nat>, bits: nat): (counts: seq<nat>)
    requires bits > 0
    ensures |counts| == |moduli|
  {
    if moduli == [] then []
    else DigitCounts(moduli[..|moduli| - 1], bits) + [DigitCount(moduli[|moduli| - 1], bits)]
  }

  lemma {:induction false} DigitCountsAt(moduli: seq<nat>, bits: nat, i: nat)
    requires bits > 0 && i < |moduli|
    ensures DigitCounts(moduli, bits)[i] == DigitCount(moduli[i], bits)
  {
    if i < |moduli| - 1 { DigitCountsAt(moduli[..|moduli| - 1], bits, i); }
  }

  function Counts(P: Parameters): (counts: seq<nat>)
    requires P.bits > 0
    ensures |counts| == |P.moduli|
  {
    DigitCounts(P.moduli, P.bits)
  }

  function Ratio(P: Parameters): nat
    requires P.bits > 0
  {
    Total(Counts(P))
  }

  /** Digit i of x: shifted right, then masked. */
  function Digit(x: nat, bits: nat, i: nat): (d: nat)
    ensures d < Pow2(bits)
  {
    (x / Pow2(i * bits)) % Pow2(bits)
  }

  /** The sum of the first k digits in their places. */
  function DigitSum(x: nat, bits: nat, k: nat): nat {
    if k == 0 then 0 else DigitSum(x, bits, k - 1) + Digit(x, bits, k - 1) * Pow2((k - 1) * bits)
  }

  /** The first k digits of x give x modulo 2^(k*bits). */
  lemma {:induction false} DigitsGiveRemainder(x: nat, bits: nat, k: nat)
    ensures DigitSum(x, bits, k) == x % Pow2(k * bits)
  {
    if k > 0 {
      DigitsGiveRemainder(x, bits, k - 1);
      Pow2Sum((k - 1) * bits, bits);
      assert (k - 1) * bits + bits == k * bits;
      PeelDigit(x, Pow2((k - 1) * bits), Pow2(bits));
    }
  }

  lemma PeelDigit(x: nat, low: nat, base: nat)
    requires low > 0 && base > 0
    ensures low * base > 0 && x % (low * base) == x % low + ((x / low) % base) * low
  {
    TopDigit(x, low, base, x / low, x % low, (x / low) / base, (x / low) % base);
  }

  lemma TopDigit(x: nat, low: nat, base: nat, quot: nat, rest: nat, high: nat, digit: nat)
    requires x == low * quot + rest && rest < low
    requires quot == base * high + digit && digit < base
    ensures low * base > 0 && x % (low * base) == rest + digit * low
  {
    DigitBounds(rest, digit, low, base);
    Regrouped(low, base, high, digit, rest);
    DivModUnique(x, low * base, high, low * digit + rest);
  }

  /** A residue below its modulus is the sum of its digits. */
  lemma DigitsGiveResidue(x: nat, q: nat, bits: nat)
    requires bits > 0 && x < q
    ensures DigitSum(x, bits, DigitCount(q, bits)) == x
  {
    var L := DigitCount(q, bits);
    DigitCountIsLeast(q, bits);
    DigitsGiveRemainder(x, bits, L);
    DivModUnique(x, Pow2(L * bits), 0, x);
  }

  // ----- the flat list of plaintexts

  /** The plaintext that belongs in a slot. */
  function Plane(P: Parameters, ct: Ciphertext, slot: nat): (p: Plaintext)
    requires Usable(P) && WellFormed(P, ct) && slot < Ratio(P) * |ct|
    ensures |p| == P.n && forall c | 0 <= c < P.n :: p[c] < Pow2(P.bits)
  {
    var place := PlaceOf(Counts(P), |ct|, slot);
    assert WellFormedPoly(P, ct[place.rep]);
    DigitsOf(P, ct[place.rep][place.block], place.offset)
  }

  /** Digit d of every coefficient of one row. */
  function DigitsOf(P: Parameters, row: seq<nat>, d: nat): (p: Plaintext)
    requires |row| == P.n
    ensures |p| == P.n && forall c | 0 <= c < P.n :: p[c] < Pow2(P.bits)
  {
    seq(P.n, c requires 0 <= c < P.n => Digit(row[c], P.bits, d))
  }

  /** No residue is ever shifted by 60 or more. */
  lemma ShiftIsLegal(P: Parameters, i: nat, d: nat)
    requires Usable(P) && i < |P.moduli| && d < Counts(P)[i]
    ensures d * P.bits < 60
  {
    DigitCountsAt(P.moduli, P.bits, i);
    DigitCountIsLeast(P.moduli[i], P.bits);
    Pow2Words();
    if d * P.bits >= 60 { Pow2Monotone(60, d * P.bits); }
  }

  /** Digit d of every coefficient of one modulus. */
  method DigitPlane(P: Parameters, row: seq<nat>, d: nat, shift: nat) returns (plane: Plaintext)
    requires |row| == P.n && shift == d * P.bits
    ensures |plane| == P.n && forall c | 0 <= c < P.n :: plane[c] == Digit(row[c], P.bits, d)
  {
    plane := seq(P.n, _ => 0);
    for c := 0 to P.n
      invariant |plane| == P.n && forall b | 0 <= b < c :: plane[b] == Digit(row[b], P.bits, d)
    {
      plane := plane[c := (row[c] / Pow2(shift)) % Pow2(P.bits)];
    }
  }

  ghost predicate FilledUpTo(P: Parameters, ct: Ciphertext, result: seq<Plaintext>, cursor: nat)
    requires Usable(P) && WellFormed(P, ct)
  {
    && cursor <= |result| == Ratio(P) * |ct|
    && forall slot | 0 <= slot < cursor :: result[slot] == Plane(P, ct, slot)
  }

  lemma FillSlot(P: Parameters, ct: Ciphertext, result: seq<Plaintext>, k: nat, i: nat, d: nat, plane: Plaintext)
    requires Usable(P) && WellFormed(P, ct) && k < |ct| && i < |P.moduli| && d < Counts(P)[i]
    requires FilledUpTo(P, ct, result, Slot(Counts(P), k, i, d))
    requires |plane| == P.n && forall c | 0 <= c < P.n :: plane[c] == Digit(ct[k][i][c], P.bits, d)
    ensures Slot(Counts(P), k, i, d) < |result|
    ensures FilledUpTo(P, ct, result[Slot(Counts(P), k, i, d) := plane], Slot(Counts(P), k, i, d + 1))
  {
    var slot := Slot(Counts(P), k, i, d);
    SlotIsUnique(Counts(P), |ct|, k, i, d);
    assert plane == Plane(P, ct, slot);
  }

  /** The digits of one modulus of one polynomial. */
  method DecomposeRow(P: Parameters, ct: Ciphertext, before: seq<Plaintext>, start: nat, k: nat, i: nat)
    returns (result: seq<Plaintext>, cursor: nat)
    requires Usable(P) && WellFormed(P, ct) && k < |ct| && i < |P.moduli|
    requires start == Slot(Counts(P), k, i, 0) && FilledUpTo(P, ct, before, start)
    ensures cursor == Slot(Counts(P), k, i + 1, 0) && FilledUpTo(P, ct, result, cursor)
  {
    var counts := Counts(P);
    result, cursor := before, start;
    var shift := 0;
    for d := 0 to counts[i]
      invariant cursor == Slot(counts, k, i, d) && shift == d * P.bits
      invariant FilledUpTo(P, ct, result, cursor)
    {
      ShiftIsLegal(P, i, d);
      var plane := DigitPlane(P, ct[k][i], d, shift);
      FillSlot(P, ct, result, k, i, d, plane);
      result := result[cursor := plane];
      cursor := cursor + 1;
      shift := shift + P.bits;
    }
    SlotCarries(counts, k, i);
  }

  method DecomposePoly(P: Parameters, ct: Ciphertext, before: seq<Plaintext>, start: nat, k: nat)
    returns (result: seq<Plaintext>, cursor: nat)
    requires Usable(P) && WellFormed(P, ct) && k < |ct|
    requires start == Slot(Counts(P), k, 0, 0) && FilledUpTo(P, ct, before, start)
    ensures cursor == Slot(Counts(P), k + 1, 0, 0) && FilledUpTo(P, ct, result, cursor)
  {
    result, cursor := before, start;
    for i := 0 to |P.moduli|
      invariant cursor == Slot(Counts(P), k, i, 0) && FilledUpTo(P, ct, result, cursor)
    {
      result, cursor := DecomposeRow(P, ct, result, cursor, k, i);
    }
    SlotCarries(Counts(P), k, 0);
  }

  method DecomposeToPlaintexts(P: Parameters, ct: Ciphertext) returns (result: seq<Plaintext>)
    requires Usable(P) && WellFormed(P, ct)
    ensures FilledUpTo(P, ct, result, |result|)
  {
    result := seq(Ratio(P) * |ct|, _ => []);
    var cursor := 0;
    SlotAfterAll(Counts(P), 0);
    for k := 0 to |ct|
      invariant cursor == Slot(Counts(P), k, 0, 0) && FilledUpTo(P, ct, result, cursor)
    {
      result, cursor := DecomposePoly(P, ct, result, cursor, k);
    }
    SlotAfterAll(Counts(P), |ct|);
  }

  // ----- and back

  /** Plaintexts as SEAL hands them over: 64-bit words, and perhaps fewer than n of them. */
  ghost predicate Storable(P: Parameters, pts: seq<Plaintext>) {
    forall k | 0 <= k < |pts| :: |pts[k]| <= P.n && forall c | 0 <= c < |pts[k]| :: pts[k][c] < TWO_TO_64
  }

  function Coefficient(p: Plaintext, c: nat): nat {
    if c < |p| then p[c] else 0
  }

  /** A 64-bit left shift, added to a 64-bit word. */
  function AddShifted(w: nat, x: nat, shift: nat): nat {
    (w + (x * Pow2(shift)) % TWO_TO_64) % TWO_TO_64
  }

  lemma AddShiftedExact(w: nat, x: nat, shift: nat)
    requires w + x * Pow2(shift) < TWO_TO_64
    ensures AddShifted(w, x, shift) == w + x * Pow2(shift)
  {
    WordSum(w, x * Pow2(shift));
  }

  lemma AddNothing(w: nat, shift: nat)
    requires w < TWO_TO_64
    ensures AddShifted(w, 0, shift) == w
  {
    assert 0 * Pow2(shift) == 0;
  }

  lemma AddUnshifted(x: nat)
    requires x < TWO_TO_64
    ensures AddShifted(0, x, 0) == x
  {
    assert x * Pow2(0) == x;
  }

  lemma WordSum(w: nat, y: nat)
    ensures w + y < TWO_TO_64 ==> (w + y % TWO_TO_64) % TWO_TO_64 == w + y
  {
  }

  /** Coefficient c after k plaintexts, starting at the given one, were shifted in and added. */
  function Word(P: Parameters, pts: seq<Plaintext>, first: nat, c: nat, k: nat): (w: nat)
    requires first + k <= |pts|
    ensures w < TWO_TO_64
  {
    if k == 0 then 0
    else AddShifted(Word(P, pts, first, c, k - 1), Coefficient(pts[first + k - 1], c), (k - 1) * P.bits)
  }

  /** The sum itself, of any plaintexts. */
  function ShiftedSum(P: Parameters, pts: seq<Plaintext>, first: nat, c: nat, k: nat): nat
    requires first + k <= |pts|
  {
    if k == 0 then 0
    else ShiftedSum(P, pts, first, c, k - 1) + Coefficient(pts[first + k - 1], c) * Pow2((k - 1) * P.bits)
  }

  /** What is kept of it, however far it goes, is its lowest 64 bits. */
  lemma {:induction false} WordIsLowBits(P: Parameters, pts: seq<Plaintext>, first: nat, c: nat, k: nat)
    requires first + k <= |pts|
    ensures Word(P, pts, first, c, k) == ShiftedSum(P, pts, first, c, k) % TWO_TO_64
  {
    if k > 0 {
      WordIsLowBits(P, pts, first, c, k - 1);
      ModAdd(ShiftedSum(P, pts, first, c, k - 1),
             Coefficient(pts[first + k - 1], c) * Pow2((k - 1) * P.bits), TWO_TO_64);
    }
  }

  ghost predicate RowHolds(P: Parameters, pts: seq<Plaintext>, first: nat, row: seq<nat>, k: nat) {
    && first + k <= |pts| && |row| == P.n
    && forall c | 0 <= c < P.n :: row[c] == Word(P, pts, first, c, k)
  }

  ghost predicate PolyHolds(P: Parameters, pts: seq<Plaintext>, k: nat, poly: seq<seq<nat>>, upTo: nat)
    requires P.bits > 0 && upTo <= |poly| == |P.moduli|
  {
    forall i | 0 <= i < upTo :: RowHolds(P, pts, Slot(Counts(P), k, i, 0), poly[i], Counts(P)[i])
  }

  /** What composing any list of plaintexts gives. */
  ghost predicate IsComposition(P: Parameters, pts: seq<Plaintext>, ct: Ciphertext)
    requires P.bits > 0 && Ratio(P) > 0
  {
    && |ct| == |pts| / Ratio(P)
    && forall k | 0 <= k < |ct| :: |ct[k]| == |P.moduli| && PolyHolds(P, pts, k, ct[k], |P.moduli|)
  }

  /** One plaintext shifted into one row of residues. */
  method ShiftIn(P: Parameters, pts: seq<Plaintext>, row: seq<nat>, ghost first: nat, cursor: nat, d: nat, shift: nat)
    returns (updated: seq<nat>)
    requires Usable(P) && Storable(P, pts) && cursor < |pts| && cursor == first + d && shift == d * P.bits
    requires RowHolds(P, pts, first, row, d)
    ensures RowHolds(P, pts, first, updated, d + 1)
  {
    updated := row;
    for c := 0 to |pts[cursor]|
      invariant |updated| == P.n
      invariant forall b | 0 <= b < c :: updated[b] == AddShifted(row[b], pts[cursor][b], shift)
      invariant forall b | c <= b < P.n :: updated[b] == row[b]
    {
      if shift == 0 {
        NoShiftYet(P, d);
        AddUnshifted(pts[cursor][c]);
        updated := updated[c := pts[cursor][c]];
      } else {
        updated := updated[c := AddShifted(updated[c], pts[cursor][c], shift)];
      }
    }
    forall b | 0 <= b < P.n ensures updated[b] == Word(P, pts, first, b, d + 1) {
      AddNothing(row[b], shift);
    }
  }

  lemma NoShiftYet(P: Parameters, d: nat)
    requires P.bits > 0 && d * P.bits == 0
    ensures d == 0
  {
    if d > 0 { NonzeroMultiple(d, P.bits); }
  }

  method ComposeRow(P: Parameters, pts: seq<Plaintext>, start: nat, k: nat, i: nat)
    returns (row: seq<nat>, cursor: nat)
    requires Usable(P) && Storable(P, pts) && i < |P.moduli|
    requires start == Slot(Counts(P), k, i, 0) && start + Counts(P)[i] <= |pts|
    ensures RowHolds(P, pts, start, row, Counts(P)[i])
    ensures cursor == Slot(Counts(P), k, i + 1, 0)
  {
    row := seq(P.n, _ => 0);
    cursor := start;
    var shift := 0;
    for d := 0 to Counts(P)[i]
      invariant cursor == start + d && shift == d * P.bits
      invariant RowHolds(P, pts, start, row, d)
    {
      row := ShiftIn(P, pts, row, start, cursor, d, shift);
      cursor := cursor + 1;
      shift := shift + P.bits;
    }
  }

  method ComposePoly(P: Parameters, pts: seq<Plaintext>, start: nat, k: nat)
    returns (poly: seq<seq<nat>>, cursor: nat)
    requires Usable(P) && Storable(P, pts)
    requires start == Slot(Counts(P), k, 0, 0) && start + Ratio(P) <= |pts|
    ensures |poly| == |P.moduli| && PolyHolds(P, pts, k, poly, |P.moduli|)
    ensures cursor == start + Ratio(P)
  {
    poly := seq(|P.moduli|, _ => []);
    cursor := start;
    for i := 0 to |P.moduli|
      invariant |poly| == |P.moduli| && PolyHolds(P, pts, k, poly, i)
      invariant cursor == start + Offset(Counts(P), i)
    {
      OffsetIncreases(Counts(P), i, |P.moduli|);
      BlockStart(Counts(P), k, i);
      var row, next := ComposeRow(P, pts, cursor, k, i);
      OneMoreRow(P, pts, k, poly, i, row);
      poly, cursor := poly[i := row], next;
    }
  }

  lemma BlockStart(sizes: seq<nat>, k: nat, i: nat)
    requires i < |sizes|
    ensures Slot(sizes, k, i, 0) == Slot(sizes, k, 0, 0) + Offset(sizes, i)
    ensures Slot(sizes, k, i + 1, 0) == Slot(sizes, k, 0, 0) + Offset(sizes, i + 1)
  {
  }

  lemma OneMoreRow(P: Parameters, pts: seq<Plaintext>, k: nat, poly: seq<seq<nat>>, i: nat, row: seq<nat>)
    requires P.bits > 0 && i < |poly| == |P.moduli| && PolyHolds(P, pts, k, poly, i)
    requires RowHolds(P, pts, Slot(Counts(P), k, i, 0), row, Counts(P)[i])
    ensures PolyHolds(P, pts, k, poly[i := row], i + 1)
  {
  }

  method ComposeToCiphertext(P: Parameters, pts: seq<Plaintext>) returns (ct: Ciphertext)
    requires Usable(P) && Storable(P, pts)
    ensures Ratio(P) > 0 && IsComposition(P, pts, ct)
  {
    RatioIsPositive(P);
    var polyCount := |pts| / Ratio(P);
    ct := seq(polyCount, _ => []);
    var cursor := 0;
    SlotAfterAll(Counts(P), 0);
    for k := 0 to polyCount
      invariant |ct| == polyCount && cursor == Slot(Counts(P), k, 0, 0)
      invariant forall l | 0 <= l < k :: |ct[l]| == |P.moduli| && PolyHolds(P, pts, l, ct[l], |P.moduli|)
    {
      RepetitionFits(Counts(P), |pts|, k);
      var poly, next := ComposePoly(P, pts, cursor, k);
      ct, cursor := ct[k := poly], next;
    }
  }

  lemma RatioIsPositive(P: Parameters)
    requires Usable(P)
    ensures Ratio(P) > 0
    ensures forall i | 0 <= i < |P.moduli| :: Counts(P)[i] > 0
  {
    forall i | 0 <= i < |P.moduli| ensures Counts(P)[i] > 0 { DigitCountsAt(P.moduli, P.bits, i); }
    OffsetIncreases(Counts(P), 0, |P.moduli|);
  }

  lemma RepetitionFits(sizes: seq<nat>, length: nat, k: nat)
    requires Total(sizes) > 0 && k < length / Total(sizes)
    ensures Slot(sizes, k, 0, 0) + Total(sizes) <= length
    ensures Slot(sizes, k, 0, 0) + Total(sizes) == Slot(sizes, k + 1, 0, 0)
  {
    var q := length / Total(sizes);
    assert length == q * Total(sizes) + length % Total(sizes);
    RoomForOneMore(Total(sizes), k, q);
    assert (k + 1) * Total(sizes) == k * Total(sizes) + Total(sizes);
  }

  // ----- the round trip

  /** q is p, perhaps with zero coefficients at the top left off, as decryption returns it. */
  predicate IsTrimmed(p: Plaintext, q: Plaintext) {
    |q| <= |p| && forall c | 0 <= c < |p| :: p[c] == Coefficient(q, c)
  }

  /** Shifting in the digits of a residue wraps nowhere and rebuilds it. */
  lemma {:induction false} WordRebuilds(P: Parameters, pts: seq<Plaintext>, first: nat, c: nat, x: nat, k: nat)
    requires first + k <= |pts| && x < TWO_TO_64
    requires forall d | 0 <= d < k :: Coefficient(pts[first + d], c) == Digit(x, P.bits, d)
    ensures DigitSum(x, P.bits, k) <= x
    ensures Word(P, pts, first, c, k) == DigitSum(x, P.bits, k)
  {
    DigitsGiveRemainder(x, P.bits, k);
    RemainderAtMost(x, Pow2(k * P.bits));
    if k > 0 {
      WordRebuilds(P, pts, first, c, x, k - 1);
      AddShiftedExact(DigitSum(x, P.bits, k - 1), Digit(x, P.bits, k - 1), (k - 1) * P.bits);
    }
  }

  lemma RemainderAtMost(x: nat, d: nat)
    requires d > 0
    ensures x % d <= x
  {
    if x < d { DivModUnique(x, d, 0, x); }
  }

  /**
   Composing what decomposition produced gives the ciphertext back, also when each plaintext
   lost leading zeros in between; so no shift or sum on the way exceeds 64 bits.
   */
  lemma RoundTrip(P: Parameters, ct: Ciphertext, planes: seq<Plaintext>, pts: seq<Plaintext>, back: Ciphertext)
    requires Usable(P) && WellFormed(P, ct) && FilledUpTo(P, ct, planes, |planes|)
    requires |pts| == |planes| && forall slot | 0 <= slot < |pts| :: IsTrimmed(planes[slot], pts[slot])
    requires Ratio(P) > 0 && IsComposition(P, pts, back)
    ensures back == ct
  {
    assert |pts| == |ct| * Ratio(P);
    ModMultiple(|ct|, Ratio(P));
    forall k | 0 <= k < |ct| ensures back[k] == ct[k] {
      forall i | 0 <= i < |P.moduli| ensures back[k][i] == ct[k][i] {
        RowRoundTrip(P, ct, planes, pts, k, i, back[k][i]);
      }
    }
  }

  lemma CoefficientIsDigit(
    P: Parameters, ct: Ciphertext, planes: seq<Plaintext>, pts: seq<Plaintext>, k: nat, i: nat, c: nat, d: nat)
    requires Usable(P) && WellFormed(P, ct) && FilledUpTo(P, ct, planes, |planes|)
    requires |pts| == |planes| && forall slot | 0 <= slot < |pts| :: IsTrimmed(planes[slot], pts[slot])
    requires k < |ct| && i < |P.moduli| && c < P.n && d < Counts(P)[i]
    ensures WellFormedPoly(P, ct[k])
    ensures var slot := Slot(Counts(P), k, i, 0) + d;
            slot < |pts| && Coefficient(pts[slot], c) == Digit(ct[k][i][c], P.bits, d)
  {
    var slot := Slot(Counts(P), k, i, 0) + d;
    SlotIsUnique(Counts(P), |ct|, k, i, d);
    assert slot == Slot(Counts(P), k, i, d);
    assert IsTrimmed(planes[slot], pts[slot]);
    assert planes[slot] == Plane(P, ct, slot);
  }

  lemma ResidueRoundTrip(
    P: Parameters, ct: Ciphertext, planes: seq<Plaintext>, pts: seq<Plaintext>, k: nat, i: nat, c: nat)
    requires Usable(P) && WellFormed(P, ct) && FilledUpTo(P, ct, planes, |planes|)
    requires |pts| == |planes| && forall slot | 0 <= slot < |pts| :: IsTrimmed(planes[slot], pts[slot])
    requires k < |ct| && i < |P.moduli| && c < P.n
    requires Slot(Counts(P), k, i, 0) + Counts(P)[i] <= |pts|
    ensures WellFormedPoly(P, ct[k])
    ensures Word(P, pts, Slot(Counts(P), k, i, 0), c, Counts(P)[i]) == ct[k][i][c]
  {
    var first, L := Slot(Counts(P), k, i, 0), Counts(P)[i];
    assert WellFormedPoly(P, ct[k]);
    DigitCountsAt(P.moduli, P.bits, i);
    forall d | 0 <= d < L ensures Coefficient(pts[first + d], c) == Digit(ct[k][i][c], P.bits, d) {
      CoefficientIsDigit(P, ct, planes, pts, k, i, c, d);
    }
    WordRebuilds(P, pts, first, c, ct[k][i][c], L);
    DigitsGiveResidue(ct[k][i][c], P.moduli[i], P.bits);
  }

  lemma RowRoundTrip(
    P: Parameters, ct: Ciphertext, planes: seq<Plaintext>, pts: seq<Plaintext>, k: nat, i: nat, row: seq<nat>)
    requires Usable(P) && WellFormed(P, ct) && FilledUpTo(P, ct, planes, |planes|)
    requires |pts| == |planes| && forall slot | 0 <= slot < |pts| :: IsTrimmed(planes[slot], pts[slot])
    requires k < |ct| && i < |P.moduli|
    requires RowHolds(P, pts, Slot(Counts(P), k, i, 0), row, Counts(P)[i])
    ensures row == ct[k][i]
  {
    assert WellFormedPoly(P, ct[k]);
    forall c | 0 <= c < P.n ensures row[c] == ct[k][i][c] {
      ResidueRoundTrip(P, ct, planes, pts, k, i, c);
    }
  }
}
