/**
 Composing into the flat buffer of a ciphertext of another level, which is laid out for other moduli: what
 the loop writes, when it stays inside, and when the ciphertext can be read back.
 */
module LevelBuffer {
  import opened Arith
  import opened Embedding
  import opened SlotLayout

  /** Where a buffer laid out for `level` moduli keeps coefficient c of row i of polynomial k. */
  function Index(n: nat, level: nat, k: nat, i: nat, c: nat): nat {
    (k * level + i) * n + c
  }

  /** As many rows as moduli in every polynomial, of n words. */
  predicate IsShaped(P: Parameters, ct: Ciphertext) {
    forall k | 0 <= k < |ct| :: IsShapedPoly(P, ct[k])
  }

  predicate IsShapedPoly(P: Parameters, poly: seq<seq<nat>>) {
    |poly| == |P.moduli| && forall i | 0 <= i < |poly| :: |poly[i]| == P.n
  }

  lemma WellFormedIsShaped(P: Parameters, ct: Ciphertext)
    requires WellFormed(P, ct)
    ensures IsShaped(P, ct)
  {
    forall k | 0 <= k < |ct| ensures IsShapedPoly(P, ct[k]) { assert WellFormedPoly(P, ct[k]); }
  }

  /** A buffer of as many polynomials, sized and laid out for `level` moduli, keeps every word. */
  ghost predicate Keeps(P: Parameters, level: nat, buffer: seq<nat>, ct: Ciphertext)
    requires IsShaped(P, ct)
  {
    && |buffer| == |ct| * level * P.n
    && forall k, i, c | 0 <= k < |ct| && 0 <= i < |P.moduli| && 0 <= c < P.n ::
         ResidueIsKept(P, level, buffer, ct, k, i, c)
  }

  ghost predicate ResidueIsKept(
    P: Parameters, level: nat, buffer: seq<nat>, ct: Ciphertext, k: nat, i: nat, c: nat)
    requires k < |ct| && i < |ct[k]| && c < |ct[k][i]|
  {
    Index(P.n, level, k, i, c) < |buffer| && buffer[Index(P.n, level, k, i, c)] == ct[k][i][c]
  }

  /** The residue that belongs at a place; what lies between the rows is left zero. */
  function ResidueAt(P: Parameters, level: nat, ct: Ciphertext, place: nat): nat
    requires IsShaped(P, ct) && place < |ct| * level * P.n
  {
    QuotientBelow(place, P.n, |ct| * level);
    QuotientBelow(place / P.n, level, |ct|);
    var row := place / P.n;
    assert IsShapedPoly(P, ct[row / level]);
    if row % level < |P.moduli| then ct[row / level][row % level][place % P.n] else 0
  }

  lemma IndexIsUnique(P: Parameters, level: nat, ct: Ciphertext, k: nat, i: nat, c: nat)
    requires IsShaped(P, ct) && k < |ct| && i < |P.moduli| <= level && c < P.n
    ensures IsShapedPoly(P, ct[k])
    ensures var place := Index(P.n, level, k, i, c);
            place < |ct| * level * P.n && ResidueAt(P, level, ct, place) == ct[k][i][c]
  {
    var row := k * level + i;
    assert IsShapedPoly(P, ct[k]);
    RoomForOneMore(level, k, |ct|);
    RoomForOneMore(P.n, row, |ct| * level);
    DivModUnique(row * P.n + c, P.n, row, c);
    DivModUnique(row, level, k, i);
  }

  /** Composing for the first level into a ciphertext of another keeps the result exactly when that has the moduli. */
  lemma LevelCondition(P: Parameters, level: nat, ct: Ciphertext)
    requires Usable(P) && IsShaped(P, ct)
    ensures (exists buffer :: Keeps(P, level, buffer, ct)) <==> ct == [] || |P.moduli| <= level
  {
    if ct == [] || |P.moduli| <= level {
      var buffer := seq(|ct| * level * P.n, s requires 0 <= s < |ct| * level * P.n => ResidueAt(P, level, ct, s));
      forall k, i, c | 0 <= k < |ct| && 0 <= i < |P.moduli| && 0 <= c < P.n
        ensures IsShapedPoly(P, ct[k]) && ResidueIsKept(P, level, buffer, ct, k, i, c)
      {
        IndexIsUnique(P, level, ct, k, i, c);
      }
      assert Keeps(P, level, buffer, ct);
    } else {
      forall buffer | Keeps(P, level, buffer, ct) ensures false {
        var k, i := |ct| - 1, |P.moduli| - 1;
        assert IsShapedPoly(P, ct[k]);
        assert ResidueIsKept(P, level, buffer, ct, k, i, 0);
        LastRowOverruns(P.n, level, |ct|, i);
      }
    }
  }

  lemma LastRowOverruns(n: nat, level: nat, size: nat, i: nat)
    requires size > 0 && level <= i
    ensures Index(n, level, size - 1, i, 0) >= size * level * n
  {
    var extra := i - level;
    assert (size - 1) * level + i == size * level + extra;
    assert (size * level + extra) * n == size * level * n + extra * n;
  }

  /** Two ciphertexts kept in one buffer are one. */
  lemma KeptIsUnique(P: Parameters, level: nat, buffer: seq<nat>, ct: Ciphertext, other: Ciphertext)
    requires IsShaped(P, ct) && IsShaped(P, other) && |ct| == |other|
    requires Keeps(P, level, buffer, ct) && Keeps(P, level, buffer, other)
    ensures ct == other
  {
    forall k | 0 <= k < |ct| ensures ct[k] == other[k] {
      assert IsShapedPoly(P, ct[k]) && IsShapedPoly(P, other[k]);
      forall i | 0 <= i < |P.moduli| ensures ct[k][i] == other[k][i] {
        forall c | 0 <= c < P.n ensures ct[k][i][c] == other[k][i][c] {
          assert ResidueIsKept(P, level, buffer, ct, k, i, c);
          assert ResidueIsKept(P, level, buffer, other, k, i, c);
        }
      }
    }
  }

  /**
   Decomposing at the first level, composing into a ciphertext of the last and reading that back:
   the ciphertext returns, and the buffer exists at all, exactly when both levels have the same
   moduli. (The last level never has more: each level drops some.)
   */
  lemma LevelRoundTrip(
    P: Parameters, level: nat, ct: Ciphertext, planes: seq<Plaintext>, pts: seq<Plaintext>, composed: Ciphertext)
    requires Usable(P) && WellFormed(P, ct) && ct != [] && level <= |P.moduli|
    requires FilledUpTo(P, ct, planes, |planes|)
    requires |pts| == |planes| && forall slot | 0 <= slot < |pts| :: IsTrimmed(planes[slot], pts[slot])
    requires Ratio(P) > 0 && IsComposition(P, pts, composed)
    ensures IsShaped(P, composed)
    ensures (exists buffer :: Keeps(P, level, buffer, composed)) <==> level == |P.moduli|
    ensures forall buffer, read | Keeps(P, level, buffer, composed) && |read| == |ct| && IsShaped(P, read) ::
              Keeps(P, level, buffer, read) ==> read == ct
  {
    RoundTrip(P, ct, planes, pts, composed);
    WellFormedIsShaped(P, ct);
    LevelCondition(P, level, composed);
    forall buffer, read | Keeps(P, level, buffer, composed) && |read| == |ct| && IsShaped(P, read)
      ensures Keeps(P, level, buffer, read) ==> read == ct
    {
      if Keeps(P, level, buffer, read) { KeptIsUnique(P, level, buffer, composed, read); }
    }
  }

  // ----- the loop's own writes

  /** All of a plaintext's words, from position base on, have a place. */
  predicate HasRoom(pt: Plaintext, base: nat, length: nat) {
    pt == [] || base + |pt| <= length
  }

  /** And so for all that are shifted into a row. */
  ghost predicate RowInside(pts: seq<Plaintext>, first: nat, count: nat, base: nat, length: nat)
    requires first + count <= |pts|
  {
    forall s | first <= s < first + count :: HasRoom(pts[s], base, length)
  }

  /** From position base on lie the n words that the first d plaintexts make. */
  ghost predicate WordsAt(P: Parameters, pts: seq<Plaintext>, first: nat, d: nat, buffer: seq<nat>, base: nat) {
    && first + d <= |pts| && base + P.n <= |buffer|
    && forall c | 0 <= c < P.n :: buffer[base + c] == Word(P, pts, first, c, d)
  }

  /** One plaintext shifted in; false at the first word that has no place. */
  method ShiftInto(
    P: Parameters, pts: seq<Plaintext>, buffer: array<nat>, first: nat, d: nat, base: nat, shift: nat)
    returns (ok: bool)
    requires Usable(P) && Storable(P, pts) && first + d < |pts| && shift == d * P.bits
    modifies buffer
    ensures ok <==> HasRoom(pts[first + d], base, buffer.Length)
    ensures forall p | 0 <= p < buffer.Length && !(base <= p < base + P.n) :: buffer[p] == old(buffer[p])
    ensures ok && old(WordsAt(P, pts, first, d, buffer[..], base)) ==>
      WordsAt(P, pts, first, d + 1, buffer[..], base)
  {
    var pt := pts[first + d];
    for c := 0 to |pt|
      invariant c > 0 ==> base + c - 1 < buffer.Length
      invariant forall p | 0 <= p < buffer.Length && !(base <= p < base + c) :: buffer[p] == old(buffer[p])
      invariant forall b | 0 <= b < c ::
        buffer[base + b] == if shift == 0 then pt[b] else AddShifted(old(buffer[..])[base + b], pt[b], shift)
    {
      if base + c >= buffer.Length {
        return false;
      }
      buffer[base + c] := if shift == 0 then pt[c] else AddShifted(buffer[base + c], pt[c], shift);
    }
    ok := true;
    ghost var before, after := old(buffer[..]), buffer[..];
    if WordsAt(P, pts, first, d, before, base) {
      ghost var next := d + 1;
      forall c | 0 <= c < P.n ensures after[base + c] == Word(P, pts, first, c, next) {
        WordStep(P, pts, first, d, c, shift);
      }
    }
  }

  /** What the assignment without a shift and the missing words of a short plaintext come to. */
  lemma WordStep(P: Parameters, pts: seq<Plaintext>, first: nat, d: nat, c: nat, shift: nat)
    requires Usable(P) && Storable(P, pts) && first + d < |pts| && shift == d * P.bits
    ensures var w := Word(P, pts, first, c, d);
      Word(P, pts, first, c, d + 1) ==
        if c >= |pts[first + d]| then w
        else if shift == 0 then pts[first + d][c] else AddShifted(w, pts[first + d][c], shift)
  {
    if c >= |pts[first + d]| {
      AddNothing(Word(P, pts, first, c, d), shift);
    } else if shift == 0 {
      NoShiftYet(P, d);
      AddUnshifted(pts[first + d][c]);
    }
  }

  method ComposeRowInto(
    P: Parameters, pts: seq<Plaintext>, buffer: array<nat>, first: nat, count: nat, base: nat)
    returns (ok: bool)
    requires Usable(P) && Storable(P, pts) && first + count <= |pts|
    modifies buffer
    ensures ok <==> RowInside(pts, first, count, base, buffer.Length)
    ensures forall p | 0 <= p < buffer.Length && !(base <= p < base + P.n) :: buffer[p] == old(buffer[p])
    ensures ok && old(WordsAt(P, pts, first, 0, buffer[..], base)) ==>
      WordsAt(P, pts, first, count, buffer[..], base)
  {
    var shift := 0;
    for d := 0 to count
      invariant shift == d * P.bits && RowInside(pts, first, d, base, buffer.Length)
      invariant forall p | 0 <= p < buffer.Length && !(base <= p < base + P.n) :: buffer[p] == old(buffer[p])
      invariant old(WordsAt(P, pts, first, 0, buffer[..], base)) ==> WordsAt(P, pts, first, d, buffer[..], base)
    {
      ok := ShiftInto(P, pts, buffer, first, d, base, shift);
      if !ok {
        assert !HasRoom(pts[first + d], base, buffer.Length);
        return false;
      }
      shift := shift + P.bits;
    }
    ok := true;
  }

  /** The row of the buffer that row i of polynomial k is written to, and the next one. */
  lemma NextRow(n: nat, level: nat, k: nat, i: nat)
    ensures Index(n, level, k, i + 1, 0) == Index(n, level, k, i, 0) + n
    ensures Index(n, level, k + 1, 0, 0) == Index(n, level, k, level, 0)
  {
    assert (k * level + i + 1) * n == (k * level + i) * n + n;
    assert (k + 1) * level == k * level + level;
  }

  ghost predicate RowIsWritten(
    P: Parameters, level: nat, pts: seq<Plaintext>, buffer: seq<nat>, k: nat, i: nat)
    requires P.bits > 0 && i < |P.moduli|
  {
    WordsAt(P, pts, Slot(Counts(P), k, i, 0), Counts(P)[i], buffer, Index(P.n, level, k, i, 0))
  }

  /** Everything from here on is still zero. */
  ghost predicate ZeroFrom(buffer: seq<nat>, from: nat) {
    forall p | from <= p < |buffer| :: buffer[p] == 0
  }

  /** All rows before row i of polynomial k are written, and end before it begins; the rest is zero. */
  ghost predicate WrittenUpTo(P: Parameters, level: nat, pts: seq<Plaintext>, buffer: seq<nat>, k: nat, i: nat)
    requires P.bits > 0 && i <= |P.moduli|
  {
    && (forall l, a | 0 <= l < k && 0 <= a < |P.moduli| :: RowIsWritten(P, level, pts, buffer, l, a))
    && (forall a | 0 <= a < i :: RowIsWritten(P, level, pts, buffer, k, a))
    && ZeroFrom(buffer, Index(P.n, level, k, i, 0))
  }

  /** Rows are apart: of a polynomial, and of different polynomials as long as it has room for its rows. */
  lemma RowsApart(n: nat, level: nat, l: nat, a: nat, k: nat, i: nat)
    requires (l == k && a < i) || (l < k && a < level)
    ensures Index(n, level, l, a, 0) + n <= Index(n, level, k, i, 0)
  {
    if l < k { MultiplesApart(l, k, level); }
    MultiplesApart(l * level + a, k * level + i, n);
  }

  /** Writing the next row keeps those before it. */
  lemma RowAdded(
    P: Parameters, level: nat, pts: seq<Plaintext>, before: seq<nat>, after: seq<nat>, k: nat, i: nat)
    requires P.bits > 0 && i < |P.moduli| <= level && |before| == |after|
    requires WrittenUpTo(P, level, pts, before, k, i) && RowIsWritten(P, level, pts, after, k, i)
    requires var base := Index(P.n, level, k, i, 0);
      forall p | 0 <= p < |after| && !(base <= p < base + P.n) :: after[p] == before[p]
    ensures WrittenUpTo(P, level, pts, after, k, i + 1)
  {
    NextRow(P.n, level, k, i);
    forall l, a | 0 <= l < k && 0 <= a < |P.moduli| ensures RowIsWritten(P, level, pts, after, l, a) {
      assert RowIsWritten(P, level, pts, before, l, a);
      RowsApart(P.n, level, l, a, k, i);
    }
    forall a | 0 <= a < i ensures RowIsWritten(P, level, pts, after, k, a) {
      assert RowIsWritten(P, level, pts, before, k, a);
      RowsApart(P.n, level, k, a, k, i);
    }
  }

  lemma RowStarts(P: Parameters, level: nat, pts: seq<Plaintext>, buffer: seq<nat>, size: nat, k: nat, i: nat)
    requires P.bits > 0 && i < |P.moduli| <= level && k < size && |buffer| == size * level * P.n
    requires WrittenUpTo(P, level, pts, buffer, k, i) && Slot(Counts(P), k, i, 0) <= |pts|
    ensures WordsAt(P, pts, Slot(Counts(P), k, i, 0), 0, buffer, Index(P.n, level, k, i, 0))
  {
    RowsApart(P.n, level, k, i, size, 0);
    assert Index(P.n, level, size, 0, 0) == size * level * P.n;
  }

  ghost predicate AllInside(P: Parameters, level: nat, pts: seq<Plaintext>, length: nat, k: nat, i: nat)
    requires P.bits > 0 && i < |P.moduli|
  {
    var first, count := Slot(Counts(P), k, i, 0), Counts(P)[i];
    first + count <= |pts| && RowInside(pts, first, count, Index(P.n, level, k, i, 0), length)
  }

  method ComposePolyInto(
    P: Parameters, level: nat, pts: seq<Plaintext>, buffer: array<nat>, start: nat, ghost size: nat, k: nat)
    returns (ok: bool, cursor: nat)
    requires Usable(P) && Storable(P, pts) && k < size && buffer.Length == size * level * P.n
    requires start == Slot(Counts(P), k, 0, 0) && start + Ratio(P) <= |pts|
    modifies buffer
    ensures ok <==> forall i | 0 <= i < |P.moduli| :: AllInside(P, level, pts, buffer.Length, k, i)
    ensures ok ==> cursor == start + Ratio(P)
    ensures ok && |P.moduli| <= level && old(WrittenUpTo(P, level, pts, buffer[..], k, 0)) ==>
      WrittenUpTo(P, level, pts, buffer[..], k, |P.moduli|)
  {
    cursor := start;
    for i := 0 to |P.moduli|
      invariant cursor == Slot(Counts(P), k, i, 0) == start + Offset(Counts(P), i)
      invariant forall a | 0 <= a < i :: AllInside(P, level, pts, buffer.Length, k, a)
      invariant |P.moduli| <= level && old(WrittenUpTo(P, level, pts, buffer[..], k, 0)) ==>
        WrittenUpTo(P, level, pts, buffer[..], k, i)
    {
      OffsetIncreases(Counts(P), i, |P.moduli|);
      ghost var before := buffer[..];
      if |P.moduli| <= level && WrittenUpTo(P, level, pts, before, k, i) {
        RowStarts(P, level, pts, before, size, k, i);
      }
      ok := ComposeRowInto(P, pts, buffer, cursor, Counts(P)[i], Index(P.n, level, k, i, 0));
      if !ok {
        assert !AllInside(P, level, pts, buffer.Length, k, i);
        return false, cursor;
      }
      if |P.moduli| <= level && WrittenUpTo(P, level, pts, before, k, i) {
        RowAdded(P, level, pts, before, buffer[..], k, i);
      }
      cursor := cursor + Counts(P)[i];
    }
    ok := true;
  }

  /**
   The loop as it stands, into a buffer laid out for `level` moduli: it stays inside exactly when every
   word it writes has a place there; and when the level has the moduli, the buffer ends up keeping what
   composing gives.
   */
  method ComposeInto(P: Parameters, level: nat, pts: seq<Plaintext>, buffer: array<nat>) returns (ok: bool)
    requires Usable(P) && Storable(P, pts) && Ratio(P) > 0
    requires buffer.Length == (|pts| / Ratio(P)) * level * P.n && ZeroFrom(buffer[..], 0)
    modifies buffer
    ensures ok <==> forall k, i | 0 <= k < |pts| / Ratio(P) && 0 <= i < |P.moduli| ::
                      AllInside(P, level, pts, buffer.Length, k, i)
    ensures |P.moduli| <= level ==> ok
    ensures |P.moduli| <= level ==> forall composed | IsShaped(P, composed) && IsComposition(P, pts, composed) ::
              Keeps(P, level, buffer[..], composed)
  {
    var size := |pts| / Ratio(P);
    var cursor := 0;
    SlotAfterAll(Counts(P), 0);
    for k := 0 to size
      invariant cursor == Slot(Counts(P), k, 0, 0)
      invariant forall l, i | 0 <= l < k && 0 <= i < |P.moduli| :: AllInside(P, level, pts, buffer.Length, l, i)
      invariant |P.moduli| <= level ==> WrittenUpTo(P, level, pts, buffer[..], k, 0)
    {
      RepetitionFits(Counts(P), |pts|, k);
      if |P.moduli| <= level { PolyInside(P, level, pts, size, k); }
      ok, cursor := ComposePolyInto(P, level, pts, buffer, cursor, size, k);
      if !ok {
        return false;
      }
      if |P.moduli| <= level { NextPoly(P, level, pts, buffer[..], k); }
    }
    ok := true;
    if |P.moduli| <= level {
      forall composed | IsShaped(P, composed) && IsComposition(P, pts, composed)
        ensures Keeps(P, level, buffer[..], composed)
      {
        WrittenIsKept(P, level, pts, buffer[..], composed);
      }
    }
  }

  lemma PolyInside(P: Parameters, level: nat, pts: seq<Plaintext>, size: nat, k: nat)
    requires Usable(P) && Storable(P, pts) && |P.moduli| <= level && k < size
    requires Slot(Counts(P), k, 0, 0) + Ratio(P) <= |pts|
    ensures forall i | 0 <= i < |P.moduli| :: AllInside(P, level, pts, size * level * P.n, k, i)
  {
    forall i | 0 <= i < |P.moduli| ensures AllInside(P, level, pts, size * level * P.n, k, i) {
      OffsetIncreases(Counts(P), i, |P.moduli|);
      RowsApart(P.n, level, k, i, size, 0);
      assert Index(P.n, level, size, 0, 0) == size * level * P.n;
    }
  }

  lemma NextPoly(P: Parameters, level: nat, pts: seq<Plaintext>, buffer: seq<nat>, k: nat)
    requires P.bits > 0 && |P.moduli| <= level && WrittenUpTo(P, level, pts, buffer, k, |P.moduli|)
    ensures WrittenUpTo(P, level, pts, buffer, k + 1, 0)
  {
    NextRow(P.n, level, k, 0);
    if |P.moduli| < level { RowsApart(P.n, level, k, |P.moduli|, k, level); }
    forall l, a | 0 <= l < k + 1 && 0 <= a < |P.moduli| ensures RowIsWritten(P, level, pts, buffer, l, a) {
      if l == k { assert RowIsWritten(P, level, pts, buffer, k, a); }
    }
  }

  lemma WrittenIsKept(P: Parameters, level: nat, pts: seq<Plaintext>, buffer: seq<nat>, composed: Ciphertext)
    requires P.bits > 0 && Ratio(P) > 0 && IsShaped(P, composed) && IsComposition(P, pts, composed)
    requires |buffer| == (|pts| / Ratio(P)) * level * P.n
    requires WrittenUpTo(P, level, pts, buffer, |pts| / Ratio(P), 0)
    ensures Keeps(P, level, buffer, composed)
  {
    forall k, i, c | 0 <= k < |composed| && 0 <= i < |P.moduli| && 0 <= c < P.n
      ensures IsShapedPoly(P, composed[k]) && ResidueIsKept(P, level, buffer, composed, k, i, c)
    {
      assert RowIsWritten(P, level, pts, buffer, k, i);
      assert RowHolds(P, pts, Slot(Counts(P), k, i, 0), composed[k][i], Counts(P)[i]);
    }
  }
}
