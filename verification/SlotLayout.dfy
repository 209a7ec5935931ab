/**
 A flat list cut into consecutive blocks of given sizes, the whole pattern repeated: which
 repetition, block and place in the block a position of the list belongs to.
 */
module SlotLayout {
  import opened Arith

  /** The sizes of the first k blocks together. */
  function Offset(sizes: seq<nat>, k: nat): nat
    requires k <= |sizes|
  {
    if k == 0 then 0 else Offset(sizes, k - 1) + sizes[k - 1]
  }

  function Total(sizes: seq<nat>): nat {
    Offset(sizes, |sizes|)
  }

  lemma {:induction false} OffsetIncreases(sizes: seq<nat>, i: nat, k: nat)
    requires i < k <= |sizes|
    ensures Offset(sizes, i) + sizes[i] <= Offset(sizes, k)
    decreases k
  {
    if i < k - 1 { OffsetIncreases(sizes, i, k - 1); }
  }

  /** The block, among the first k, that holds position pos of the pattern. */
  function BlockOf(sizes: seq<nat>, pos: nat, k: nat): (i: nat)
    requires k <= |sizes| && pos < Offset(sizes, k)
    ensures i < k && Offset(sizes, i) <= pos < Offset(sizes, i) + sizes[i]
  {
    if Offset(sizes, k - 1) <= pos then k - 1 else BlockOf(sizes, pos, k - 1)
  }

  function Slot(sizes: seq<nat>, rep: nat, i: nat, d: nat): nat
    requires i <= |sizes|
  {
    rep * Total(sizes) + Offset(sizes, i) + d
  }

  lemma BlockOfPlace(sizes: seq<nat>, i: nat, d: nat)
    requires i < |sizes| && d < sizes[i]
    ensures Offset(sizes, i) + d < Total(sizes)
    ensures BlockOf(sizes, Offset(sizes, i) + d, |sizes|) == i
  {
    OffsetIncreases(sizes, i, |sizes|);
    var j := BlockOf(sizes, Offset(sizes, i) + d, |sizes|);
    if i < j { OffsetIncreases(sizes, i, j); }
    if j < i { OffsetIncreases(sizes, j, i); }
  }

  /** A slot determines its repetition, block and place: no slot is visited twice. */
  lemma SlotIsUnique(sizes: seq<nat>, reps: nat, rep: nat, i: nat, d: nat)
    requires rep < reps && i < |sizes| && d < sizes[i]
    ensures Slot(sizes, rep, i, d) < Total(sizes) * reps
    ensures Slot(sizes, rep, i, d) / Total(sizes) == rep
    ensures Slot(sizes, rep, i, d) % Total(sizes) == Offset(sizes, i) + d
    ensures BlockOf(sizes, Offset(sizes, i) + d, |sizes|) == i
  {
    BlockOfPlace(sizes, i, d);
    DivModUnique(Slot(sizes, rep, i, d), Total(sizes), rep, Offset(sizes, i) + d);
    RoomForOneMore(Total(sizes), rep, reps);
  }

  lemma SlotAfterAll(sizes: seq<nat>, reps: nat)
    ensures Slot(sizes, reps, 0, 0) == Total(sizes) * reps
    ensures Slot(sizes, 0, 0, 0) == 0
  {
  }

  lemma RoomForOneMore(size: nat, rep: nat, reps: nat)
    requires rep < reps
    ensures rep * size + size <= size * reps
  {
    var k := reps - rep - 1;
    assert size * (rep + 1 + k) == size * rep + size + size * k;
  }

  /** Every position of the list is a slot: no slot is missed. */
  lemma SlotExists(sizes: seq<nat>, reps: nat, slot: nat)
    requires slot < Total(sizes) * reps
    ensures Total(sizes) > 0 && slot / Total(sizes) < reps
    ensures var pos := slot % Total(sizes);
            var i := BlockOf(sizes, pos, |sizes|);
            slot == Slot(sizes, slot / Total(sizes), i, pos - Offset(sizes, i))
  {
    QuotientBelow(slot, Total(sizes), reps);
    assert slot == (slot / Total(sizes)) * Total(sizes) + slot % Total(sizes);
  }

  datatype Place = Place(rep: nat, block: nat, offset: nat)

  function PlaceOf(sizes: seq<nat>, reps: nat, slot: nat): (p: Place)
    requires slot < Total(sizes) * reps
    ensures p.rep < reps && p.block < |sizes| && p.offset < sizes[p.block]
  {
    SlotExists(sizes, reps, slot);
    var pos := slot % Total(sizes);
    var i := BlockOf(sizes, pos, |sizes|);
    Place(slot / Total(sizes), i, pos - Offset(sizes, i))
  }

  lemma QuotientBelow(a: nat, d: nat, k: nat)
    requires a < d * k
    ensures d > 0 && a / d < k
  {
    assert d > 0;
    assert a == (a / d) * d + a % d;
    var excess := a / d - k;
    assert excess * d == (a / d) * d - d * k;
    assert excess >= 0 ==> excess * d >= 0;
  }

  /** The slot after the last place of a block is the first of the next, across repetitions too. */
  lemma SlotCarries(sizes: seq<nat>, rep: nat, i: nat)
    ensures i < |sizes| ==> Slot(sizes, rep, i, sizes[i]) == Slot(sizes, rep, i + 1, 0)
    ensures Slot(sizes, rep, |sizes|, 0) == Slot(sizes, rep + 1, 0, 0)
  {
  }
}
