/**
 Which rows and which queries each worker gets, and exactly when the split covers every cell of
 the rows-by-queries rectangle once.
 */
module Scheduler {
  import opened Arith

  datatype WorkerInfo = WorkerInfo(
    workerNumber: nat,
    groupNumber: nat,
    queryRangeStart: nat,
    queryRangeEnd: nat,
    dbRows: seq<nat>)

  /** The numbers the split works with; `surplus` is the last worker's extra row. */
  datatype Plan = Plan(groups: nat, inGroup: nat, queries: nat, rows: nat, surplus: nat)

  /**
   thread_unsafe_compute_number_of_groups: how often W workers make up a set with one worker per
   row, but one at least.
   */
  function Groups(W: nat, R: nat): (g: nat)
    requires R > 0
    ensures g >= 1
  {
    if W / R > 1 then W / R else 1
  }

  lemma QuotientBounds(a: nat, d: nat)
    requires d > 0
    ensures a / d <= a
    ensures d <= a ==> a / d >= 1
    ensures a < d ==> a / d == 0
  {
    if a < d { DivModUnique(a, d, 0, a); }
    ProductBounds(a / d, a % d, d);
  }

  lemma ProductBounds(q: nat, r: nat, d: nat)
    requires r < d
    ensures q <= q * d + r
    ensures q * d + r >= d ==> q >= 1
  {
    assert q * d >= q by { assert q * (d - 1) >= 0; }
  }

  lemma GroupsAtMost(W: nat, R: nat)
    requires W > 0 && R > 0
    ensures Groups(W, R) <= W && W / Groups(W, R) >= 1
  {
    QuotientBounds(W, R);
    QuotientBounds(W, Groups(W, R));
  }

  /** W workers, R rows and Q queries. */
  function MakePlan(W: nat, R: nat, Q: nat): (p: Plan)
    requires W > 0 && R > 0
    ensures p.groups >= 1 && p.inGroup >= 1 && p.rows >= 1
  {
    GroupsAtMost(W, R);
    var groups := Groups(W, R);
    var inGroup := W / groups;
    var rows := if R / inGroup == 0 then 1 else R / inGroup;
    Plan(groups, inGroup, Q / groups, rows, if rows * inGroup < R then 1 else 0)
  }

  function FirstRow(p: Plan, i: nat): nat
    requires p.inGroup > 0
  {
    (i % p.inGroup) * p.rows
  }

  function FirstQuery(p: Plan, i: nat): nat
    requires p.inGroup > 0
  {
    (i / p.inGroup) * p.queries
  }

  /** The last worker of a group takes the surplus row. */
  function RowCount(p: Plan, i: nat): nat
    requires p.inGroup > 0
  {
    p.rows + if (i + 1) % p.inGroup == 0 then p.surplus else 0
  }

  function RowRange(start: nat, count: nat): (s: seq<nat>)
    ensures |s| == count && forall j | 0 <= j < count :: s[j] == j + start
  {
    seq(count, j requires 0 <= j < count => j + start)
  }

  function Responsibility(p: Plan, i: nat): WorkerInfo
    requires p.inGroup > 0
  {
    WorkerInfo(i, i / p.inGroup, FirstQuery(p, i), FirstQuery(p, i) + p.queries,
               RowRange(FirstRow(p, i), RowCount(p, i)))
  }

  /** The quotient by d moves on exactly at the multiples of d. */
  lemma StepGroup(k: nat, d: nat)
    requires d > 0
    ensures k > 0 ==> k / d == (k - 1) / d + if k % d == 0 then 1 else 0
    ensures k == 0 ==> k / d == 0 && k % d == 0
  {
    if k > 0 {
      var q, r := (k - 1) / d, (k - 1) % d;
      assert k - 1 == q * d + r;
      if r + 1 == d {
        assert k == (q + 1) * d;
        DivModUnique(k, d, q + 1, 0);
      } else {
        DivModUnique(k, d, q, r + 1);
      }
    }
  }

  /** One worker's entry, from its number and its group's. */
  method MakeResponsibility(p: Plan, workerId: nat, groupId: nat) returns (info: WorkerInfo)
    requires p.inGroup > 0 && groupId == workerId / p.inGroup
    ensures info == Responsibility(p, workerId)
  {
    var rangeStart := groupId * p.queries;
    var partitionStart := (workerId % p.inGroup) * p.rows;
    var toGive := p.rows;
    if (workerId + 1) % p.inGroup == 0 {
      toGive := toGive + p.surplus;
    }
    var dbRows: seq<nat> := [];
    for j := 0 to toGive
      invariant |dbRows| == j && forall a | 0 <= a < j :: dbRows[a] == a + partitionStart
    {
      dbRows := dbRows + [j + partitionStart];
    }
    info := WorkerInfo(workerId, groupId, rangeStart, rangeStart + p.queries, dbRows);
  }

  /**
   map_workers_to_responsibilities over the workers' names in map order. The group number starts
   at the largest 64-bit word and wraps to 0 at the first worker.
   */
  method MapWorkersToResponsibilities(names: seq<string>, R: nat, Q: nat) returns (m: map<string, WorkerInfo>)
    requires 0 < |names| < TWO_TO_64 && R > 0
    requires forall i, j | 0 <= i < j < |names| :: names[i] != names[j]
    ensures forall name :: name in m <==> name in names
    ensures forall i | 0 <= i < |names| :: m[names[i]] == Responsibility(MakePlan(|names|, R, Q), i)
  {
    var p := MakePlan(|names|, R, Q);
    m := map[];
    var i := 0;
    var groupId := TWO_TO_64 - 1;
    for k := 0 to |names|
      invariant i == k
      invariant groupId == if k == 0 then TWO_TO_64 - 1 else (k - 1) / p.inGroup
      invariant forall name :: name in m <==> name in names[..k]
      invariant forall a | 0 <= a < k :: m[names[a]] == Responsibility(p, a)
    {
      StepGroup(k, p.inGroup);
      QuotientBounds(k, p.inGroup);
      if i % p.inGroup == 0 {
        groupId := (groupId + 1) % TWO_TO_64;
      }
      var workerId := i;
      i := i + 1;
      var info := MakeResponsibility(p, workerId, groupId);
      m := m[names[k] := info];
    }
  }

  // ----- exact cover

  /** Worker i multiplies this row with this query. */
  ghost predicate Assigned(p: Plan, i: nat, row: nat, query: nat)
    requires p.inGroup > 0
  {
    && row in Responsibility(p, i).dbRows
    && Responsibility(p, i).queryRangeStart <= query < Responsibility(p, i).queryRangeEnd
  }

  ghost predicate InRange(p: Plan, W: nat, R: nat, Q: nat)
    requires p.inGroup > 0
  {
    forall i: nat, row: nat, query: nat | i < W && Assigned(p, i, row, query) :: row < R && query < Q
  }

  ghost predicate Covered(p: Plan, W: nat, row: nat, query: nat)
    requires p.inGroup > 0
  {
    exists i: nat :: i < W && Assigned(p, i, row, query)
  }

  ghost predicate NoOverlap(p: Plan, W: nat)
    requires p.inGroup > 0
  {
    forall i: nat, j: nat, row: nat, query: nat |
      i < W && j < W && Assigned(p, i, row, query) && Assigned(p, j, row, query) :: i == j
  }

  /** Every cell goes to exactly one worker, and no worker is given anything else. */
  ghost predicate ExactCover(W: nat, R: nat, Q: nat)
    requires W > 0 && R > 0
  {
    var p := MakePlan(W, R, Q);
    && InRange(p, W, R, Q)
    && NoOverlap(p, W)
    && forall row: nat, query: nat | row < R && query < Q :: Covered(p, W, row, query)
  }

  /** Groups divide the workers and the queries; a group has no more workers than rows; at most one row is left over. */
  predicate MapsWell(W: nat, R: nat, Q: nat)
    requires W > 0 && R > 0
  {
    var p := MakePlan(W, R, Q);
    W % p.groups == 0 && Q % p.groups == 0 && p.inGroup <= R && R % p.inGroup <= 1
  }

  /** Worker k of group g. */
  function Member(p: Plan, g: nat, k: nat): nat {
    g * p.inGroup + k
  }

  lemma MemberIs(p: Plan, g: nat, k: nat)
    requires k < p.inGroup
    ensures Member(p, g, k) / p.inGroup == g && Member(p, g, k) % p.inGroup == k
    ensures (Member(p, g, k) + 1) % p.inGroup == 0 <==> k == p.inGroup - 1
    ensures FirstRow(p, Member(p, g, k)) == k * p.rows && FirstQuery(p, Member(p, g, k)) == g * p.queries
  {
    DivModUnique(Member(p, g, k), p.inGroup, g, k);
    if k == p.inGroup - 1 {
      ModMultiple(g + 1, p.inGroup);
      assert Member(p, g, k) + 1 == (g + 1) * p.inGroup;
    } else {
      DivModUnique(Member(p, g, k) + 1, p.inGroup, g, k + 1);
    }
  }

  lemma WorkerIsMember(p: Plan, i: nat)
    requires p.inGroup > 0
    ensures i == Member(p, i / p.inGroup, i % p.inGroup)
  {
  }

  /** The cells of worker k of group g, spelled out. */
  lemma MemberCells(p: Plan, g: nat, k: nat, row: nat, query: nat)
    requires k < p.inGroup
    ensures Assigned(p, Member(p, g, k), row, query) <==>
      && k * p.rows <= row < k * p.rows + p.rows + (if k == p.inGroup - 1 then p.surplus else 0)
      && g * p.queries <= query < g * p.queries + p.queries
  {
    var i := Member(p, g, k);
    MemberIs(p, g, k);
    var rows := Responsibility(p, i).dbRows;
    if FirstRow(p, i) <= row < FirstRow(p, i) + RowCount(p, i) {
      assert rows[row - FirstRow(p, i)] == row;
    }
  }

  // ----- the split's arithmetic

  lemma RowArithmetic(W: nat, R: nat, Q: nat)
    requires W > 0 && R > 0
    ensures var p := MakePlan(W, R, Q);
      && (p.inGroup <= R ==> R == p.rows * p.inGroup + R % p.inGroup && (p.surplus == 1 <==> R % p.inGroup > 0))
      && (p.inGroup > R ==> p.rows == 1)
      && p.surplus <= 1
  {
    var p := MakePlan(W, R, Q);
    QuotientBounds(R, p.inGroup);
  }

  lemma WorkerArithmetic(W: nat, R: nat, Q: nat)
    requires W > 0 && R > 0
    ensures var p := MakePlan(W, R, Q);
      && W == p.groups * p.inGroup + W % p.groups && p.inGroup <= W
      && Q == p.groups * p.queries + Q % p.groups
  {
    var groups := Groups(W, R);
    QuotientBounds(W, groups);
    Division(W, groups);
    Division(Q, groups);
  }

  lemma Division(a: nat, d: nat)
    requires d > 0
    ensures a == d * (a / d) + a % d
  {
  }

  /** Workers left over after forming full groups are too few to form another. */
  lemma LeftoverWorkers(W: nat, R: nat, Q: nat)
    requires W > 0 && R > 0
    requires MakePlan(W, R, Q).inGroup <= R && W % MakePlan(W, R, Q).groups > 0
    ensures W % MakePlan(W, R, Q).groups < MakePlan(W, R, Q).inGroup
  {
    var G := Groups(W, R);
    assert G == W / R by { if G == 1 { DivModUnique(W, 1, W, 0); } }
    FullGroups(W, G, R, W % R);
  }

  lemma FullGroups(W: nat, groups: nat, R: nat, over: nat)
    requires groups > 0 && W == groups * R + over && over < R && W / groups <= R
    ensures W / groups == R && W % groups == over
  {
    var P, s := W / groups, W % groups;
    assert W == groups * P + s;
    assert (R - P) * groups == s - over;
    NonzeroMultiple(R - P, groups);
  }

  // ----- the condition suffices

  lemma AssignedInRange(W: nat, R: nat, Q: nat, i: nat, row: nat, query: nat)
    requires W > 0 && R > 0 && MapsWell(W, R, Q) && i < W && Assigned(MakePlan(W, R, Q), i, row, query)
    ensures row < R && query < Q
  {
    var p := MakePlan(W, R, Q);
    var g, k := i / p.inGroup, i % p.inGroup;
    WorkerIsMember(p, i);
    MemberCells(p, g, k, row, query);
    RowArithmetic(W, R, Q);
    WorkerArithmetic(W, R, Q);
    GroupInRange(g, k, p.inGroup, p.groups);
    MultiplesApart(g, p.groups, p.queries);
    MultiplesApart(k, p.inGroup, p.rows);
  }

  /** A worker's rows and queries lie within the database and the query list. */
  lemma ResponsibilityFits(W: nat, R: nat, Q: nat, i: nat)
    requires W > 0 && R > 0 && MapsWell(W, R, Q) && i < W
    ensures var p := MakePlan(W, R, Q);
      FirstRow(p, i) + RowCount(p, i) <= R && FirstQuery(p, i) + p.queries <= Q
  {
    var p := MakePlan(W, R, Q);
    var g, k := i / p.inGroup, i % p.inGroup;
    WorkerIsMember(p, i);
    MemberIs(p, g, k);
    RowArithmetic(W, R, Q);
    GroupFits(W, R, Q, g, k);
    RowsFit(k, p.inGroup, p.rows, p.surplus, R % p.inGroup);
  }

  lemma GroupFits(W: nat, R: nat, Q: nat, g: nat, k: nat)
    requires W > 0 && R > 0 && MapsWell(W, R, Q) && Member(MakePlan(W, R, Q), g, k) < W
    ensures var p := MakePlan(W, R, Q); g * p.queries + p.queries <= Q
  {
    var p := MakePlan(W, R, Q);
    WorkerArithmetic(W, R, Q);
    GroupInRange(g, k, p.inGroup, p.groups);
    MultiplesApart(g, p.groups, p.queries);
  }

  lemma GroupNumberFits(W: nat, R: nat, Q: nat, i: nat)
    requires W > 0 && R > 0 && W % MakePlan(W, R, Q).groups == 0 && i < W
    ensures Responsibility(MakePlan(W, R, Q), i).groupNumber < MakePlan(W, R, Q).groups
  {
    WorkerArithmetic(W, R, Q);
    GroupOf(i, MakePlan(W, R, Q).inGroup, MakePlan(W, R, Q).groups);
  }

  lemma GroupOf(i: nat, inGroup: nat, groups: nat)
    requires inGroup > 0 && i < groups * inGroup
    ensures i / inGroup < groups
  {
    Division(i, inGroup);
    GroupInRange(i / inGroup, i % inGroup, inGroup, groups);
  }

  /** Worker i belongs to one of the groups the manager counts, and its rows to the database. */
  ghost predicate IsPrepared(W: nat, R: nat, Q: nat, i: nat)
    requires W > 0 && R > 0
  {
    var p := MakePlan(W, R, Q);
    var info := Responsibility(p, i);
    info.groupNumber < p.groups && forall a | 0 <= a < |info.dbRows| :: info.dbRows[a] < R
  }

  /** So does every worker if and only if the groups divide the workers and are no larger than the database has rows. */
  lemma PreparedCondition(W: nat, R: nat, Q: nat)
    requires W > 0 && R > 0
    ensures (forall i: nat | i < W :: IsPrepared(W, R, Q, i))
            <==> W % MakePlan(W, R, Q).groups == 0 && MakePlan(W, R, Q).inGroup <= R
  {
    var p := MakePlan(W, R, Q);
    if W % p.groups == 0 && p.inGroup <= R {
      forall i: nat | i < W ensures IsPrepared(W, R, Q, i) {
        GroupNumberFits(W, R, Q, i);
        RowArithmetic(W, R, Q);
        RowsFit(i % p.inGroup, p.inGroup, p.rows, p.surplus, R % p.inGroup);
        WorkerIsMember(p, i);
        MemberIs(p, i / p.inGroup, i % p.inGroup);
      }
    } else if W % p.groups != 0 {
      SpareWorker(W, R, Q);
    } else {
      RowlessWorker(W, R, Q);
    }
  }

  /** The first worker after the last full group has a group of its own that the manager does not count. */
  lemma SpareWorker(W: nat, R: nat, Q: nat)
    requires W > 0 && R > 0 && W % MakePlan(W, R, Q).groups != 0
    ensures var p := MakePlan(W, R, Q);
      && p.groups * p.inGroup < W
      && Responsibility(p, p.groups * p.inGroup).groupNumber == p.groups
      && !IsPrepared(W, R, Q, p.groups * p.inGroup)
  {
    var p := MakePlan(W, R, Q);
    WorkerArithmetic(W, R, Q);
    MemberIs(p, p.groups, 0);
  }

  /** Seven workers, three rows and two queries make two groups, and a third for the seventh worker. */
  lemma SevenWorkers()
    ensures MakePlan(7, 3, 2) == Plan(2, 3, 1, 1, 0)
    ensures Responsibility(MakePlan(7, 3, 2), 6) == WorkerInfo(6, 2, 2, 3, [0])
  {
    assert Groups(7, 3) == 2;
    assert RowRange(0, 1) == [0];
  }

  /** In a group larger than the database, the worker after the last row is given a row that is not there. */
  lemma RowlessWorker(W: nat, R: nat, Q: nat)
    requires W > 0 && R > 0 && MakePlan(W, R, Q).inGroup > R
    ensures R < W && !IsPrepared(W, R, Q, R)
    ensures var rows := Responsibility(MakePlan(W, R, Q), R).dbRows; rows != [] && rows[0] == R
  {
    var p := MakePlan(W, R, Q);
    WorkerArithmetic(W, R, Q);
    RowArithmetic(W, R, Q);
    MemberIs(p, 0, R);
    assert Member(p, 0, R) == R;
    assert Responsibility(p, R).dbRows[0] == R;
  }

  lemma RowsFit(k: nat, inGroup: nat, rows: nat, surplus: nat, over: nat)
    requires k < inGroup && (over == 0 ==> surplus == 0) && surplus <= 1
    ensures k * rows + rows + (if k == inGroup - 1 then surplus else 0) <= rows * inGroup + over
  {
    MultiplesApart(k, inGroup, rows);
  }

  lemma GroupInRange(g: nat, k: nat, inGroup: nat, groups: nat)
    requires g * inGroup + k < groups * inGroup
    ensures g < groups
  {
    if groups < g { MultiplesApart(groups, g, inGroup); }
  }

  lemma QueryOwner(query: nat, queries: nat, groups: nat) returns (g: nat)
    requires query < groups * queries
    ensures g < groups && g * queries <= query < g * queries + queries
  {
    assert queries > 0;
    g := query / queries;
    assert query == g * queries + query % queries;
    GroupInRange(g, query % queries, queries, groups);
  }

  lemma CellIsCovered(W: nat, R: nat, Q: nat, row: nat, query: nat)
    requires W > 0 && R > 0 && MapsWell(W, R, Q) && row < R && query < Q
    ensures Covered(MakePlan(W, R, Q), W, row, query)
  {
    var p := MakePlan(W, R, Q);
    RowArithmetic(W, R, Q);
    WorkerArithmetic(W, R, Q);
    var g := QueryOwner(query, p.queries, p.groups);
    var k := RowOwner(row, p.rows, p.inGroup);
    MultiplesApart(g, p.groups, p.inGroup);
    AllRows(k, p.rows, p.inGroup);
    MemberCells(p, g, k, row, query);
    assert Assigned(p, Member(p, g, k), row, query);
  }

  lemma AllRows(k: nat, rows: nat, inGroup: nat)
    ensures k + 1 == inGroup ==> k * rows + rows == rows * inGroup
  {
  }

  /** The place in its group of the worker that owns a row. */
  function RowOwner(row: nat, rows: nat, inGroup: nat): (k: nat)
    requires rows > 0 && inGroup > 0
    ensures k < inGroup && k * rows <= row
    ensures k < inGroup - 1 ==> row < k * rows + rows
  {
    assert row == (row / rows) * rows + row % rows;
    if row / rows < inGroup then row / rows
    else
      MultiplesApart(inGroup - 1, row / rows, rows);
      inGroup - 1
  }

  lemma RangesApart(a: nat, b: nat, c: nat, extra: nat, x: nat)
    requires a < b && a * c <= x < a * c + c + extra && b * c <= x
    ensures extra > 0
  {
    MultiplesApart(a, b, c);
  }

  lemma AssignedOnce(W: nat, R: nat, Q: nat, i: nat, j: nat, row: nat, query: nat)
    requires W > 0 && R > 0
    requires Assigned(MakePlan(W, R, Q), i, row, query) && Assigned(MakePlan(W, R, Q), j, row, query)
    ensures i == j
  {
    var p := MakePlan(W, R, Q);
    var g, k, h, l := i / p.inGroup, i % p.inGroup, j / p.inGroup, j % p.inGroup;
    WorkerIsMember(p, i);
    WorkerIsMember(p, j);
    MemberCells(p, g, k, row, query);
    MemberCells(p, h, l, row, query);
    if g < h { RangesApart(g, h, p.queries, 0, query); }
    if h < g { RangesApart(h, g, p.queries, 0, query); }
    if k < l { RangesApart(k, l, p.rows, 0, row); }
    if l < k { RangesApart(l, k, p.rows, 0, row); }
  }

  lemma MapsWellSuffices(W: nat, R: nat, Q: nat)
    requires W > 0 && R > 0 && MapsWell(W, R, Q)
    ensures ExactCover(W, R, Q)
  {
    var p := MakePlan(W, R, Q);
    forall i: nat, row: nat, query: nat | i < W && Assigned(p, i, row, query) ensures row < R && query < Q {
      AssignedInRange(W, R, Q, i, row, query);
    }
    forall i: nat, j: nat, row: nat, query: nat |
      i < W && j < W && Assigned(p, i, row, query) && Assigned(p, j, row, query) ensures i == j
    {
      AssignedOnce(W, R, Q, i, j, row, query);
    }
    forall row: nat, query: nat | row < R && query < Q ensures Covered(p, W, row, query) {
      CellIsCovered(W, R, Q, row, query);
    }
  }

  // ----- the condition is needed

  /** What a covered cell says about the place of its owner. */
  lemma OwnerOf(p: Plan, W: nat, row: nat, query: nat) returns (g: nat, k: nat)
    requires p.inGroup > 0 && Covered(p, W, row, query)
    ensures k < p.inGroup && Member(p, g, k) < W
    ensures g * p.queries <= query < g * p.queries + p.queries
    ensures row < k * p.rows + p.rows + if k == p.inGroup - 1 then p.surplus else 0
  {
    var i: nat :| i < W && Assigned(p, i, row, query);
    g, k := i / p.inGroup, i % p.inGroup;
    WorkerIsMember(p, i);
    MemberCells(p, g, k, row, query);
  }

  lemma InRangeAt(W: nat, R: nat, Q: nat, i: nat, row: nat, query: nat)
    requires W > 0 && R > 0 && ExactCover(W, R, Q) && i < W
    ensures Assigned(MakePlan(W, R, Q), i, row, query) ==> row < R && query < Q
  {
  }

  lemma GroupFitsRows(W: nat, R: nat, Q: nat)
    requires W > 0 && R > 0 && Q > 0 && ExactCover(W, R, Q)
    ensures MakePlan(W, R, Q).queries > 0 && MakePlan(W, R, Q).inGroup <= R
  {
    var p := MakePlan(W, R, Q);
    var g, k := OwnerOf(p, W, 0, 0);
    WorkerArithmetic(W, R, Q);
    RowArithmetic(W, R, Q);
    if p.inGroup > R {
      InRangeAt(W, R, Q, Member(p, 0, R), R, 0);
      MemberCells(p, 0, R, R, 0);
    }
  }

  lemma OneRowLeft(W: nat, R: nat, Q: nat)
    requires W > 0 && R > 0 && Q > 0 && ExactCover(W, R, Q)
    ensures R % MakePlan(W, R, Q).inGroup <= 1
  {
    var p := MakePlan(W, R, Q);
    GroupFitsRows(W, R, Q);
    RowArithmetic(W, R, Q);
    var g, k := OwnerOf(p, W, R - 1, 0);
    MultiplesApart(k, p.inGroup, p.rows);
  }

  /** The lone member of an unfinished group gets queries that no one multiplies with the last row. */
  lemma NoWorkerLeft(W: nat, R: nat, Q: nat)
    requires W > 0 && R > 0 && Q > 0 && ExactCover(W, R, Q)
    ensures W % MakePlan(W, R, Q).groups == 0
  {
    var p := MakePlan(W, R, Q);
    GroupFitsRows(W, R, Q);
    WorkerArithmetic(W, R, Q);
    RowArithmetic(W, R, Q);
    if W % p.groups > 0 {
      LeftoverWorkers(W, R, Q);
      var query := p.groups * p.queries;
      MemberCells(p, p.groups, 0, 0, query);
      assert Assigned(p, Member(p, p.groups, 0), 0, query);
      var g, k := OwnerOf(p, W, R - 1, query);
      SameRange(g, p.groups, p.queries);
      MultiplesApart(k + 1, p.inGroup, p.rows);
      NextBlock(k, p.rows);
    }
  }

  lemma NextBlock(k: nat, c: nat)
    ensures (k + 1) * c == k * c + c
  {
  }

  lemma SameRange(g: nat, h: nat, c: nat)
    requires g * c <= h * c < g * c + c
    ensures g == h
  {
    if g < h { MultiplesApart(g, h, c); }
    if h < g { MultiplesApart(h, g, c); }
  }

  lemma NoQueryLeft(W: nat, R: nat, Q: nat)
    requires W > 0 && R > 0 && Q > 0 && ExactCover(W, R, Q)
    ensures Q % MakePlan(W, R, Q).groups == 0
  {
    var p := MakePlan(W, R, Q);
    GroupFitsRows(W, R, Q);
    WorkerArithmetic(W, R, Q);
    NoWorkerLeft(W, R, Q);
    var g, k := OwnerOf(p, W, 0, Q - 1);
    GroupInRange(g, k, p.inGroup, p.groups);
    MultiplesApart(g, p.groups, p.queries);
  }

  /** With any query at all, the split is an exact cover if and only if the numbers map well. */
  lemma ExactCoverCondition(W: nat, R: nat, Q: nat)
    requires W > 0 && R > 0
    ensures ExactCover(W, R, Q) <==> Q == 0 || MapsWell(W, R, Q)
  {
    if Q > 0 && ExactCover(W, R, Q) {
      GroupFitsRows(W, R, Q);
      OneRowLeft(W, R, Q);
      NoWorkerLeft(W, R, Q);
      NoQueryLeft(W, R, Q);
    }
    if MapsWell(W, R, Q) {
      MapsWellSuffices(W, R, Q);
    }
    if Q == 0 {
      NoQueriesNoCells(W, R);
    }
  }

  /** Of a, each of d gets q, and what is left would not do for one more each. */
  ghost predicate Shared(a: nat, d: nat, q: nat) {
    d * q <= a < d * (q + 1)
  }

  lemma QuotientIs(a: nat, d: nat, q: nat)
    requires d > 0
    ensures Shared(a, d, q) <==> q == a / d
  {
    assert a == d * (a / d) + a % d;
    if Shared(a, d, q) { DivModUnique(a, d, q, a - d * q); }
  }

  /** One group at least, and one row at least, however few there are. */
  ghost predicate SharedButOne(a: nat, d: nat, q: nat) {
    if a < d then q == 1 else Shared(a, d, q)
  }

  lemma QuotientButOne(a: nat, d: nat, q: nat)
    requires d > 0
    ensures SharedButOne(a, d, q) <==> q == if a / d == 0 then 1 else a / d
  {
    QuotientBounds(a, d);
    QuotientIs(a, d, q);
  }

  /** The whole plan without a division. */
  ghost predicate IsPlan(W: nat, R: nat, Q: nat, p: Plan) {
    && SharedButOne(W, R, p.groups)
    && Shared(W, p.groups, p.inGroup)
    && Shared(Q, p.groups, p.queries)
    && SharedButOne(R, p.inGroup, p.rows)
    && p.surplus == if p.inGroup * p.rows < R then 1 else 0
  }

  lemma QuotientsAre(W: nat, R: nat, Q: nat)
    requires W > 0 && R > 0
    ensures var p := MakePlan(W, R, Q);
      && p.groups == (if W / R == 0 then 1 else W / R) && p.inGroup == W / p.groups
      && p.queries == Q / p.groups && p.rows == (if R / p.inGroup == 0 then 1 else R / p.inGroup)
      && p.surplus == if p.inGroup * p.rows < R then 1 else 0
  {
  }

  lemma QuotientsArePlan(W: nat, R: nat, Q: nat, p: Plan, q: Plan)
    requires R > 0 && p.groups > 0 && p.inGroup > 0
    requires p.groups == (if W / R == 0 then 1 else W / R) && p.inGroup == W / p.groups
    requires p.queries == Q / p.groups && p.rows == if R / p.inGroup == 0 then 1 else R / p.inGroup
    requires p.surplus == if p.inGroup * p.rows < R then 1 else 0
    ensures q == p <==> IsPlan(W, R, Q, q)
  {
    QuotientButOne(W, R, q.groups);
    QuotientIs(W, p.groups, q.inGroup);
    QuotientIs(Q, p.groups, q.queries);
    QuotientButOne(R, p.inGroup, q.rows);
    if IsPlan(W, R, Q, q) {
      assert q.groups == p.groups && q.inGroup == p.inGroup && q.queries == p.queries && q.rows == p.rows;
    }
  }

  /** That describes the plan, and no other. */
  lemma PlanIs(W: nat, R: nat, Q: nat, p: Plan)
    requires W > 0 && R > 0
    ensures p == MakePlan(W, R, Q) <==> IsPlan(W, R, Q, p)
  {
    QuotientsAre(W, R, Q);
    QuotientsArePlan(W, R, Q, MakePlan(W, R, Q), p);
  }

  /** Worker k of group g: the g-th stretch of queries and the k-th stretch of rows, the last worker's one longer. */
  lemma ResponsibilityIs(p: Plan, g: nat, k: nat)
    requires k < p.inGroup
    ensures Responsibility(p, g * p.inGroup + k) == WorkerInfo(
      g * p.inGroup + k, g, g * p.queries, g * p.queries + p.queries,
      RowRange(k * p.rows, p.rows + if k == p.inGroup - 1 then p.surplus else 0))
  {
    MemberIs(p, g, k);
  }

  /**
   The condition in numbers alone: G groups, one for each full set of one worker per row but one at
   least, of P workers each.
   */
  lemma ExactCoverInNumbers(W: nat, R: nat, Q: nat, G: nat, P: nat)
    requires W > 0 && R > 0 && Shared(W, G, P)
    requires if W < R then G == 1 else G * R <= W < (G + 1) * R
    ensures ExactCover(W, R, Q) <==> Q == 0 || (G * P == W && Q % G == 0 && P <= R && R % P <= 1)
  {
    PlanStarts(W, R, Q, G, P);
    ExactCoverCondition(W, R, Q);
  }

  lemma PlanStarts(W: nat, R: nat, Q: nat, G: nat, P: nat)
    requires W > 0 && R > 0 && SharedButOne(W, R, G) && Shared(W, G, P)
    ensures G > 0 && P > 0 && MakePlan(W, R, Q).groups == G && MakePlan(W, R, Q).inGroup == P
    ensures W % G == 0 <==> G * P == W
  {
    QuotientsAre(W, R, Q);
    QuotientButOne(W, R, G);
    QuotientIs(W, G, P);
    DivModUnique(W, G, P, W - G * P);
  }

  lemma NoQueriesNoCells(W: nat, R: nat)
    requires W > 0 && R > 0
    ensures ExactCover(W, R, 0)
  {
    var p := MakePlan(W, R, 0);
    DivModUnique(0, p.groups, 0, 0);
    assert forall i: nat, row: nat, query: nat :: !Assigned(p, i, row, query);
  }

  // ----- nothing is computed twice

  /** How many products the first w workers compute together. */
  function AssignedCells(p: Plan, w: nat): nat
    requires p.inGroup > 0
  {
    if w == 0 then 0 else AssignedCells(p, w - 1) + RowCount(p, w - 1) * p.queries
  }

  lemma {:induction false} CellsOfMembers(p: Plan, g: nat, k: nat)
    requires k < p.inGroup
    ensures AssignedCells(p, Member(p, g, k)) == AssignedCells(p, Member(p, g, 0)) + k * p.rows * p.queries
    decreases k
  {
    if k > 0 {
      CellsOfMembers(p, g, k - 1);
      MemberIs(p, g, k - 1);
      assert Member(p, g, k) == Member(p, g, k - 1) + 1;
      CellStep(k, p.rows, p.queries);
    }
  }

  lemma CellStep(k: nat, rows: nat, queries: nat)
    requires k > 0
    ensures (k - 1) * rows * queries + rows * queries == k * rows * queries
  {
    assert k * rows == (k - 1) * rows + rows;
  }

  lemma {:induction false} CellsOfGroups(p: Plan, g: nat)
    requires p.inGroup > 0
    ensures AssignedCells(p, Member(p, g, 0)) == g * ((p.inGroup * p.rows + p.surplus) * p.queries)
  {
    if g > 0 {
      CellsOfGroups(p, g - 1);
      var last := Member(p, g - 1, p.inGroup - 1);
      CellsOfMembers(p, g - 1, p.inGroup - 1);
      MemberIs(p, g - 1, p.inGroup - 1);
      assert Member(p, g, 0) == last + 1;
      GroupTotal(p.inGroup, p.rows, p.surplus, p.queries);
      NextBlock(g - 1, (p.inGroup * p.rows + p.surplus) * p.queries);
    }
  }

  lemma GroupTotal(n: nat, rows: nat, surplus: nat, queries: nat)
    requires n > 0
    ensures (n - 1) * rows * queries + (rows + surplus) * queries == (n * rows + surplus) * queries
  {
    assert (n - 1) * rows + (rows + surplus) == n * rows + surplus;
  }

  /** Under the condition, the work handed out is the whole rectangle and nothing more. */
  lemma WorkIsConserved(W: nat, R: nat, Q: nat)
    requires W > 0 && R > 0 && MapsWell(W, R, Q)
    ensures AssignedCells(MakePlan(W, R, Q), W) == R * Q
  {
    var p := MakePlan(W, R, Q);
    WorkerArithmetic(W, R, Q);
    RowArithmetic(W, R, Q);
    CellsOfGroups(p, p.groups);
    assert p.inGroup * p.rows + p.surplus == R by { AllRows(p.inGroup - 1, p.rows, p.inGroup); }
    Rectangle(p.groups, p.queries, R);
  }

  lemma Rectangle(groups: nat, queries: nat, R: nat)
    ensures groups * (R * queries) == R * (groups * queries)
  {
  }
}
