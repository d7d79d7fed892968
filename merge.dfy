/** `df_piloto.merge(df_sla, on="Chave", how="inner")`: every pair of a pilot
    row and an SLA row with equal keys, in pilot order and, for one pilot row,
    in SLA order (the order pandas 2.2 and later give). Duplicate keys are not collapsed, and empty keys match each
    other as pandas matches NaN with NaN. */
module Merge {

  import opened Tickets

  /** Pairs (i, j) with j < n whose keys agree, for the one pilot row i. */
  function PairsWith(pilot: seq<Row>, i: nat, sla: seq<Row>, n: nat): (r: seq<(nat, nat)>)
    requires i < |pilot| && n <= |sla|
    ensures forall x :: x in r ==> x.0 == i && x.1 < n
  {
    if n == 0 then []
    else PairsWith(pilot, i, sla, n - 1) + (if sla[n - 1].key == pilot[i].key then [(i, n - 1)] else [])
  }

  /** Matching pairs of the first m pilot rows. */
  function PairsUpTo(pilot: seq<Row>, sla: seq<Row>, m: nat): (r: seq<(nat, nat)>)
    requires m <= |pilot|
    ensures forall x :: x in r ==> x.0 < m && x.1 < |sla|
  {
    if m == 0 then [] else PairsUpTo(pilot, sla, m - 1) + PairsWith(pilot, m - 1, sla, |sla|)
  }

  /** The row indices the inner merge pairs up. */
  function JoinPairs(pilot: seq<Row>, sla: seq<Row>): (r: seq<(nat, nat)>)
    ensures forall x :: x in r ==> x.0 < |pilot| && x.1 < |sla|
  {
    PairsUpTo(pilot, sla, |pilot|)
  }

  /** Pair order: by pilot row, then by SLA row. */
  predicate Before(a: (nat, nat), b: (nat, nat)) {
    a.0 < b.0 || (a.0 == b.0 && a.1 < b.1)
  }

  predicate StrictlyOrdered(s: seq<(nat, nat)>) {
    forall x, y :: 0 <= x < y < |s| ==> Before(s[x], s[y])
  }

  lemma {:induction false} PairsWithMembers(pilot: seq<Row>, i: nat, sla: seq<Row>, n: nat)
    requires i < |pilot| && n <= |sla|
    ensures forall j: nat :: (i, j) in PairsWith(pilot, i, sla, n) <==> j < n && sla[j].key == pilot[i].key
    ensures StrictlyOrdered(PairsWith(pilot, i, sla, n))
  {
    if n > 0 {
      PairsWithMembers(pilot, i, sla, n - 1);
    }
  }

  /** Two ordered runs, every pair of the first before every pair of the second, make one. */
  lemma OrderedConcat(a: seq<(nat, nat)>, b: seq<(nat, nat)>)
    requires StrictlyOrdered(a) && StrictlyOrdered(b)
    requires forall x, y :: x in a && y in b ==> Before(x, y)
    ensures StrictlyOrdered(a + b)
  {
  }

  lemma {:induction false} PairsUpToMembers(pilot: seq<Row>, sla: seq<Row>, m: nat)
    requires m <= |pilot|
    ensures forall i: nat, j: nat :: (i, j) in PairsUpTo(pilot, sla, m) <==>
              i < m && j < |sla| && sla[j].key == pilot[i].key
  {
    if m > 0 {
      PairsUpToMembers(pilot, sla, m - 1);
      PairsWithMembers(pilot, m - 1, sla, |sla|);
      var a, b := PairsUpTo(pilot, sla, m - 1), PairsWith(pilot, m - 1, sla, |sla|);
      forall i: nat, j: nat
        ensures (i, j) in a + b <==> i < m && j < |sla| && sla[j].key == pilot[i].key
      {
        if i < m - 1 {
          assert (i, j) !in b;
        } else if i == m - 1 {
          assert (i, j) !in a;
        }
      }
    }
  }

  lemma {:induction false} PairsUpToOrdered(pilot: seq<Row>, sla: seq<Row>, m: nat)
    requires m <= |pilot|
    ensures StrictlyOrdered(PairsUpTo(pilot, sla, m))
  {
    if m > 0 {
      PairsUpToOrdered(pilot, sla, m - 1);
      PairsWithMembers(pilot, m - 1, sla, |sla|);
      OrderedConcat(PairsUpTo(pilot, sla, m - 1), PairsWith(pilot, m - 1, sla, |sla|));
    }
  }

  /** The merge holds exactly the pairs of rows with equal keys, each once, in
      pilot order and then SLA order. */
  lemma JoinPairsExact(pilot: seq<Row>, sla: seq<Row>)
    ensures forall i: nat, j: nat :: (i, j) in JoinPairs(pilot, sla) <==>
              i < |pilot| && j < |sla| && sla[j].key == pilot[i].key
    ensures StrictlyOrdered(JoinPairs(pilot, sla))
  {
    PairsUpToMembers(pilot, sla, |pilot|);
    PairsUpToOrdered(pilot, sla, |pilot|);
  }

  /** The merge is empty exactly when no pilot key occurs in the SLA table. */
  lemma JoinEmpty(pilot: seq<Row>, sla: seq<Row>)
    ensures |JoinPairs(pilot, sla)| == 0 <==>
              forall i, j :: 0 <= i < |pilot| && 0 <= j < |sla| ==> sla[j].key != pilot[i].key
  {
    JoinPairsExact(pilot, sla);
    var r := JoinPairs(pilot, sla);
    if |r| > 0 {
      assert r[0] in r;
    }
  }

  /** After the merge a named column other than `Chave` can be read when exactly one
      table has it; one both tables have is renamed with the `_x` / `_y` suffixes. */
  predicate InMerged(column: string, pilotColumns: set<string>, slaColumns: set<string>)
    ensures InMerged(column, pilotColumns, slaColumns) ==> column == KeyColumn || column in pilotColumns + slaColumns
    ensures column != KeyColumn && column in pilotColumns * slaColumns ==> !InMerged(column, pilotColumns, slaColumns)
  {
    column == KeyColumn || ((column in pilotColumns) != (column in slaColumns))
  }

  /** The cell a named column of the merged row holds: from whichever table has the column. */
  function Pick<T>(column: string, pilotColumns: set<string>, slaColumns: set<string>, fromPilot: Option<T>, fromSla: Option<T>): Option<T> {
    if column in pilotColumns && column !in slaColumns then fromPilot
    else if column in slaColumns && column !in pilotColumns then fromSla
    else None
  }

  /** One merged row. */
  function MergeRow(pilotColumns: set<string>, slaColumns: set<string>, p: Row, s: Row): (m: Row)
    ensures m.key == p.key
    ensures !InMerged(ProjectColumn, pilotColumns, slaColumns) ==> m.project.None?
    ensures !InMerged(BusinessUnitColumn, pilotColumns, slaColumns) ==> m.businessUnit.None?
    ensures !InMerged(PriorityColumn, pilotColumns, slaColumns) ==> m.priority.None?
    ensures !InMerged(CreatedColumn, pilotColumns, slaColumns) ==> m.createdAt.None?
    ensures !InMerged(ClosedColumn, pilotColumns, slaColumns) ==> m.closedAt.None?
    ensures !InMerged(FirstResponseColumn, pilotColumns, slaColumns) ==> m.firstResponseAt.None?
    ensures !InMerged(IsOpenColumn, pilotColumns, slaColumns) ==> m.isOpen.None?
  {
    Row(
      p.key,
      Pick(ProjectColumn, pilotColumns, slaColumns, p.project, s.project),
      Pick(BusinessUnitColumn, pilotColumns, slaColumns, p.businessUnit, s.businessUnit),
      Pick(PriorityColumn, pilotColumns, slaColumns, p.priority, s.priority),
      Pick(CreatedColumn, pilotColumns, slaColumns, p.createdAt, s.createdAt),
      Pick(ClosedColumn, pilotColumns, slaColumns, p.closedAt, s.closedAt),
      Pick(FirstResponseColumn, pilotColumns, slaColumns, p.firstResponseAt, s.firstResponseAt),
      Pick(IsOpenColumn, pilotColumns, slaColumns, p.isOpen, s.isOpen))
  }

  /** A merged row carries the pilot row's cell for a column only the pilot has and
      the SLA row's for a column only the SLA table has. */
  lemma MergeRowSources(pilotColumns: set<string>, slaColumns: set<string>, p: Row, s: Row)
    ensures var m := MergeRow(pilotColumns, slaColumns, p, s);
      && m.key == p.key
      && (ProjectColumn in pilotColumns - slaColumns ==> m.project == p.project)
      && (ProjectColumn in slaColumns - pilotColumns ==> m.project == s.project)
      && (BusinessUnitColumn in pilotColumns - slaColumns ==> m.businessUnit == p.businessUnit)
      && (BusinessUnitColumn in slaColumns - pilotColumns ==> m.businessUnit == s.businessUnit)
      && (PriorityColumn in pilotColumns - slaColumns ==> m.priority == p.priority)
      && (PriorityColumn in slaColumns - pilotColumns ==> m.priority == s.priority)
      && (CreatedColumn in pilotColumns - slaColumns ==> m.createdAt == p.createdAt)
      && (CreatedColumn in slaColumns - pilotColumns ==> m.createdAt == s.createdAt)
      && (ClosedColumn in pilotColumns - slaColumns ==> m.closedAt == p.closedAt)
      && (ClosedColumn in slaColumns - pilotColumns ==> m.closedAt == s.closedAt)
      && (FirstResponseColumn in pilotColumns - slaColumns ==> m.firstResponseAt == p.firstResponseAt)
      && (FirstResponseColumn in slaColumns - pilotColumns ==> m.firstResponseAt == s.firstResponseAt)
      && (IsOpenColumn in pilotColumns - slaColumns ==> m.isOpen == p.isOpen)
      && (IsOpenColumn in slaColumns - pilotColumns ==> m.isOpen == s.isOpen)
      && (!InMerged(IsOpenColumn, pilotColumns, slaColumns) ==> m.isOpen.None?)
  {
  }

  /** The inner merge, as nested loops over pilot rows and then SLA rows. */
  method InnerJoin(pilot: seq<Row>, sla: seq<Row>) returns (pairs: seq<(nat, nat)>)
    ensures pairs == JoinPairs(pilot, sla)
  {
    pairs := [];
    var i := 0;
    while i < |pilot|
      invariant 0 <= i <= |pilot|
      invariant pairs == PairsUpTo(pilot, sla, i)
    {
      var j := 0;
      while j < |sla|
        invariant 0 <= j <= |sla|
        invariant pairs == PairsUpTo(pilot, sla, i) + PairsWith(pilot, i, sla, j)
      {
        if sla[j].key == pilot[i].key {
          pairs := pairs + [(i, j)];
        }
        j := j + 1;
      }
      i := i + 1;
    }
  }
}
