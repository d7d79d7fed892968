/** `process_uploaded_files`: check the key column, merge, add the SLA, duration,
    aging, risk and period columns, and keep the final eleven columns. The two
    spreadsheets arrive decoded and the current time is a parameter. */
module Processor {

  import opened Calendar
  import opened Tickets
  import opened Metrics
  import opened Merge

  /** Columns read from the merged table, in the order the run first reads them. */
  const ReadColumns: seq<string> := [
    PriorityColumn, ClosedColumn, CreatedColumn, FirstResponseColumn,
    KeyColumn, ProjectColumn, BusinessUnitColumn
  ]

  /** The named columns of `cols` that the merged table lacks, in order. */
  function MissingOf(cols: seq<string>, pilotColumns: set<string>, slaColumns: set<string>): (r: seq<string>)
    ensures forall c :: c in r <==> c in cols && !InMerged(c, pilotColumns, slaColumns)
  {
    if cols == [] then []
    else
      (if InMerged(cols[0], pilotColumns, slaColumns) then [] else [cols[0]])
      + MissingOf(cols[1..], pilotColumns, slaColumns)
  }

  /** The KeyError a run raises for a named column the merged table lacks:
      each of `Prioridade`, `Data_Fecha`, `Data_Cria`, `Data_Primeira_Resp` is read
      on its own, in that order; the final selection reports all it misses. */
  function ColumnError(pilotColumns: set<string>, slaColumns: set<string>): (r: Option<Error>)
    ensures r.None? <==> forall c :: c in ReadColumns ==> InMerged(c, pilotColumns, slaColumns)
    ensures r.Some? ==> (r.value.MissingColumns? && r.value.names != [] &&
              forall c :: c in r.value.names ==> c in ReadColumns && !InMerged(c, pilotColumns, slaColumns))
  {
    if !InMerged(PriorityColumn, pilotColumns, slaColumns) then Some(MissingColumns([PriorityColumn]))
    else if !InMerged(ClosedColumn, pilotColumns, slaColumns) then Some(MissingColumns([ClosedColumn]))
    else if !InMerged(CreatedColumn, pilotColumns, slaColumns) then Some(MissingColumns([CreatedColumn]))
    else if !InMerged(FirstResponseColumn, pilotColumns, slaColumns) then Some(MissingColumns([FirstResponseColumn]))
    else
      var missing := MissingOf([KeyColumn, ProjectColumn, BusinessUnitColumn, PriorityColumn], pilotColumns, slaColumns);
      if missing == [] then None
      else
        assert missing[0] in missing;
        Some(MissingColumns(missing))
  }

  /** The merged row of one pair of row indices. */
  function MergedAt(pilot: Table, sla: Table, pair: (nat, nat)): Row
    requires pair.0 < |pilot.rows| && pair.1 < |sla.rows|
  {
    MergeRow(pilot.columns, sla.columns, pilot.rows[pair.0], sla.rows[pair.1])
  }

  /** The result rows of the first n merged pairs. */
  function ResultRows(pilot: Table, sla: Table, pairs: seq<(nat, nat)>, n: nat, now: int): (r: seq<Ticket>)
    requires n <= |pairs|
    requires forall x :: x in pairs ==> x.0 < |pilot.rows| && x.1 < |sla.rows|
    ensures |r| == n
  {
    if n == 0 then []
    else
      assert pairs[n - 1] in pairs;
      ResultRows(pilot, sla, pairs, n - 1, now) + [Derive(MergedAt(pilot, sla, pairs[n - 1]), now)]
  }

  /** What one run returns. */
  function Process(pilot: Table, sla: Table, now: int): (r: Result<Frame, Error>)
    ensures r.Success? ==> r.value.columns == FinalColumns && |r.value.rows| == |JoinPairs(pilot.rows, sla.rows)| > 0
    ensures r.Failure? && r.error.MissingColumns? ==> !(forall c :: c in ReadColumns ==> InMerged(c, pilot.columns, sla.columns))
  {
    if KeyColumn !in pilot.columns || KeyColumn !in sla.columns then
      Failure(MissingKeyColumn)
    else
      var pairs := JoinPairs(pilot.rows, sla.rows);
      if |pairs| == 0 then
        Failure(NoMatch)
      else
        match ColumnError(pilot.columns, sla.columns)
        case Some(e) => Failure(e)
        case None => Success(Frame(FinalColumns, ResultRows(pilot, sla, pairs, |pairs|, now)))
  }

  /** The run: the key check, the merge, then one pass over the merged rows
      filling each result row. */
  method ProcessUploadedFiles(pilot: Table, sla: Table, now: int) returns (r: Result<Frame, Error>)
    ensures r == Process(pilot, sla, now)
  {
    if KeyColumn !in pilot.columns || KeyColumn !in sla.columns {
      return Failure(MissingKeyColumn);
    }
    var pairs := InnerJoin(pilot.rows, sla.rows);
    if |pairs| == 0 {
      return Failure(NoMatch);
    }
    var error := ColumnError(pilot.columns, sla.columns);
    if error.Some? {
      return Failure(error.value);
    }
    var rows: seq<Ticket> := [];
    var k := 0;
    while k < |pairs|
      invariant 0 <= k <= |pairs|
      invariant rows == ResultRows(pilot, sla, pairs, k, now)
    {
      assert pairs[k] in pairs;
      rows := rows + [Derive(MergedAt(pilot, sla, pairs[k]), now)];
      k := k + 1;
    }
    r := Success(Frame(FinalColumns, rows));
  }

  /** Row k of the result table comes from the k-th merged pair. */
  lemma {:induction false} ResultRowAt(pilot: Table, sla: Table, pairs: seq<(nat, nat)>, n: nat, now: int, k: nat)
    requires n <= |pairs|
    requires forall x :: x in pairs ==> x.0 < |pilot.rows| && x.1 < |sla.rows|
    requires k < n
    ensures pairs[k] in pairs
    ensures ResultRows(pilot, sla, pairs, n, now)[k] == Derive(MergedAt(pilot, sla, pairs[k]), now)
  {
    if k < n - 1 {
      ResultRowAt(pilot, sla, pairs, n - 1, now, k);
    }
  }

  /** The run fails on the key check exactly when `Chave` is missing from either table. */
  lemma KeyColumnRequired(pilot: Table, sla: Table, now: int)
    ensures Process(pilot, sla, now) == Failure(MissingKeyColumn) <==>
              KeyColumn !in pilot.columns || KeyColumn !in sla.columns
  {
  }

  /** With both key columns present, the run fails with NoMatch exactly when no
      pilot key equals an SLA key; so a run never returns an empty table. */
  lemma NoMatchExactly(pilot: Table, sla: Table, now: int)
    requires KeyColumn in pilot.columns && KeyColumn in sla.columns
    ensures Process(pilot, sla, now) == Failure(NoMatch) <==>
              forall i, j :: 0 <= i < |pilot.rows| && 0 <= j < |sla.rows| ==> sla.rows[j].key != pilot.rows[i].key
  {
    JoinEmpty(pilot.rows, sla.rows);
  }

  /** A run succeeds exactly when both tables have `Chave`, some keys match and every
      named column survives the merge; it then returns the eleven final columns in
      order and one row per merged pair, at least one. */
  lemma SuccessShape(pilot: Table, sla: Table, now: int)
    ensures Process(pilot, sla, now).Success? <==>
              KeyColumn in pilot.columns && KeyColumn in sla.columns &&
              (exists i, j :: 0 <= i < |pilot.rows| && 0 <= j < |sla.rows| && sla.rows[j].key == pilot.rows[i].key) &&
              forall c :: c in ReadColumns ==> InMerged(c, pilot.columns, sla.columns)
    ensures Process(pilot, sla, now).Success? ==>
              var f := Process(pilot, sla, now).value;
              f.columns == FinalColumns && |f.columns| == 11 &&
              |f.rows| == |JoinPairs(pilot.rows, sla.rows)| > 0
  {
    JoinEmpty(pilot.rows, sla.rows);
  }

  /** Every result row pairs a pilot row with an SLA row of the same key; every such
      pair gives exactly one row, and the rows follow pilot order, then SLA order. */
  lemma ResultRowsArePairs(pilot: Table, sla: Table, now: int)
    requires Process(pilot, sla, now).Success?
    ensures var rows := Process(pilot, sla, now).value.rows;
            var pairs := JoinPairs(pilot.rows, sla.rows);
            && |rows| == |pairs|
            && (forall k :: 0 <= k < |rows| ==>
                  pairs[k].0 < |pilot.rows| && pairs[k].1 < |sla.rows| &&
                  sla.rows[pairs[k].1].key == pilot.rows[pairs[k].0].key &&
                  rows[k] == Derive(MergedAt(pilot, sla, pairs[k]), now))
            && (forall i: nat, j: nat :: i < |pilot.rows| && j < |sla.rows| && sla.rows[j].key == pilot.rows[i].key ==>
                  exists k :: 0 <= k < |pairs| && pairs[k] == (i, j))
            && StrictlyOrdered(pairs)
  {
    var pairs := JoinPairs(pilot.rows, sla.rows);
    JoinPairsExact(pilot.rows, sla.rows);
    var rows := Process(pilot, sla, now).value.rows;
    forall k | 0 <= k < |rows|
      ensures pairs[k].0 < |pilot.rows| && pairs[k].1 < |sla.rows|
      ensures sla.rows[pairs[k].1].key == pilot.rows[pairs[k].0].key
      ensures rows[k] == Derive(MergedAt(pilot, sla, pairs[k]), now)
    {
      ResultRowAt(pilot, sla, pairs, |pairs|, now, k);
    }
    forall i: nat, j: nat | i < |pilot.rows| && j < |sla.rows| && sla.rows[j].key == pilot.rows[i].key
      ensures exists k :: 0 <= k < |pairs| && pairs[k] == (i, j)
    {
      assert (i, j) in pairs;
    }
  }

  /** Every result key occurs in both uploaded tables. */
  lemma ResultKeysInBoth(pilot: Table, sla: Table, now: int)
    requires Process(pilot, sla, now).Success?
    ensures forall t :: t in Process(pilot, sla, now).value.rows ==>
              (exists i :: 0 <= i < |pilot.rows| && pilot.rows[i].key == t.key) &&
              (exists j :: 0 <= j < |sla.rows| && sla.rows[j].key == t.key)
  {
    ResultRowsArePairs(pilot, sla, now);
    var rows := Process(pilot, sla, now).value.rows;
    var pairs := JoinPairs(pilot.rows, sla.rows);
    forall t | t in rows
      ensures exists i :: 0 <= i < |pilot.rows| && pilot.rows[i].key == t.key
      ensures exists j :: 0 <= j < |sla.rows| && sla.rows[j].key == t.key
    {
      var k :| 0 <= k < |rows| && rows[k] == t;
      var (i, j) := pairs[k];
      assert t.key == pilot.rows[i].key;
    }
  }

  /** Each result row obeys the column rules: budgets only for known priorities,
      durations empty exactly when a timestamp is, aging empty exactly when the
      creation date is, risk N/A exactly when closed by `Is_Open`, unbudgeted or
      undated, and a creation period that is the month containing `Data_Cria`. */
  lemma ResultRowRules(pilot: Table, sla: Table, now: int, k: nat)
    requires Process(pilot, sla, now).Success?
    requires k < |Process(pilot, sla, now).value.rows|
    ensures var t := Process(pilot, sla, now).value.rows[k];
            var m := MergedAt(pilot, sla, JoinPairs(pilot.rows, sla.rows)[k]);
            && t.key == m.key
            && (t.slaResolutionHours.Some? <==> m.priority.Some? && m.priority.value in Priorities)
            && (t.slaFirstResponseHours.Some? <==> t.slaResolutionHours.Some?)
            && (t.slaResolutionHours.Some? ==> t.slaFirstResponseHours.value < t.slaResolutionHours.value)
            && (t.resolutionHours.None? <==> m.closedAt.None? || m.createdAt.None?)
            && (t.firstResponseHours.None? <==> m.firstResponseAt.None? || m.createdAt.None?)
            && (t.agingHours.None? <==> m.createdAt.None?)
            && (t.risk == NotApplicable <==>
                  m.isOpen == Some(false) || !(m.priority.Some? && m.priority.value in Priorities) || m.createdAt.None?)
            && (t.createdPeriod.None? <==> m.createdAt.None?)
            && (t.createdPeriod.Some? ==> InMonth(DayOf(m.createdAt.value), t.createdPeriod.value))
  {
    ResultRowsArePairs(pilot, sla, now);
    var m := MergedAt(pilot, sla, JoinPairs(pilot.rows, sla.rows)[k]);
    AgingMeaning(m, now);
    FirstResponseBeforeResolution(m.priority);
    DerivedRiskNotApplicable(m, now);
  }
}
