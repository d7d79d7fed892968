# Ticket SLA reconciliation — Dafny model of `process_uploaded_files`

This project models the data-processing core of the ticket dashboard: the
function `process_uploaded_files` in `data_processor.py` and its nested
`check_risk`. A run takes two spreadsheets that are already decoded: the
pilot export of tickets and the SLA export. It does the following:

1. It checks that both tables have the join key column `Chave`.
2. It inner-merges them on `Chave` and fails when nothing matches.
3. It maps `Prioridade` to a resolution budget and a first-response budget in hours.
4. It computes the resolution hours and the first-response hours from the timestamps.
5. It computes `Aging_Horas`: hours since creation while `Data_Fecha` is empty, the resolution hours once it is set.
6. It classifies `Status_Risco` as `N/A`, `Atuação necessária` or `OK`.
7. It labels each row with the year-month of `Data_Cria`.
8. It keeps the eleven final columns in their fixed order.

Modules, one per concern:

- `Tickets` (tickets.dfy) holds the row, table, result and error types and the column names.
- `Calendar` (calendar.dfy) holds the proleptic Gregorian calendar behind `to_period("M")`.
- `Metrics` (metrics.dfy) holds the per-row rules as functions with lemmas: SLA maps, durations, aging, `check_risk`, the period and the derived result row.
- `Merge` (merge.dfy) holds the inner merge. `InnerJoin` is a method with nested loops, proved equal to the specification function `JoinPairs`.
- `Processor` (processor.dfy) holds the run. `ProcessUploadedFiles` is a method that checks the key, merges, then fills the result rows in one loop. It is proved equal to the specification function `Process`, and the lemmas beside it state what a run promises.

Modelling choices:

- Timestamps are naive whole seconds since 1970-01-01T00:00:00. The current time (`pd.Timestamp.now()`) is the parameter `now`.
- Durations are exact hours (`real`, seconds / 3600). The risk threshold `0.8 * SLA` is the exact rational 4/5. `Metrics.RiskInSeconds` restates it in integers: `5 * seconds > 4 * 3600 * budget`.
- An empty cell (NaN/NaT) is `None`. The merge matches an empty key with an empty key, as pandas matches NaN with NaN.
- Each table carries its header (a set of column names). After the merge, a named column other than `Chave` is readable only when exactly one table has it. pandas renames a column that both tables have to `_x`/`_y`, so reading it by its plain name raises `KeyError`.
- Those `KeyError`s are modelled as the error `MissingColumns`, not as a precondition. Each of `Prioridade`, `Data_Fecha`, `Data_Cria` and `Data_Primeira_Resp` is read on its own, in that order, and the first missing one is reported. The final selection reports every column it misses.
- The run reads `Is_Open` with `row.get("Is_Open", True)`, and nothing in the file creates that column. A ticket therefore counts as open unless an uploaded table supplies `Is_Open` as false. An empty cell also counts as open, since NaN is truthy. So a ticket that has a closing date but no `Is_Open` value still gets a risk from its resolution hours (`Metrics.ClosedTicketFlagged`).
- The code does not de-duplicate keys, compute compliance flags, status categories or lead time, clamp negative durations, re-read with a header offset or resolve column synonyms, and neither does this model. Duplicate keys give one row per matching pair. Negative durations pass through unchanged (`Metrics.HoursBetweenSign`).

## Model

| member | source | states |
|---|---|---|
| `Processor.ProcessUploadedFiles` | data_processor.py:7-90 | the run (key check, merge loop, per-row fill loop) returns exactly `Process(pilot, sla, now)` |
| `Processor.KeyColumnRequired` | data_processor.py:19-21 | the run fails with the missing-key error exactly when `Chave` is absent from either table's columns, and then returns no rows |
| `Processor.NoMatchExactly` | data_processor.py:24-26 | with both key columns present, the run fails with the no-match error exactly when no pilot key equals any SLA key |
| `Processor.SuccessShape` | data_processor.py:19-90 | a run succeeds exactly when both tables have `Chave`, some keys match and every named column survives the merge; it then returns the 11 final columns in order and as many rows as merged pairs, never zero |
| `Processor.ResultRowsArePairs` | data_processor.py:24 | result row k comes from the k-th pair of a pilot row and an SLA row with equal keys; every such pair gives a row; the pairs are strictly ordered by pilot row, then SLA row, so none repeats |
| `Processor.ResultKeysInBoth` | data_processor.py:24 | every result row's `Chave` occurs in the pilot table and in the SLA table |
| `Processor.ResultRowRules` | data_processor.py:43-81 | per result row: budgets exist exactly for known priorities, with first response below resolution; durations are empty exactly when a timestamp is; aging is empty exactly when `Data_Cria` is; risk is N/A exactly when `Is_Open` is false, the priority is unbudgeted or `Data_Cria` is empty; the period is the month containing `Data_Cria` |
| `Processor.ColumnError` | data_processor.py:43-90 | no error exactly when every column the run reads survives the merge; otherwise a non-empty list of named columns the merged table lacks |
| `Processor.MissingOf` | data_processor.py:84-90 | lists exactly the requested columns that the merged table lacks |
| `Merge.InnerJoin` | data_processor.py:24 | the nested loops over pilot rows, then SLA rows, produce exactly `JoinPairs` |
| `Merge.JoinPairsExact` | data_processor.py:24 | a pair (i, j) is in the merge exactly when both indices are in range and the keys are equal; the merge is strictly ordered, so duplicates in either table give one entry per pair and are never collapsed |
| `Merge.JoinEmpty` | data_processor.py:24-26 | the merge is empty exactly when no pilot key equals any SLA key |
| `Merge.MergeRowSources` | data_processor.py:24 | a merged row keeps the pilot key and takes each named cell (`Projeto`, `Unidade_de_Negocio`, `Prioridade`, `Data_Cria`, `Data_Fecha`, `Data_Primeira_Resp`, `Is_Open`) from the pilot row when only the pilot has its column and from the SLA row when only the SLA table has it; `Is_Open` is empty when the merged table cannot read it |
| `Merge.MergeRow` | data_processor.py:24 | a merged row keeps the pilot key, and every named cell whose column the merged table cannot read is empty |
| `Merge.InMerged` | data_processor.py:24 | a named column is readable after the merge only if it is `Chave` or some table has it; a non-key column that both tables have is never readable under its own name |
| `Merge.JoinPairs` | data_processor.py:24 | every merged pair indexes a pilot row and an SLA row |
| `Processor.Process` | data_processor.py:7-90 | a successful run returns the 11 final columns and as many rows as merged pairs, at least one; a missing-column failure happens only when some column the run reads is unreadable after the merge |
| `Metrics.Budget` | data_processor.py:43-44 | `Series.map` with a dict: a value exactly when the cell is filled and the priority is a key of the table, and then the table's value for it |
| `Metrics.SlaResolutionHours` | data_processor.py:29-43 | a resolution budget exists exactly for Baixa, Média, Alta and Crítica, and it is positive |
| `Metrics.SlaFirstResponseHours` | data_processor.py:35-44 | a first-response budget exists exactly for the same four priorities, and it is positive |
| `Metrics.FirstResponseBeforeResolution` | data_processor.py:29-44 | both budgets exist for the same priorities, and the first-response budget is strictly below the resolution budget |
| `Metrics.HoursBetween` | data_processor.py:47-52 | a duration is empty exactly when either timestamp is; otherwise hours times 3600 equals the difference in seconds |
| `Metrics.ResolutionHours` | data_processor.py:47-49 | `HorasResolucao_Calculated` is empty exactly when `Data_Fecha` or `Data_Cria` is; otherwise hours × 3600 equals `Data_Fecha` − `Data_Cria` in seconds |
| `Metrics.FirstResponseHours` | data_processor.py:50-52 | `HorasPrimeiraResposta_Original` is empty exactly when `Data_Primeira_Resp` or `Data_Cria` is; otherwise hours × 3600 equals `Data_Primeira_Resp` − `Data_Cria` in seconds |
| `Metrics.HoursBetweenSign` | data_processor.py:47-52 | a duration is negative exactly when the later timestamp precedes the earlier one, and zero exactly when they are equal; there is no clamping |
| `Metrics.AgingMeaning` | data_processor.py:54-60 | aging is empty exactly when `Data_Cria` is; without `Data_Fecha` it is (now − `Data_Cria`) in hours; with it, it equals `HorasResolucao_Calculated` |
| `Metrics.AgingHours` | data_processor.py:54-60 | `Aging_Horas` is empty exactly when `Data_Cria` is |
| `Metrics.CheckRisk` | data_processor.py:63-75 | a risk other than N/A needs `Is_Open` not false, a positive budget and an aging; "Atuação necessária" means 5 × aging > 4 × budget and "OK" means 5 × aging ≤ 4 × budget |
| `Metrics.RiskCases` | data_processor.py:63-75 | `check_risk` is N/A exactly when `Is_Open` is false, or the budget is missing or not positive, or aging is missing; otherwise it is "Atuação necessária" exactly when 5 × aging > 4 × budget |
| `Metrics.RiskBoundary` | data_processor.py:72-75 | aging exactly at 0.8 × budget gives "OK", because the comparison is strict |
| `Metrics.RiskMonotone` | data_processor.py:72-75 | more aging never turns "Atuação necessária" back into "OK" |
| `Metrics.RiskInSeconds` | data_processor.py:47-75 | for a ticket that can be flagged, action is required exactly when 5 × (end − `Data_Cria`) in seconds exceeds 4 × 3600 × budget, where end is `now` while `Data_Fecha` is empty and `Data_Fecha` otherwise |
| `Metrics.CreatedPeriod` | data_processor.py:81 | `Periodo_Cria` is empty exactly when `Data_Cria` is (NaT); otherwise it is a month that contains the day of `Data_Cria` |
| `Metrics.Derive` | data_processor.py:43-90 | a result row carries the merged row's `Chave`, `Projeto`, `Unidade_de_Negocio` and `Prioridade`; both budgets are present or both absent; aging is empty exactly when `Data_Cria` is; a risk other than N/A has a budget and an aging |
| `Metrics.DerivedRiskNotApplicable` | data_processor.py:29-77 | in a result row the risk is N/A exactly when `Is_Open` is false, the priority has no budget, or `Data_Cria` is empty; the `<= 0` guard never fires on the run's own budgets |
| `Metrics.ClosedTicketFlagged` | data_processor.py:63-77 | a ticket closed after 10 hours at priority Alta, with no `Is_Open` value, is classified "Atuação necessária" |
| `Calendar.PeriodOf` | data_processor.py:81 | the period of a timestamp is a month, 1 to 12, whose days contain the timestamp's day |
| `Calendar.PeriodUnique` | data_processor.py:81 | the period is the only month that contains the timestamp's day |
| `Calendar.PeriodOfIsMonth` | data_processor.py:81 | the month is in 1..12, and the timestamp lies between the first second of that month and the first second of the next |
| `Calendar.PeriodExample` | data_processor.py:81 | 2024-01-01T00:00:00 falls in 2024-01, and the second before it falls in 2023-12 |
| `Calendar.YearWalk` | data_processor.py:81 | walking whole years reaches a year and a day inside it whose closed-form day count equals the starting one |
| `Calendar.MonthWalk` | data_processor.py:81 | walking months reaches a month in 1..12 whose days contain the given day of the year |

## Left out

- Spreadsheet decoding (`pd.read_excel` over `io.BytesIO`) and the `__main__` file reading are I/O. The model starts from two decoded tables.
- Parsing cells into timestamps (`pd.to_datetime` on text or mixed values, and the errors it raises) is left out. Timestamp cells are already integers or empty.
- The wall clock (`pd.Timestamp.now()`) is the parameter `now`.
- Floating point is left out. Durations and the 0.8 factor are exact rationals. Sub-second precision is dropped: timestamps are whole seconds.
- `Processor.ColumnError` reports the missing column names, not pandas' `KeyError` message text.
- The `_x`/`_y` renamed columns are not listed in the merged header. Only whether a named column is readable is modelled. Corner cases where a renamed column collides with an existing name are left out.
- The merge order assumes pandas 2.2 or later, where an inner merge lists rows in pilot order. Earlier pandas grouped the rows by key, in order of each key's first appearance in the pilot table.
- Key cells of different types (a number in one table, text in the other) are left out. Keys are text or empty.
- `Is_Open` cells that are not booleans (truthiness of arbitrary values) are left out. A cell is true, false or empty.
- `Periodo_Cria` is the pair (year, month), not a pandas `Period` object or its text.
- app.py (the Dash layout, callbacks, figures, KPIs and the upsert wrapper) and supabase_client.py (the network client, its singleton and logging) are UI and persistence. They are not part of this model.
