/** The per-row rules of `process_uploaded_files`: SLA budgets by priority,
    durations in hours, aging, `check_risk` and the creation period. */
module Metrics {

  import opened Calendar
  import opened Tickets

  const SecondsPerHour: int := 3600

  /** The priorities both SLA tables know. */
  const Priorities: set<string> := {"Baixa", "Média", "Alta", "Crítica"}

  /** Resolution budget in hours by priority (`sla_map_res`). */
  const ResolutionBudget: map<string, int> := map["Baixa" := 72, "Média" := 24, "Alta" := 8, "Crítica" := 4]

  /** First-response budget in hours by priority (`sla_map_resp`). */
  const FirstResponseBudget: map<string, int> := map["Baixa" := 24, "Média" := 8, "Alta" := 2, "Crítica" := 1]

  /** `Series.map(dict)`: the budget of a priority, empty for an empty cell or an unknown priority. */
  function Budget(table: map<string, int>, priority: Option<string>): (r: Option<int>)
    ensures r.Some? <==> priority.Some? && priority.value in table
    ensures r.Some? ==> r.value == table[priority.value]
  {
    if priority.Some? && priority.value in table then Some(table[priority.value]) else None
  }

  /** `SLA_Horas_Resolucao`. */
  function SlaResolutionHours(priority: Option<string>): (r: Option<int>)
    ensures r.Some? <==> priority.Some? && priority.value in Priorities
    ensures r.Some? ==> r.value > 0
  {
    Budget(ResolutionBudget, priority)
  }

  /** `SLA_Horas_Primeira_Resposta`. */
  function SlaFirstResponseHours(priority: Option<string>): (r: Option<int>)
    ensures r.Some? <==> priority.Some? && priority.value in Priorities
    ensures r.Some? ==> r.value > 0
  {
    Budget(FirstResponseBudget, priority)
  }

  /** Both budgets exist for the same priorities, and for each of them the first
      response is due strictly before the resolution. */
  lemma FirstResponseBeforeResolution(priority: Option<string>)
    ensures SlaResolutionHours(priority).Some? <==> SlaFirstResponseHours(priority).Some?
    ensures SlaResolutionHours(priority).Some? ==>
              SlaFirstResponseHours(priority).value < SlaResolutionHours(priority).value
  {
  }

  /** `(later - earlier).total_seconds() / 3600`: empty when either timestamp is,
      never clamped, so negative when `later` precedes `earlier`. */
  function HoursBetween(later: Option<int>, earlier: Option<int>): (r: Option<real>)
    ensures r.None? <==> later.None? || earlier.None?
    ensures r.Some? ==> r.value * SecondsPerHour as real == (later.value - earlier.value) as real
  {
    if later.Some? && earlier.Some? then
      Some((later.value - earlier.value) as real / SecondsPerHour as real)
    else
      None
  }

  /** A duration in hours has the sign of the difference of its timestamps. */
  lemma HoursBetweenSign(later: int, earlier: int)
    ensures HoursBetween(Some(later), Some(earlier)).value < 0.0 <==> later < earlier
    ensures HoursBetween(Some(later), Some(earlier)).value == 0.0 <==> later == earlier
  {
  }

  /** `HorasResolucao_Calculated`. */
  function ResolutionHours(row: Row): (r: Option<real>)
    ensures r.None? <==> row.closedAt.None? || row.createdAt.None?
    ensures r.Some? ==> r.value * 3600.0 == (row.closedAt.value - row.createdAt.value) as real
  {
    HoursBetween(row.closedAt, row.createdAt)
  }

  /** `HorasPrimeiraResposta_Original`. */
  function FirstResponseHours(row: Row): (r: Option<real>)
    ensures r.None? <==> row.firstResponseAt.None? || row.createdAt.None?
    ensures r.Some? ==> r.value * 3600.0 == (row.firstResponseAt.value - row.createdAt.value) as real
  {
    HoursBetween(row.firstResponseAt, row.createdAt)
  }

  /** `Aging_Horas`: hours since creation while `Data_Fecha` is empty, the
      resolution hours once it is filled. */
  function AgingHours(row: Row, now: int): (r: Option<real>)
    ensures r.None? <==> row.createdAt.None?
  {
    if row.closedAt.None? then HoursBetween(Some(now), row.createdAt) else ResolutionHours(row)
  }

  /** Aging is empty exactly when the creation date is; it counts up to `now`
      for a ticket without a closing date and equals the resolution hours otherwise. */
  lemma AgingMeaning(row: Row, now: int)
    ensures AgingHours(row, now).None? <==> row.createdAt.None?
    ensures row.closedAt.None? && row.createdAt.Some? ==>
              AgingHours(row, now).value * 3600.0 == (now - row.createdAt.value) as real
    ensures row.closedAt.Some? ==> AgingHours(row, now) == ResolutionHours(row)
  {
  }

  /** `check_risk`. A missing `Is_Open` column reads as open (`row.get("Is_Open", True)`),
      and so does an empty cell, since NaN is truthy. */
  function CheckRisk(isOpen: Option<bool>, sla: Option<int>, aging: Option<real>): (r: Risk)
    ensures r != NotApplicable ==> isOpen != Some(false) && sla.Some? && sla.value > 0 && aging.Some?
    ensures r == ActionRequired ==> 5.0 * aging.value > 4.0 * sla.value as real
    ensures r == Fine ==> 5.0 * aging.value <= 4.0 * sla.value as real
  {
    if isOpen == Some(false) || sla.None? || sla.value <= 0 || aging.None? then NotApplicable
    else if aging.value > 0.8 * sla.value as real then ActionRequired
    else Fine
  }

  /** The risk is N/A exactly when the ticket is marked closed or a budget or
      aging is missing or the budget is not positive; otherwise action is
      required exactly when aging passes four fifths of the budget, strictly. */
  lemma RiskCases(isOpen: Option<bool>, sla: Option<int>, aging: Option<real>)
    ensures CheckRisk(isOpen, sla, aging) == NotApplicable <==>
              isOpen == Some(false) || sla.None? || sla.value <= 0 || aging.None?
    ensures CheckRisk(isOpen, sla, aging) == ActionRequired <==>
              isOpen != Some(false) && sla.Some? && sla.value > 0 && aging.Some? &&
              5.0 * aging.value > 4.0 * sla.value as real
  {
  }

  /** At exactly four fifths of the budget the ticket is still OK. */
  lemma RiskBoundary(isOpen: Option<bool>, sla: int)
    requires isOpen != Some(false) && sla > 0
    ensures CheckRisk(isOpen, Some(sla), Some(0.8 * sla as real)) == Fine
  {
  }

  /** Risk only grows with aging: once action is required, more hours keep it so. */
  lemma RiskMonotone(isOpen: Option<bool>, sla: Option<int>, a: real, b: real)
    requires a <= b
    ensures CheckRisk(isOpen, sla, Some(a)) == ActionRequired ==> CheckRisk(isOpen, sla, Some(b)) == ActionRequired
    ensures CheckRisk(isOpen, sla, Some(b)) == Fine ==> CheckRisk(isOpen, sla, Some(a)) == Fine
  {
  }

  /** The threshold in whole seconds: for a row the run can flag, action is required
      exactly when 5 * (end - Data_Cria) > 4 * 3600 * budget, where `end` is `now`
      for a ticket without a closing date and `Data_Fecha` otherwise. */
  lemma RiskInSeconds(row: Row, now: int)
    requires row.isOpen != Some(false) && row.createdAt.Some?
    requires SlaResolutionHours(row.priority).Some?
    ensures var end := if row.closedAt.None? then now else row.closedAt.value;
            CheckRisk(row.isOpen, SlaResolutionHours(row.priority), AgingHours(row, now)) == ActionRequired
            <==> 5 * (end - row.createdAt.value) > 4 * SecondsPerHour * SlaResolutionHours(row.priority).value
  {
  }

  /** `Periodo_Cria`: the month of the creation date, empty when it is. */
  function CreatedPeriod(row: Row): (r: Option<Period>)
    ensures r.None? <==> row.createdAt.None?
    ensures r.Some? ==> InMonth(DayOf(row.createdAt.value), r.value)
  {
    if row.createdAt.Some? then Some(PeriodOf(row.createdAt.value)) else None
  }

  /** The result row built from one merged row (the columns assigned one after another). */
  function Derive(row: Row, now: int): (t: Ticket)
    ensures t.key == row.key && t.project == row.project
    ensures t.businessUnit == row.businessUnit && t.priority == row.priority
    ensures t.slaResolutionHours.Some? <==> t.slaFirstResponseHours.Some?
    ensures t.agingHours.None? <==> row.createdAt.None?
    ensures t.risk != NotApplicable ==> t.slaResolutionHours.Some? && t.agingHours.Some?
  {
    var sla := SlaResolutionHours(row.priority);
    var aging := AgingHours(row, now);
    Ticket(
      row.key, row.project, row.businessUnit, row.priority,
      sla, SlaFirstResponseHours(row.priority),
      ResolutionHours(row), FirstResponseHours(row),
      aging, CheckRisk(row.isOpen, sla, aging), CreatedPeriod(row))
  }

  /** In a result row the risk is N/A exactly when `Is_Open` is false, the priority
      has no budget, or the creation date is empty: the budgets are positive, so
      the `<= 0` guard of `check_risk` never fires here. */
  lemma DerivedRiskNotApplicable(row: Row, now: int)
    ensures Derive(row, now).risk == NotApplicable <==>
              row.isOpen == Some(false) || !(row.priority.Some? && row.priority.value in Priorities) ||
              row.createdAt.None?
  {
  }

  /** What `Is_Open` defaults to leaves a ticket with a closing date exposed to
      the risk rule: closed after 10 hours at priority Alta, with no `Is_Open`
      cell, its risk reads "Atuação necessária". */
  lemma ClosedTicketFlagged()
    ensures Derive(Row(Some("T1"), None, None, Some("Alta"), Some(0), Some(36000), None, None), 0).risk == ActionRequired
  {
  }
}
