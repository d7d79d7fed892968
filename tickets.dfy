/** The values `process_uploaded_files` reads and writes: rows of the two
    uploaded spreadsheets (already decoded), the rows of the result table,
    and the errors the run can raise. */
module Tickets {

  import opened Calendar

  /** A spreadsheet cell that may be empty (NaN / NaT in the source). */
  datatype Option<+T> = None | Some(value: T)

  datatype Result<+R, +E> = Success(value: R) | Failure(error: E)

  /** Column names the run reads or writes, as they appear in the spreadsheets. */
  const KeyColumn: string := "Chave"
  const ProjectColumn: string := "Projeto"
  const BusinessUnitColumn: string := "Unidade_de_Negocio"
  const PriorityColumn: string := "Prioridade"
  const CreatedColumn: string := "Data_Cria"
  const ClosedColumn: string := "Data_Fecha"
  const FirstResponseColumn: string := "Data_Primeira_Resp"
  const IsOpenColumn: string := "Is_Open"

  /** The columns of the result table, in order. */
  const FinalColumns: seq<string> := [
    "Chave", "Projeto", "Unidade_de_Negocio", "Prioridade",
    "SLA_Horas_Resolucao", "SLA_Horas_Primeira_Resposta",
    "HorasResolucao_Calculated", "HorasPrimeiraResposta_Original",
    "Aging_Horas", "Status_Risco", "Periodo_Cria"
  ]

  /** One spreadsheet row, reduced to the cells of the columns the run names.
      Timestamps are naive, in whole seconds since 1970-01-01T00:00:00.
      A cell of a column the table does not have carries no meaning. */
  datatype Row = Row(
    key: Option<string>,              // Chave
    project: Option<string>,          // Projeto
    businessUnit: Option<string>,     // Unidade_de_Negocio
    priority: Option<string>,         // Prioridade
    createdAt: Option<int>,           // Data_Cria
    closedAt: Option<int>,            // Data_Fecha
    firstResponseAt: Option<int>,     // Data_Primeira_Resp
    isOpen: Option<bool>              // Is_Open
  )

  /** A decoded spreadsheet: its header and its rows. */
  datatype Table = Table(columns: set<string>, rows: seq<Row>)

  /** The three values of `Status_Risco`. */
  datatype Risk = NotApplicable | ActionRequired | Fine {
    function Label(): string {
      match this
      case NotApplicable => "N/A"
      case ActionRequired => "Atuação necessária"
      case Fine => "OK"
    }
  }

  /** One row of the result table, one field per entry of FinalColumns.
      Durations are exact hours (seconds / 3600). */
  datatype Ticket = Ticket(
    key: Option<string>,
    project: Option<string>,
    businessUnit: Option<string>,
    priority: Option<string>,
    slaResolutionHours: Option<int>,
    slaFirstResponseHours: Option<int>,
    resolutionHours: Option<real>,
    firstResponseHours: Option<real>,
    agingHours: Option<real>,
    risk: Risk,
    createdPeriod: Option<Period>
  )

  /** The result table: its header and its rows. */
  datatype Frame = Frame(columns: seq<string>, rows: seq<Ticket>)

  /** Why a run fails: the ValueError for a missing key column, the ValueError for
      an empty merge, and the KeyError for a named column the merged table lacks. */
  datatype Error = MissingKeyColumn | NoMatch | MissingColumns(names: seq<string>)
}
