/**
 * The record types the type-checking tool returns (src/pyright_mcp/models.py).
 * Field defaults of the Python records are the constructors' default values.
 */
module Models {
  import opened Wrappers

  /** A point in a source file as the checker reports it: a mapping such as {"line": 3, "character": 7}. */
  type Position = map<string, int>

  /** The span of a diagnostic. Both ends are required. */
  datatype DiagnosticRange = DiagnosticRange(start: Position, end: Position)

  /** One diagnostic. Only `rule` has a default. */
  datatype Diagnostic = Diagnostic(
    file: string,
    severity: string,
    message: string,
    rule: Option<string> := None,
    range: DiagnosticRange)

  /** Summary counts of one analysis; every field defaults to zero. */
  datatype PyrightSummary = PyrightSummary(
    filesAnalyzed: int := 0,
    errorCount: int := 0,
    warningCount: int := 0,
    informationCount: int := 0,
    timeInSec: real := 0.0)

  /** Pagination metadata; the defaults describe the first page of an empty listing. */
  datatype PaginationInfo = PaginationInfo(
    currentPage: int := 1,
    totalPages: int := 1,
    pageSize: int := 50,
    totalDiagnostics: int := 0,
    hasNextPage: bool := false,
    hasPreviousPage: bool := false)

  /** The complete result of one analysis; only the summary is required. */
  datatype PyrightResult = PyrightResult(
    summary: PyrightSummary,
    diagnostics: seq<Diagnostic> := [],
    version: Option<string> := None,
    pagination: Option<PaginationInfo> := None)

  /**
   * What pagination metadata promises about itself: the page lies between 1 and the page count,
   * the page count is the ceiling of total / pageSize but at least 1, and the two flags say
   * whether a later and an earlier page exist.
   */
  predicate ConsistentPagination(p: PaginationInfo) {
    && p.pageSize >= 1
    && p.totalDiagnostics >= 0
    && 1 <= p.currentPage <= p.totalPages
    && (if p.totalDiagnostics == 0 then p.totalPages == 1
        else (p.totalPages - 1) * p.pageSize < p.totalDiagnostics <= p.totalPages * p.pageSize)
    && (p.hasNextPage <==> p.currentPage < p.totalPages)
    && (p.hasPreviousPage <==> p.currentPage > 1)
  }

  /** The position, counting from zero, of the first diagnostic on the current page. */
  function FirstIndex(p: PaginationInfo): int {
    (p.currentPage - 1) * p.pageSize
  }

  /** The default pagination record is consistent: one empty page of fifty. */
  lemma DefaultPaginationConsistent()
    ensures var p := PaginationInfo();
      && ConsistentPagination(p)
      && p.currentPage == 1 && p.totalPages == 1 && p.pageSize == 50 && p.totalDiagnostics == 0
      && !p.hasNextPage && !p.hasPreviousPage
  {
  }

  /** A summary built without arguments has all counts and the time equal to zero. */
  lemma DefaultSummaryIsZero()
    ensures var s := PyrightSummary();
      s.filesAnalyzed == 0 && s.errorCount == 0 && s.warningCount == 0
      && s.informationCount == 0 && s.timeInSec == 0.0
  {
  }

  /** A diagnostic built without a rule has none; the other four fields have no default. */
  lemma DiagnosticRuleDefault(file: string, severity: string, message: string, range: DiagnosticRange)
    ensures var d := Diagnostic(file := file, severity := severity, message := message, range := range);
      d.rule == None && d.file == file && d.severity == severity && d.message == message && d.range == range
  {
  }

  /** A result built from a summary alone has no diagnostics, no version and no pagination. */
  lemma ResultDefaults(summary: PyrightSummary)
    ensures var r := PyrightResult(summary);
      r.summary == summary && r.diagnostics == [] && r.version == None && r.pagination == None
  {
  }
}
