/**
 * Turning the checker's raw JSON into a typed, paginated result
 * (paginate_diagnostics and transform_pyright_output in src/pyright_mcp/server.py).
 */
module Server {
  import opened Wrappers
  import opened Models
  import opened Sequences

  function Max(a: int, b: int): int { if a >= b then a else b }
  function Min(a: int, b: int): int { if a <= b then a else b }

  // ---------------------------------------------------------------------------
  // Pagination
  // ---------------------------------------------------------------------------

  /** The number of pages: the ceiling of n / pageSize, and one page when there is nothing to show. */
  function TotalPages(n: nat, pageSize: int): (r: int)
    requires pageSize >= 1
    ensures r >= 1
    ensures n == 0 ==> r == 1
    ensures n > 0 ==> (r - 1) * pageSize < n <= r * pageSize
  {
    var q := (n + pageSize - 1) / pageSize;
    assert q * pageSize <= n + pageSize - 1 < q * pageSize + pageSize;
    Max(1, q)
  }

  /** The requested page moved into [1, totalPages]: out-of-range requests are clamped, never refused. */
  function ClampPage(page: int, totalPages: int): (r: int)
    requires totalPages >= 1
    ensures 1 <= r <= totalPages
    ensures 1 <= page <= totalPages ==> r == page
    ensures page < 1 ==> r == 1
    ensures page > totalPages ==> r == totalPages
  {
    Max(1, Min(page, totalPages))
  }

  /** One page of a listing together with the metadata that describes the whole listing. */
  datatype Paged<T> = Paged(page: seq<T>, info: PaginationInfo)

  /** Multiplication by a positive number keeps the order. */
  lemma MulMonotonic(a: int, b: int, c: int)
    requires a <= b && c >= 0
    ensures a * c <= b * c
  {
  }

  /**
   * Cuts page `page` (1-based, clamped) of `pageSize` items out of `items`. The page holds the
   * items from (p - 1) * pageSize on, in order, as many as fit; the metadata is consistent.
   */
  function PaginateDiagnostics<T>(items: seq<T>, page: int, pageSize: int): (r: Paged<T>)
    requires pageSize >= 1
    ensures r.info.totalDiagnostics == |items| && r.info.pageSize == pageSize
    ensures r.info.totalPages == TotalPages(|items|, pageSize)
    ensures r.info.currentPage == ClampPage(page, r.info.totalPages)
    ensures r.info.hasNextPage <==> r.info.currentPage < r.info.totalPages
    ensures r.info.hasPreviousPage <==> r.info.currentPage > 1
    ensures 0 <= FirstIndex(r.info) <= |items|
    ensures |r.page| == Min(pageSize, |items| - FirstIndex(r.info))
    ensures forall k :: 0 <= k < |r.page| ==> r.page[k] == items[FirstIndex(r.info) + k]
  {
    var total := |items|;
    var totalPages := TotalPages(total, pageSize);
    var p := ClampPage(page, totalPages);
    var startIdx := (p - 1) * pageSize;
    MulMonotonic(0, p - 1, pageSize);
    MulMonotonic(p - 1, totalPages - 1, pageSize);
    var endIdx := Min(startIdx + pageSize, total);
    Paged(items[startIdx..endIdx], PaginationInfo(
      currentPage := p,
      totalPages := totalPages,
      pageSize := pageSize,
      totalDiagnostics := total,
      hasNextPage := p < totalPages,
      hasPreviousPage := p > 1))
  }

  /** The metadata of every page satisfies the pagination invariant. */
  lemma PaginationIsConsistent<T>(items: seq<T>, page: int, pageSize: int)
    requires pageSize >= 1
    ensures ConsistentPagination(PaginateDiagnostics(items, page, pageSize).info)
  {
  }

  /** When there is anything to show, every page, whatever was requested, shows something. */
  lemma {:induction false} PageNeverEmpty<T>(items: seq<T>, page: int, pageSize: int)
    requires pageSize >= 1 && |items| > 0
    ensures |PaginateDiagnostics(items, page, pageSize).page| >= 1
  {
    var r := PaginateDiagnostics(items, page, pageSize);
    MulMonotonic(r.info.currentPage - 1, r.info.totalPages - 1, pageSize);
  }

  /** Pages 1 .. k of `items`, one after the other. */
  function ConcatPages<T>(items: seq<T>, pageSize: int, k: nat): seq<T>
    requires pageSize >= 1
  {
    if k == 0 then [] else ConcatPages(items, pageSize, k - 1) + PaginateDiagnostics(items, k, pageSize).page
  }

  /** Page k, when it exists, starts within the listing, and page k + 1 starts pageSize later. */
  lemma PageStartBounds(n: nat, pageSize: int, k: int)
    requires pageSize >= 1 && 1 <= k <= TotalPages(n, pageSize)
    ensures 0 <= (k - 1) * pageSize <= n
    ensures (k - 1) * pageSize + pageSize == k * pageSize
  {
    MulMonotonic(0, k - 1, pageSize);
    MulMonotonic(k - 1, TotalPages(n, pageSize) - 1, pageSize);
  }

  /** A sequence that agrees element by element with a slice is that slice. */
  lemma SliceByElements<T>(page: seq<T>, items: seq<T>, start: int, end: int)
    requires 0 <= start <= end <= |items| && |page| == end - start
    requires forall k :: 0 <= k < |page| ==> page[k] == items[start + k]
    ensures page == items[start..end]
  {
  }

  /** Page k, when it exists, is the slice of items from (k - 1) * pageSize up to k * pageSize. */
  lemma PageSlice<T>(items: seq<T>, pageSize: int, k: int)
    requires pageSize >= 1 && 1 <= k <= TotalPages(|items|, pageSize)
    ensures (k - 1) * pageSize <= |items|
    ensures PaginateDiagnostics(items, k, pageSize).page
      == items[(k - 1) * pageSize..Min((k - 1) * pageSize + pageSize, |items|)]
  {
    var r := PaginateDiagnostics(items, k, pageSize);
    PageStartBounds(|items|, pageSize, k);
    var start := (k - 1) * pageSize;
    assert FirstIndex(r.info) == start;
    SliceByElements(r.page, items, start, Min(start + pageSize, |items|));
  }

  lemma PrefixSplit<T>(items: seq<T>, a: int, b: int)
    requires 0 <= a <= b <= |items|
    ensures items[..a] + items[a..b] == items[..b]
  {
  }

  /** The first k pages are the first k * pageSize items (or all of them). */
  lemma {:induction false} ConcatPagesIsPrefix<T>(items: seq<T>, pageSize: int, k: nat)
    requires pageSize >= 1 && k <= TotalPages(|items|, pageSize)
    ensures ConcatPages(items, pageSize, k) == items[..Min(k * pageSize, |items|)]
  {
    if k > 0 {
      ConcatPagesIsPrefix(items, pageSize, k - 1);
      PageSlice(items, pageSize, k);
      PageStartBounds(|items|, pageSize, k);
      var start := (k - 1) * pageSize;
      var end := Min(start + pageSize, |items|);
      assert Min(start, |items|) == start;
      assert end == Min(k * pageSize, |items|);
      PrefixSplit(items, start, end);
    }
  }

  /** Concatenating every page in order gives back the whole listing: nothing lost, nothing repeated. */
  lemma {:induction false} PagesReassemble<T>(items: seq<T>, pageSize: int)
    requires pageSize >= 1
    ensures ConcatPages(items, pageSize, TotalPages(|items|, pageSize)) == items
  {
    ConcatPagesIsPrefix(items, pageSize, TotalPages(|items|, pageSize));
    assert items[..|items|] == items;
  }

  /** Paginating nothing with the default page size gives the default metadata. */
  lemma EmptyListingMetadataIsDefault<T>(items: seq<T>)
    requires items == []
    ensures PaginateDiagnostics(items, 1, 50) == Paged([], PaginationInfo())
  {
  }

  /** Twenty-five items in pages of ten: page 3 holds items 20 to 24 and is the last page. */
  lemma LastPartialPage<T>(items: seq<T>)
    requires |items| == 25
    ensures var r := PaginateDiagnostics(items, 3, 10);
      && r.page == items[20..25]
      && r.info.currentPage == 3 && r.info.totalPages == 3
      && !r.info.hasNextPage && r.info.hasPreviousPage
  {
    var r := PaginateDiagnostics(items, 3, 10);
    assert TotalPages(25, 10) == 3;
    assert r.page == items[20..25];
  }

  // ---------------------------------------------------------------------------
  // The checker's raw output
  // ---------------------------------------------------------------------------

  /** A raw "range" object; either end may be missing. */
  datatype RawRange = RawRange(start: Option<Position>, end: Option<Position>)

  /** A raw entry of "generalDiagnostics"; every key may be missing. */
  datatype RawDiagnostic = RawDiagnostic(
    file: Option<string>,
    severity: Option<string>,
    message: Option<string>,
    rule: Option<string>,
    range: Option<RawRange>)

  /** A raw "summary" object; every key may be missing. */
  datatype RawSummary = RawSummary(
    filesAnalyzed: Option<int>,
    errorCount: Option<int>,
    warningCount: Option<int>,
    informationCount: Option<int>,
    timeInSec: Option<real>)

  /** The checker's whole JSON output, reduced to the keys that are read. */
  datatype RawOutput = RawOutput(
    version: Option<string>,
    generalDiagnostics: Option<seq<RawDiagnostic>>,
    summary: Option<RawSummary>)

  /** The position that stands in for a missing end of a range. */
  function ZeroPosition(): Position {
    map["line" := 0, "character" := 0]
  }

  /** The summary is read key by key; a missing summary reads as an empty one. */
  function ReadSummary(raw: Option<RawSummary>): (s: PyrightSummary)
    ensures raw == None ==> s == PyrightSummary()
    ensures raw.Some? ==>
      && s.filesAnalyzed == raw.value.filesAnalyzed.GetOr(0)
      && s.errorCount == raw.value.errorCount.GetOr(0)
      && s.warningCount == raw.value.warningCount.GetOr(0)
      && s.informationCount == raw.value.informationCount.GetOr(0)
      && s.timeInSec == raw.value.timeInSec.GetOr(0.0)
  {
    var r := raw.GetOr(RawSummary(None, None, None, None, None));
    PyrightSummary(
      filesAnalyzed := r.filesAnalyzed.GetOr(0),
      errorCount := r.errorCount.GetOr(0),
      warningCount := r.warningCount.GetOr(0),
      informationCount := r.informationCount.GetOr(0),
      timeInSec := r.timeInSec.GetOr(0.0))
  }

  /** An entry is kept exactly when its file, read with "" as the default, is not empty. */
  predicate HasFile(d: RawDiagnostic) {
    d.file.GetOr("") != ""
  }

  /** The range of an entry: each end defaults to line 0, character 0 on its own. */
  function ReadRange(raw: Option<RawRange>): DiagnosticRange {
    var r := raw.GetOr(RawRange(None, None));
    DiagnosticRange(start := r.start.GetOr(ZeroPosition()), end := r.end.GetOr(ZeroPosition()))
  }

  /** The typed diagnostic for an entry, each key read with its default. */
  function ReadDiagnostic(d: RawDiagnostic): Diagnostic {
    Diagnostic(
      file := d.file.GetOr(""),
      severity := d.severity.GetOr("error"),
      message := d.message.GetOr(""),
      rule := d.rule,
      range := ReadRange(d.range))
  }

  /**
   * Each field of a diagnostic falls back to its own default, independently of the others:
   * severity "error", message "", no rule, and line 0, character 0 for each missing end.
   */
  lemma ReadDiagnosticDefaults(d: RawDiagnostic)
    ensures var r := ReadDiagnostic(d);
      && (r.file == if d.file.Some? then d.file.value else "")
      && (HasFile(d) <==> r.file != "")
      && (r.severity == if d.severity.Some? then d.severity.value else "error")
      && (r.message == if d.message.Some? then d.message.value else "")
      && r.rule == d.rule
      && (d.range.Some? && d.range.value.start.Some? ==> r.range.start == d.range.value.start.value)
      && (d.range.None? || d.range.value.start.None? ==> r.range.start == ZeroPosition())
      && (d.range.Some? && d.range.value.end.Some? ==> r.range.end == d.range.value.end.value)
      && (d.range.None? || d.range.value.end.None? ==> r.range.end == ZeroPosition())
  {
  }

  /** The typed diagnostics for the kept entries of `ds`, in input order. */
  function KeptDiagnostics(ds: seq<RawDiagnostic>): seq<Diagnostic> {
    MapKept(HasFile, ReadDiagnostic, ds)
  }

  /**
   * The kept diagnostics are exactly the raw entries with a non-empty file, converted one by one,
   * in input order: the k-th of them comes from the k-th such entry, and names a file. The entries
   * used are exactly those with a non-empty file, each once, in increasing order.
   */
  lemma KeptDiagnosticsAreSelection(ds: seq<RawDiagnostic>)
    ensures |KeptDiagnostics(ds)| == |KeptIndices(HasFile, ds)| <= |ds|
    ensures forall k :: 0 <= k < |KeptDiagnostics(ds)| ==>
      KeptDiagnostics(ds)[k] == ReadDiagnostic(ds[KeptIndices(HasFile, ds)[k]])
      && KeptDiagnostics(ds)[k].file != ""
    ensures StrictlyIncreasing(KeptIndices(HasFile, ds))
    ensures forall i :: 0 <= i < |ds| ==> (HasFile(ds[i]) <==> i in KeptIndices(HasFile, ds))
  {
    MapKeptIsSelection(HasFile, ReadDiagnostic, ds);
    KeptIndicesExact(HasFile, ds);
  }

  /** One kept diagnostic at a time: the j-th is the conversion of the j-th entry that names a file. */
  lemma KeptDiagnosticAt(ds: seq<RawDiagnostic>, j: int)
    ensures |KeptDiagnostics(ds)| == |KeptIndices(HasFile, ds)|
    ensures 0 <= j < |KeptDiagnostics(ds)| ==>
      KeptDiagnostics(ds)[j] == ReadDiagnostic(ds[KeptIndices(HasFile, ds)[j]])
  {
    KeptDiagnosticsAreSelection(ds);
  }

  /** Dropping and converting entries commutes with splitting the input. */
  lemma KeptDiagnosticsAppend(a: seq<RawDiagnostic>, b: seq<RawDiagnostic>)
    ensures KeptDiagnostics(a + b) == KeptDiagnostics(a) + KeptDiagnostics(b)
  {
    MapKeptAppend(HasFile, ReadDiagnostic, a, b);
  }

  /**
   * `page` is a run of consecutive raw entries that name a file, converted: its k-th diagnostic
   * comes from the (start + k)-th such entry.
   */
  predicate IsConvertedRun(page: seq<Diagnostic>, start: int, entries: seq<RawDiagnostic>) {
    && 0 <= start && start + |page| <= |KeptIndices(HasFile, entries)|
    && forall k :: 0 <= k < |page| ==> page[k] == ReadDiagnostic(entries[KeptIndices(HasFile, entries)[start + k]])
  }

  /**
   * `page` with metadata `info` is a page of the raw entries that name a file: `info` counts all
   * such entries, and the page is the converted run of them from the current page's first index.
   */
  predicate IsPageOfKeptEntries(page: seq<Diagnostic>, info: PaginationInfo, entries: seq<RawDiagnostic>) {
    && info.totalDiagnostics == |KeptIndices(HasFile, entries)|
    && |page| <= info.pageSize
    && IsConvertedRun(page, FirstIndex(info), entries)
  }

  /** A run of consecutive kept diagnostics comes from consecutive entries that name a file. */
  lemma SliceOfKept(entries: seq<RawDiagnostic>, page: seq<Diagnostic>, start: int)
    requires 0 <= start && start + |page| <= |KeptDiagnostics(entries)|
    requires forall k :: 0 <= k < |page| ==> page[k] == KeptDiagnostics(entries)[start + k]
    ensures IsConvertedRun(page, start, entries)
  {
    KeptDiagnosticAt(entries, 0);
    forall k | 0 <= k < |page| ensures page[k] == ReadDiagnostic(entries[KeptIndices(HasFile, entries)[start + k]]) {
      KeptDiagnosticAt(entries, start + k);
    }
  }

  /** Paginating the kept diagnostics gives a page of consecutive kept entries. */
  lemma PageOfKeptEntries(entries: seq<RawDiagnostic>, page: int, pageSize: int)
    requires pageSize >= 1
    ensures var paged := PaginateDiagnostics(KeptDiagnostics(entries), page, pageSize);
      IsPageOfKeptEntries(paged.page, paged.info, entries)
  {
    var paged := PaginateDiagnostics(KeptDiagnostics(entries), page, pageSize);
    KeptDiagnosticAt(entries, 0);
    SliceOfKept(entries, paged.page, FirstIndex(paged.info));
  }

  /**
   * transform_pyright_output: reads the summary and version, keeps and converts the entries that
   * name a file, and returns the requested page of them with metadata about all of them.
   */
  method TransformPyrightOutput(raw: RawOutput, page: int := 1, pageSize: int := 50) returns (result: PyrightResult)
    requires pageSize >= 1
    ensures result.summary == ReadSummary(raw.summary)
    ensures result.version == raw.version
    ensures var kept := KeptDiagnostics(raw.generalDiagnostics.GetOr([]));
      && result.pagination == Some(PaginateDiagnostics(kept, page, pageSize).info)
      && result.diagnostics == PaginateDiagnostics(kept, page, pageSize).page
    ensures forall k :: 0 <= k < |result.diagnostics| ==> result.diagnostics[k].file != ""
    ensures result.pagination.Some?
      && IsPageOfKeptEntries(result.diagnostics, result.pagination.value, raw.generalDiagnostics.GetOr([]))
  {
    var summary := ReadSummary(raw.summary);
    var entries := raw.generalDiagnostics.GetOr([]);
    var diagnostics: seq<Diagnostic> := [];
    for i := 0 to |entries|
      invariant diagnostics == KeptDiagnostics(entries[..i])
    {
      var diag := entries[i];
      assert entries[..i + 1][..i] == entries[..i];
      if !HasFile(diag) {
        continue;
      }
      diagnostics := diagnostics + [ReadDiagnostic(diag)];
    }
    assert entries[..|entries|] == entries;
    assert diagnostics == KeptDiagnostics(entries);
    var paged := PaginateDiagnostics(diagnostics, page, pageSize);
    PageOfKeptEntries(entries, page, pageSize);
    result := PyrightResult(
      summary := summary,
      diagnostics := paged.page,
      version := raw.version,
      pagination := Some(paged.info));
  }
}
