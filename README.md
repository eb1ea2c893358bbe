# pyright-hand, modelled in Dafny

pyright-hand is a small server that runs the Pyright type checker over a fixed
project directory and returns typed, paginated results. This project models its
algorithmic core and proves properties of the model:

- **Records** (`models.dfy`, module `Models`). The result records of
  `src/pyright_mcp/models.py` are datatypes. Their Python field defaults are the
  constructors' default values.
- **Result transformation and pagination** (`server.dfy`, module `Server`).
  - The checker's loosely typed JSON output is a datatype whose keys are `Option`
    fields. `None` means the key is missing.
  - `TransformPyrightOutput` is a method. Its loop drops the entries that name no
    file and converts the rest with per-field defaults. It then hands the whole
    filtered list to `PaginateDiagnostics`, which is pure: a ceiling division, a
    clamp and a slice.
  - The loop is proved against the pure selection `KeptDiagnostics`.
  - The pages are proved to reassemble the listing exactly.
- **File discovery** (`file_finder.dfy`, module `FileFinder`).
  - `FindPythonFiles` builds the ordered ignore-pattern list: 14 defaults, then the
    caller's patterns, then the `.gitignore` lines.
  - It walks a directory tree top-down, pruning matched subdirectories before
    descending, and keeps the `.py`/`.pyi` files whose root-relative path does not
    match.
  - It returns the files sorted.
  - The walk is a method with an explicit stack of pending directories. It is
    proved equal to the recursive specification `Walk`. `Walk` is in turn
    characterised by `Discovered`, a reference definition stating which files are
    returned, and the proof covers both directions.
  - The gitwildmatch matcher comes from the `pathspec` library, so it is a
    function-valued parameter.
- **Support modules.**
  - `Wrappers`: `Option` and `Result`.
  - `Sequences`: `[f(x) for x in s if keep(x)]` as `MapKept`, with its selection
    lemmas.
  - `Strings`: `str.strip`, `startswith`, `endswith` and Python's `str` order.
  - `Paths`: `os.path.join`, and `os.path.relpath` below a root.
  - `Sorting`: `sorted` as insertion sort, proved sorted and a permutation, and
    proved to be the unique sorted permutation.

Subdirectories and files are matched on different strings. Subdirectories are matched
on `os.path.join(dirpath, d)` (`src/pyright_mcp/file_finder.py:69`), an absolute path
under the resolved root. Files are matched on the root-relative `os.path.relpath`
(`src/pyright_mcp/file_finder.py:75-77`). `SubFrames` and `Listed` pass exactly these
strings to the matcher.

The tests in `tests/test_server.py:148-173` exercise a single-file branch (`is_file`,
`suffix`) that `server.py` does not have. The model follows `server.py`.

## Model

| member | source | states |
|---|---|---|
| Models.DefaultSummaryIsZero | src/pyright_mcp/models.py:25-32 | A summary built without arguments has every count 0 and `timeInSec` 0.0. |
| Models.DefaultPaginationConsistent | src/pyright_mcp/models.py:35-43 | The default pagination record is page 1 of 1, size 50, 0 diagnostics, both flags false, and it satisfies the pagination invariant `ConsistentPagination`. |
| Models.DiagnosticRuleDefault | src/pyright_mcp/models.py:15-22 | A diagnostic built without a rule has rule `None`; the other fields are the ones given. |
| Models.ResultDefaults | src/pyright_mcp/models.py:46-52 | A result built from a summary alone has no diagnostics, no version and no pagination. |
| Server.TotalPages | src/pyright_mcp/server.py:37-38 | The page count is at least 1, is exactly 1 for an empty list, and otherwise is the ceiling of n / pageSize: `(r-1)*ps < n <= r*ps`. |
| Server.ClampPage | src/pyright_mcp/server.py:41 | The page used lies in [1, totalPages]. An in-range request is kept. A request below 1 becomes 1; one above the count becomes the last page. |
| Server.PaginateDiagnostics | src/pyright_mcp/server.py:21-58 | The metadata counts all items, keeps the page size, uses `TotalPages` and the clamped page, and has `hasNextPage` iff page < totalPages and `hasPreviousPage` iff page > 1. The page starts inside the list, has length `min(ps, n - (p-1)*ps)`, and its k-th element is item `(p-1)*ps + k`. |
| Server.PaginationIsConsistent | src/pyright_mcp/server.py:37-56 | Every returned metadata record satisfies the pagination invariant. |
| Server.PageNeverEmpty | src/pyright_mcp/server.py:41-47 | For a non-empty list, the page returned is never empty, whatever page was requested. |
| Server.PageSlice | src/pyright_mcp/server.py:44-47 | An existing page k is exactly `items[(k-1)*ps .. min((k-1)*ps + ps, n)]`. |
| Server.ConcatPagesIsPrefix | src/pyright_mcp/server.py:44-47 | Pages 1..k placed one after the other are the first `min(k*ps, n)` items. |
| Server.PagesReassemble | src/pyright_mcp/server.py:44-47 | Concatenating pages 1..totalPages gives back the whole list: nothing lost, nothing repeated, order kept. |
| Server.EmptyListingMetadataIsDefault | src/pyright_mcp/server.py:37-56 | Paginating an empty list as page 1 of size 50 gives an empty page and exactly the default metadata. |
| Server.LastPartialPage | src/pyright_mcp/server.py:44-55 | Page 3 of 25 items in pages of 10 holds items 20 to 24. It is page 3 of 3, with no next page and a previous one. |
| Server.ReadSummary | src/pyright_mcp/server.py:74-81 | The summary is copied key by key from the raw summary, each key defaulting to 0 (0.0 for the time). A missing summary gives the default summary. |
| Server.ReadDiagnosticDefaults | src/pyright_mcp/server.py:87-106 | Each field falls back to its own default independently of the others: file "", severity "error", message "", rule absent, and each missing range end {line: 0, character: 0}. An entry is kept iff its file is present and non-empty. |
| Server.KeptDiagnosticsAreSelection | src/pyright_mcp/server.py:84-106 | The kept diagnostics are one per raw entry with a non-empty file, in input order. The k-th is the conversion of the k-th such entry, and it names a file. The entries used are exactly those with a non-empty file, each once, in increasing index order. |
| Server.KeptDiagnosticsAppend | src/pyright_mcp/server.py:84-106 | Filtering and converting commutes with splitting the input list. |
| Server.PageOfKeptEntries | src/pyright_mcp/server.py:109 | Paginating the kept list gives a page of consecutive kept entries, converted. Its metadata counts every kept entry, not just the page. |
| Server.TransformPyrightOutput | src/pyright_mcp/server.py:61-116 | The loop result is the pure selection. The summary and version are copied from the raw input. The diagnostics and pagination are `PaginateDiagnostics` of the kept list. Every returned diagnostic names a file, and the page is a run of kept entries whose total is the whole filtered count. |
| Strings.Strip | src/pyright_mcp/file_finder.py:55-57 | `str.strip()` gives a contiguous part of the line with only whitespace around it. It is empty iff the line is all whitespace; otherwise it starts and ends with a non-space. |
| FileFinder.GitignorePatternsAreSelection | src/pyright_mcp/file_finder.py:54-58 | The `.gitignore` patterns are the stripped lines that are not blank and whose raw text does not start with "#", one each, in file order. None is empty. The lines used are exactly the pattern lines, each once, in increasing order. |
| FileFinder.IgnorePatterns | src/pyright_mcp/file_finder.py:30-59 | The pattern list is the 14 defaults in order, then the caller's patterns (only when given and non-empty), then the `.gitignore` patterns (only when the file exists). |
| FileFinder.BuildIgnorePatterns | src/pyright_mcp/file_finder.py:30-59 | The list built by successive `extend`s equals `IgnorePatterns`. |
| FileFinder.FileNames | src/pyright_mcp/file_finder.py:65 | The file names `os.walk` lists for a directory are exactly its file entries. |
| Paths.JoinShape | src/pyright_mcp/file_finder.py:74 | A joined path starts with the directory and ends with the name, with at most one "/" between. |
| Paths.RelPathOfJoined | src/pyright_mcp/file_finder.py:75 | A path joined below the root lies under the root prefix. Its relative path is the same names joined from the empty path. |
| FileFinder.RelPathBelowFrame | src/pyright_mcp/file_finder.py:74-75 | In every directory of the walk, `relpath(join(dirpath, name), root)` is defined and equals the name joined to the directory's relative path. |
| FileFinder.FilesHereMembers | src/pyright_mcp/file_finder.py:72-78 | A path is collected in a directory iff it is the full path of a file name there that ends in ".py"/".pyi" and whose relative path does not match. |
| FileFinder.CollectDirectoryFiles | src/pyright_mcp/file_finder.py:72-78 | The file loop of one directory returns exactly `FilesHere`: the full paths of the candidate, non-matching files, in listing order. |
| FileFinder.WalkPythonFiles | src/pyright_mcp/file_finder.py:63-78 | The `os.walk` loop with the in-place `dirnames[:]` pruning collects exactly `Walk` of the root, in top-down pre-order. |
| FileFinder.WalkSound | src/pyright_mcp/file_finder.py:63-78 | Every path the walk returns is `Discovered`. It is reached through unpruned directories to a candidate file whose relative path does not match, and it is that file's full path. |
| FileFinder.WalkComplete | src/pyright_mcp/file_finder.py:63-78 | Every `Discovered` path is returned by the walk. |
| FileFinder.WalkFindsExactly | src/pyright_mcp/file_finder.py:63-78 | A path is returned by the walk iff it is `Discovered`. |
| FileFinder.PrunedDirectoryNeverVisited | src/pyright_mcp/file_finder.py:66-70 | When a subdirectory's joined path matches, replacing its entire contents leaves the walk's result unchanged, so none of its descendants can appear. |
| FileFinder.WalkReturnsPythonFiles | src/pyright_mcp/file_finder.py:73 | Every returned path ends in ".py" or ".pyi". |
| Sorting.SortStrings | src/pyright_mcp/file_finder.py:80 | `sorted` returns a list in ascending `str` order that is a permutation of its input. |
| Sorting.SortKeepsMembers | src/pyright_mcp/file_finder.py:80 | Sorting keeps exactly the strings there were. |
| Sorting.SortedUnique | src/pyright_mcp/file_finder.py:80 | Two sorted lists with the same elements are equal, so the sorted output is determined. |
| Sorting.SortIgnoresInputOrder | src/pyright_mcp/file_finder.py:80 | The sorted result does not depend on the traversal order of its input. |
| FileFinder.SortedWalkIsExactlyDiscovered | src/pyright_mcp/file_finder.py:63-80 | The sorted walk holds exactly the `Discovered` paths, each ending in ".py" or ".pyi". |
| FileFinder.FindPythonFiles | src/pyright_mcp/file_finder.py:11-80 | A missing root fails with not-found on `root_dir` before anything is read, and no other case fails in the model. A root that is not a directory gives []. Otherwise the result is the sorted, pruned walk under the full pattern list: it is sorted, holds only ".py"/".pyi" paths, and holds exactly the `Discovered` ones. |

## Left out

- `src/pyright_mcp/pyright_runner.py` is not part of this model. Locating and running the checker process and parsing its JSON are process I/O. Their parsed result is the `RawOutput` input of `TransformPyrightOutput`.
- The async tools `check_python_types` and `list_python_files` (`src/pyright_mcp/server.py:119-222`) are not modelled. They are progress reporting, logging and a fixed-path existence check around the modelled functions. `src/pyright_mcp/main.py` is not part of this model either.
- The gitwildmatch semantics of `pathspec` are not modelled: negation, directory-only patterns and anchoring. `PathSpec.MatchFile` applies a caller-supplied function of the pattern list and the path, and every property is proved for any such function.
- Filesystem access is replaced by inputs:
  - `Path.resolve` gives the `resolvedRoot` parameter;
  - `exists` and `os.walk` become the `Root` and `Entry` tree;
  - opening `.gitignore` becomes an optional list of its lines, as iteration over the file returns them.
- The tree has no symbolic links, so the model has none of `os.walk`'s symlink behaviour, `onerror` callbacks, permission errors, or a `.gitignore` that cannot be read or decoded.
- `os.walk` is modelled by an explicit stack that visits directories in pre-order; the Python generator is not.
  - The order inside a directory is the entry order of the tree.
  - The returned list is sorted, so `SortIgnoresInputOrder` makes traversal order irrelevant to the result.
- `Paths.Join` models `os.path.join` only for names without "/", which are the names `os.walk` yields.
- `Paths.RelPath` models `os.path.relpath` only for paths below the root, which are the only paths the code passes it. It does not normalise "..".
- `Sorting.SortStrings` is an insertion sort, not Timsort. `SortedUnique` shows that any correct sort gives the same list.
- `Strings.LessEq` compares code points, as Python's `str` order does. Dafny strings cannot hold lone surrogates, so the order is reproduced only for strings without them.
- File names that `os.walk` yields with lone surrogates (undecodable bytes under surrogateescape) are outside the model, because a Dafny `string` cannot hold them.
- FileFinder.FindPythonFiles: does not model pattern-compilation failures. `PathSpec.from_lines` (`src/pyright_mcp/file_finder.py:61`) raises on a malformed pattern, such as one that ends in an unescaped backslash. The model assumes the matcher accepts every pattern list, so on an existing root it always returns `Success`.
- `timeInSec` is a `real`. It is only copied, so float arithmetic is not modelled.
- JSON values are modelled only as present or absent keys of the expected types. The model covers neither explicit `null`s nor values of other types, including a `file` that is a falsy non-string. It also leaves out the validation errors pydantic would raise for them.
- Server.PaginateDiagnostics: requires `pageSize >= 1`. The source does not validate `page_size`: 0 raises a division by zero, and negative values go through floor division and negative slicing. Neither case is modelled.
- Server.TransformPyrightOutput: requires `pageSize >= 1`, for the same reason.
- Logging is not modelled.
