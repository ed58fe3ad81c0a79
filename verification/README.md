# 115 move-items: a Dafny model of the move tool's core

The tool moves files between directories of a 115 cloud drive. It comes as two
Python scripts:

- `move_items.py` is interactive.
- `move_items_docker.py` is a container entry point driven by environment variables.

This project models the deterministic core both scripts share, and proves
properties of that model. The remote client is not modelled: every remote call is
a parameter of the model. This covers the directory listing (`iter_dirs`), the file
listing (`iter_files`), the move call and the cookie check.

The modelled parts:

- **Size strings** (`SizeParse`, `Text`). `parse_file_size` turns "200MB", "1.5g" or
  "500 K" into a byte count, or `None`.
  - The input is stripped and upper-cased, then matched against
    `^(\d+(?:\.\d+)?)\s*([KMGT]?B?)$`.
  - The regex is modelled as a deterministic scanner, `Scan`. It is proved to accept
    exactly the renderings of well-formed literals, and to recover their groups.
  - Units are binary (K = 1024 … T = 1024^4). The value is floor(number × multiplier),
    with the number read as an exact decimal.
- **Size display bucket** (`SizeFormat`). The unit `format_file_size` chooses for a byte
  count.
- **Path resolution** (`PathResolve`). `find_directory_by_path`:
  - A path is cut into its non-empty slash-separated segments.
  - Each segment is resolved, left to right, to the first listed directory with exactly
    that name.
  - A missing segment yields `None`.
  - A blank path or "/" yields the root 0.
- **Batch move** (`BatchMove`). `move_files_batch` cuts the ids into consecutive slices of
  at most `batch_size` and makes one move call per slice.
- **The automatic move task** (`MoveCycle`). `auto_move_files_task`:
  - Both paths are resolved once.
  - Each cycle keeps the listed files whose size reaches the minimum, in listing order.
  - Each cycle moves every kept file once and counts successes and failures.
  - The loop runs a given number of cycles before the interrupt that ends it.
- **The directory tree** (`DirTree`). `list_directories_tree` builds a map from directory
  id to its entry and the ids of its listed children.
- **Container start-up** (`DockerMain`). `main` and `init_client_from_env` of
  `move_items_docker.py`:
  - settings from the environment, with their defaults;
  - the log-retention and interval rules;
  - the order of the validation steps and the exit codes;
  - which cookie source is used, and that a successful start saves the cookie.

The inputs are modelled as follows:

- The environment is a `map<string, string>`.
- The cookie file is its state: absent, unreadable, or some text.
- The cookie check against the service is a predicate.
- Whether saving the cookie succeeds is a boolean.

`parse_file_size`, `find_directory_by_path` and the scan/move cycle follow the same logic
in both scripts. They differ in logging and in the client headers: `move_items.py` passes
`**get_ios_ua_app()` to `iter_dirs` and `iter_files`, and the container script does not.
In the model, the listing parameters absorb that difference, so one model serves both.

## Model

| member | source | states |
|---|---|---|
| Text.StripWhere | move_items.py:527 | `strip(chars)` returns the middle of the input. Only characters of the class are removed at either end. The result is empty exactly when every character is in the class. |
| Text.StripUpperCommute | move_items.py:622 | `strip()` then `upper()` equals `upper()` then `strip()`, because upper-casing never creates or removes whitespace. |
| SizeParse.EveryCaptureIsAUnit | move_items.py:625-648 | After the `or 'B'` default, every string `([KMGT]?B?)` can capture is a key of `units`, and its value is the binary multiplier. So the `unit not in units` return is unreachable. |
| SizeParse.Scan | move_items.py:638-642 | When the scan succeeds, its groups form a well-formed literal whose rendering is the whole input. The match is anchored at both ends. |
| SizeParse.ScanRender | move_items.py:638 | Every string the pattern describes is accepted, and the scan recovers exactly its number, fraction, whitespace and unit groups. |
| SizeParse.ScanDecidesPattern | move_items.py:638-642 | The scan succeeds exactly on the strings the pattern matches. |
| SizeParse.BytesIsFloor | move_items.py:644-650 | The byte count n satisfies n·10^k ≤ digits·multiplier < (n+1)·10^k, where k is the number of fractional digits. So n is floor(value × multiplier). |
| SizeParse.ParseFileSize | move_items.py:622-650 | The result is `None` exactly when the stripped, upper-cased input does not scan. Otherwise it is floor(value × multiplier) of the scanned literal. |
| SizeParse.NoneIffNoMatch | move_items_docker.py:89-117 | The result is `None` exactly when the normalised input does not match the pattern. |
| SizeParse.ParseRendered | move_items.py:622-650 | Any upper-case well-formed literal without trailing whitespace parses to floor(value × multiplier). |
| SizeParse.CaseInsensitive | move_items.py:622 | Parsing a string and parsing its upper-cased form give the same result, so lower-case units are accepted. |
| SizeParse.WholeNumberWithUnit | move_items.py:644-650 | `str(n)` followed by a unit parses to exactly n × multiplier. |
| SizeParse.WholeNumberSpacedUnit | move_items.py:638-650 | The same holds with whitespace between the number and a non-empty unit. |
| SizeParse.BytesOfWhole | move_items.py:650 | Without a fraction, no rounding happens: the value is digits × multiplier. |
| SizeParse.DefaultMinimumSize | move_items_docker.py:401 | The container's default "200MB" is 209715200 bytes. |
| SizeParse.FractionalGigabytes | move_items.py:617 | "1.5g" parses to 1610612736 bytes: lower case, with a fraction. |
| SizeParse.SpacedKilobytes | move_items.py:638 | "500 K" parses to 512000 bytes: whitespace before the unit. |
| SizeFormat.DisplayUnitOf | move_items.py:285-294 | Sizes below 1024, including negative ones, are shown in B. Other sizes use the largest of KB, MB, GB not exceeding the size, capped at GB. |
| SizeFormat.DisplayUnitMonotone | move_items.py:285-294 | A larger size is never shown in a smaller unit. |
| SizeFormat.LabelsParseBack | move_items.py:285-294 | Each printed unit label is a unit `parse_file_size` accepts, with the same multiplier. |
| PathResolve.Split | move_items.py:530 | `split('/')` gives at least one piece, no piece holds a slash, and joining the pieces gives the input back. |
| PathResolve.SplitJoin | move_items.py:530 | Splitting what was joined from slash-free pieces gives the pieces back. |
| PathResolve.NonEmpty | move_items.py:530 | The filter `if p` drops every empty piece and keeps every non-empty piece as often as it occurs in the list. |
| PathResolve.NonEmptyIndices | move_items.py:530 | An independent description of what the filter keeps: the positions, in increasing order, of exactly the non-empty pieces. |
| PathResolve.NonEmptyKeepsOrder | move_items.py:530 | The filter keeps the non-empty pieces in their order: its k-th result is the piece at the k-th non-empty position. |
| PathResolve.NonEmptyAppend | move_items.py:530 | Filtering distributes over concatenation. |
| PathResolve.Segments | move_items.py:527-530 | Every segment is non-empty and slash-free. |
| PathResolve.SegmentsArePieces | move_items.py:527-530 | Stripping outer slashes first changes nothing: the segments are the non-empty pieces between the slashes of the whole path. |
| PathResolve.FirstNamed | move_items.py:543-550 | The chosen entry is the first whose name equals the segment exactly. No match means no listed entry has that name. |
| PathResolve.FindDirectoryByPath | move_items.py:520-558 | A trimmed path that is empty or "/" gives the root 0. Any other path gives the segment-by-segment walk from `start_cid`. |
| PathResolve.WalkAppend | move_items.py:535-558 | Resolving a + b is resolving a, then b from where a ended. A failure in a is final. |
| PathResolve.RootPath | move_items_docker.py:132-136 | A path that is empty or "/" after trimming gives 0, whatever `start_cid` is. |
| PathResolve.OnlySlashesPath | move_items.py:527-533 | A path made only of slashes, other than "/", gives `start_cid`, not 0. |
| PathResolve.MissingSegment | move_items.py:552-555 | If a segment has no exactly named entry, the lookup returns `None`, never a partial id. |
| PathResolve.ResolvedChain | move_items_docker.py:150-168 | A successful lookup took every segment in turn, each time the first entry named exactly like the segment. |
| BatchMove.AsList | move_items.py:478-479 | A bare id becomes a one-element list. A list is kept as it is. |
| BatchMove.BatchesShape | move_items.py:487-488 | The slices concatenate back to the input. Each slice is non-empty and at most `batch_size` long, and all but the last are full. Their number n satisfies (n-1)·size < total ≤ n·size. |
| BatchMove.BatchCount | move_items.py:490 | The number of slices is `(total + batch_size - 1) // batch_size`. |
| BatchMove.BatchAt | move_items.py:487-488 | Slice k is `file_ids[k*size : k*size+size]`, cut at the end of the list. |
| BatchMove.MoveSlices | move_items.py:487-494 | One move call per slice, in order. Call k gets the slice index k, the slice itself and the target, so equal slices are still separate calls. |
| BatchMove.MoveFilesBatch | move_items.py:478-503 | As written: a zero batch size raises `ValueError`. A negative size or an empty list leaves `total_batches` unbound. Otherwise reply k is the reply to the k-th move call, made with slice k and the target. |
| BatchMove.MoveFilesBatchCorrected | move_items.py:478-503 | With the final report guarded: success exactly when `batch_size != 0`. A zero size still raises. A negative size or an empty list gives `[]`. A positive size gives one reply per slice, in order. |
| BatchMove.EmptyListRaises | move_items.py:502 | An empty id list fails as written, but the corrected function returns an empty result. |
| BatchMove.NegativeSizeRaises | move_items.py:487-502 | A negative batch size fails as written, because the loop never runs. The corrected function returns an empty result. |
| BatchMove.CorrectedAgreesOnNonEmpty | move_items.py:478-503 | On every non-empty id list with a batch size that is not negative, the corrected and the as-written functions agree. |
| BatchMove.RepeatedSliceIsSeparateCall | move_items.py:487-494 | Two equal slices are two separate move calls. Their replies can differ, for example when the first call moves the file and the second finds it gone. |
| MoveCycle.DisplayFallbackRedundant | move_items.py:783-784 | The label of a move is the display path: the second fallback to the name never applies. The label is empty only when both the path and the name are. |
| MoveCycle.Candidates | move_items.py:770-794 | At most one candidate per listed file, and every candidate's size reaches the minimum. |
| MoveCycle.KeptIndices | move_items.py:787 | An independent description of the kept positions: strictly increasing, in range, and containing exactly the files with `size >= min_size_bytes`. The threshold is inclusive, and a missing size counts as 0. |
| MoveCycle.CandidatesAreKeptFiles | move_items.py:770-794 | The candidates are exactly the kept files, in listing order, each turned into its entry. |
| MoveCycle.CandidatesOfConcat | move_items.py:770-794 | Scanning two listings in turn keeps the candidates of each, in order. |
| MoveCycle.MoveAll | move_items.py:806-811 | Each candidate is moved exactly once, in order, into the target directory. |
| MoveCycle.Tally | move_items.py:803-826 | The successes are the number of `Moved` replies, counted independently from the front. successes + failures = number of attempts. There are no failures exactly when every move succeeded, and no successes exactly when every move failed. |
| MoveCycle.TallyOfConcat | move_items.py:803-826 | The counts of two runs of attempts add up. |
| MoveCycle.RunCycle | move_items_docker.py:307-373 | A listing that raises ends the cycle with no move. Otherwise the cycle counts every listed file and keeps the candidates. It makes one attempt per candidate, into the target, and attempt k carries the move reply to candidate k's request. The successes are the number of `Moved` replies, and successes + failures = number of candidates. |
| MoveCycle.NothingToMove | move_items.py:829-830 | When no file reaches the minimum size, the cycle makes no move and counts nothing. |
| MoveCycle.Returned | move_items.py:844-850 | The task returns `True` exactly when it was interrupted after resolving both paths. |
| MoveCycle.AutoMoveTask | move_items.py:716-850 | The task fails with `False` when the source does not resolve, or the source resolves and the target does not. Otherwise it runs the given number of cycles. Cycle c lists the source with run number c. |
| MoveCycle.Cycles | move_items.py:757-845 | The loop runs exactly the given number of passes. Pass c is numbered c + 1, like `run_count`, and runs one cycle on that pass's listing of the source. |
| MoveCycle.UnresolvedPathReturnsFalse | move_items_docker.py:279-292 | A source or target path that does not resolve makes the task return `False`. |
| MoveCycle.MovesAreOfListedLargeFiles | move_items_docker.py:329-352 | Every move the task makes targets the resolved target directory, and moves a file listed in that cycle with at least the minimum size. |
| DirTree.Ids | move_items.py:367-372 | The keys: exactly the ids that occur in the listing. |
| DirTree.LastIndexOf | move_items.py:368-372 | The last entry with a given id is the one whose `info` stays. |
| DirTree.ChildrenOf | move_items.py:374-380 | A directory never has more recorded children than there are listed entries. |
| DirTree.ChildrenAreParentLinks | move_items.py:374-380 | The children recorded for p are exactly the ids of the entries whose `parent_id` is p. |
| DirTree.ListDirectoriesTree | move_items.py:343-383 | The keys are the listed ids, and each holds the last entry listed under that id. Its children are `ChildrenOf` the listing, in listing order. |
| DirTree.IndexDirectories | move_items.py:360-372 | The first loop: one node per listed id, holding the last entry, with no children yet. |
| DirTree.LinkChildren | move_items.py:374-380 | The second loop: keys and entries are unchanged, and every key gets exactly its listed children. A `parent_id` that is not a key is dropped. |
| DirTree.LinkStep | move_items.py:375-380 | One turn of the second loop extends the children lists by the current entry. |
| DockerMain.ParseInt | move_items_docker.py:407 | `int()` succeeds exactly on an optional sign followed by digits. A digit string gives its decimal value. A signed literal gives the value of its digits, negated for `-`. |
| DockerMain.SignedLiterals | move_items_docker.py:407 | `int("+7")` is 7 and `int("-12")` is -12. |
| DockerMain.ParseShowInt | move_items_docker.py:435 | `int(str(n)) == n` for every integer. |
| DockerMain.LogRetentionDays | move_items_docker.py:402-411 | The retention is at least 1. It is the parsed value when that is an integer of at least 1, and 7 otherwise. |
| DockerMain.CheckInterval | move_items_docker.py:434-441 | `None` exactly when `int()` fails. Otherwise the value is raised to at least 2, and values of 2 or more are kept. |
| DockerMain.ValidateAuto | move_items_docker.py:398-448 | Errors come in order: missing source, missing target, bad interval, bad minimum size. On success the configuration holds the stripped paths, the floored interval and the parsed size. |
| DockerMain.Defaults | move_items_docker.py:400-401 | With only the paths set, the interval is 5 and the minimum size is 209715200 bytes. |
| DockerMain.SelectCookie | move_items_docker.py:204-220 | A non-blank `COOKIE` wins. Otherwise a readable, non-blank file gives its stripped contents. An unreadable file, or nothing at all, fails. |
| DockerMain.EnvCookieWins | move_items_docker.py:204-206 | With a non-blank `COOKIE`, the cookie file plays no part. |
| DockerMain.InitClientFromEnv | move_items_docker.py:190-256 | Success exactly when a cookie is selected, passes the check and is saved. Then the file holds the cookie. Every failure leaves the file as it was. |
| Text.StripIdempotent | move_items_docker.py:212 | Stripping twice is stripping once. |
| DockerMain.RestartUsesSavedCookie | move_items_docker.py:246-249 | After a successful start, a restart without `COOKIE` selects the same cookie from the saved file. |
| DockerMain.Main | move_items_docker.py:394-468 | The exit code is 0 or 1. It is 0 exactly when the mode is "auto", the settings are valid and the client starts; then the task runs with the validated settings. The client is initialised only in other modes or after valid settings. |
| DockerMain.ConfigErrorPrecedesInit | move_items_docker.py:422-448 | In automatic mode a configuration error exits with 1 before the cookie is read or checked. |
| DockerMain.OtherModeExitsOne | move_items_docker.py:455-466 | Any mode other than "auto" exits with 1, after initialising the client. |
| DockerMain.ExitZeroIgnoresTaskResult | move_items_docker.py:461-468 | With valid settings and a started client, a source path that does not resolve makes the task return `False`, yet `main` still exits with 0. |

## Left out

- The remote client (`P115Client`, `iter_dirs`, `iter_files`, `fs_move`, `fs_move_app`,
  `user_info`). Each is a parameter: a listing function, a per-cycle listing, a move
  oracle, or a cookie predicate.
- The interactive parts of `move_items.py`: `init_client`, `get_directory_input`,
  `get_time_input`, `get_size_input`, `run_auto_move_mode`, `run_manual_mode` and the
  menus. They are console I/O.
- The cookie helpers of `move_items.py`: `save_cookie`, `load_cookie` and `test_cookie`
  (move_items.py:78-143). They are file I/O and a remote call made by the interactive
  `init_client`. The container's own cookie handling is modelled by
  `DockerMain.InitClientFromEnv`.
- `list_directories` and `list_directory_tree`. They only collect and print listings.
- `print_directory_tree`: printing only, and it does not terminate on cyclic parent links.
- Logging, printing, `setup_logger` and its rotating file handler.
- Reading the environment and the cookie file, and creating the data directory. Only the
  values read, or the file's state, are modelled.
- The `while True` loop, `time.sleep` and the clock. The task runs a given number of whole
  cycles. An interrupt in the middle of a cycle is not modelled.
- A Ctrl-C while a path is resolved. Resolution runs before the task's `try`
  (move_items.py:736-757, move_items_docker.py:279-300), so a `KeyboardInterrupt` there
  escapes the task instead of returning `True`. The model has no interrupt before the
  cycles.
- An error of the directory listing while a path is resolved. Resolution runs outside
  the task's `try`, so such an error leaves the task as an exception. In the model the
  listing `children` is total.
- MoveCycle.AutoMoveTask: the check interval is validated but not passed to the task, so
  its effects are not modelled. A huge interval (for example `CHECK_INTERVAL=200000000`)
  makes `datetime.fromtimestamp` or `time.sleep` raise `OverflowError` after the first
  cycle (move_items_docker.py:377-383, move_items.py:836-842). The outer
  `except Exception` (move_items_docker.py:389-391) catches it, and the task returns
  `False`. The model's task never returns `False` once both paths resolve.
- The `use_app_api` branch of `move_files`, which joins ids into a comma-separated payload.
  It is not modelled because only the reply matters to the callers here.
- MoveCycle.FileInfo: the id is always present. A missing `id` key (the `''` default) and
  a present-but-`None` size are not modelled.
- PathResolve.DirEntry: the id is always present, so a missing `id` key cannot collide
  with a missing `parent_id` in the directory tree.
- The `.2f` float rendering of `format_file_size`. Only the unit bucket is modelled.
- SizeParse.ParseFileSize: the float product `int(float(value) * unit)` is not modelled.
  The model takes the exact decimal floor. Python's result differs in three ways:
  - long fractions round in binary;
  - whole values above 2^53 are rounded, so "9007199254740993B" gives 9007199254740992
    in Python but 9007199254740993 here (this also concerns WholeNumberWithUnit);
  - values beyond about 1.8e308 become `inf`, and `int(inf)` raises `OverflowError`
    (move_items_docker.py:117). `main` does not catch it, so the script ends with exit
    status 1, while the model returns a byte count.
- Non-ASCII text. `\d`, `\s`, `str.strip()`, `str.upper()` and `str.lower()` are modelled
  on ASCII only.
- DockerMain.ParseInt: the limit on integer-string conversion is not modelled. Recent
  CPython versions (3.11 and later, and the security releases of 3.7-3.10) raise `ValueError`
  from `int(s)` and `str(n)` past 4300 decimal digits by default. The limit depends on the
  interpreter version and on `sys.set_int_max_str_digits`. Two consequences:
  - a `CHECK_INTERVAL` of more than 4300 digits makes `main` return 1
    (move_items_docker.py:434-440), where the model accepts it and can reach exit 0;
  - a `LOG_RETENTION_DAYS` of more than 4300 digits gives 7 days
    (move_items_docker.py:405-410), where the model keeps the parsed value.
- DockerMain.ParseShowInt: by the same limit, `int(str(n)) == n` holds in such a Python
  only for |n| < 10^4300.
- `int()` literals with underscores or non-ASCII digits.
- The regex `$` also matches before a final newline. After `strip()` no trailing newline
  is left, so this does not arise.
- DockerMain.InitClientFromEnv: when saving the cookie fails, the file is modelled as
  unchanged. A write that fails after truncating the file is not modelled.
- `if not init_client_from_env()` treats the client object as truthy. Its truthiness is
  not modelled.

## Findings

| source | as written | input that shows it | evidently intended | confidence | as-written member | corrected member |
|---|---|---|---|---|---|---|
| move_items.py:502 | `total_batches` is assigned only inside the loop, but the final print reads it. | `move_files_batch([])` (or any negative `batch_size`): the loop never runs, and line 502 raises `UnboundLocalError`. | An empty id list or a negative batch size makes no call, reports zero batches and returns `[]`. | not executed | BatchMove.MoveFilesBatch | BatchMove.MoveFilesBatchCorrected |
