# Unauthorized-server check, modelled in Dafny

`tool.py` audits server descriptor files against two tables. The first is a
requirements table that maps a gated resource to the package needed to use it. The
second is a customer index that maps a lower-cased username to the packages that user
owns. A server is reported once for every requirement whose resource it uses while its
owner does not own the required package. The files are checked in parallel, and the
coordinator collects the results in whatever order the workers finish.

This project models the four steps of that check. File, CSV and JSON reading are
replaced by their already-read results:

- `requirements.dfy` (module `Requirements`): `load_requirements`. Each line is parsed
  into an optional rule. The table is an insertion-ordered dictionary (`Table`: keys in
  iteration order plus the mapping), filled by a loop in which a later line overwrites
  an earlier value and an existing key keeps its place.
- `customers.dfy` (module `Customers`): `load_customer_packages`. The Packages cell is
  normalised by a pure function. The row loop lower-cases and files the usernames and
  unions each row's packages into that user's set.
- `evaluator.dfy` (module `Evaluator`): `process_json_file`. It applies the defaults
  `"N/A"` and `[]` to missing fields, loops over the requirements in table order and
  returns the violations with `None`, or `[]` with a message when the file could not be
  read.
- `scan.dfy` (module `Scan`): the collecting loop of `scan_servers_parallel`. It counts
  processed files and found servers and concatenates the violation lists in completion
  order. Completion order is a parameter that may be any rearrangement of the files.
  The module also holds the gpu-cluster scenario (alice, bob, carol).
- `text.dfy` (module `Text`): `str.strip`, `str.lower` and the whitespace class, on ASCII.
- `wrappers.dfy` (module `Wrappers`): the `Option` type.

Each loader, the evaluator and the coordinator is a `method` with a loop. Each is proved
equal to a function defined as a fold (`RequirementsOf`, `IndexOf`, `RecordViolations`,
`Collected`). The lemmas relate each fold to a declarative description: last write wins,
union of rows, the if-and-only-if for a violation, and independence from completion order.

## Model

| member | source | states |
|---|---|---|
| Text.Strip | tool.py:18 | `str.strip()`: the result is no longer than the input and neither starts nor ends with whitespace |
| Text.StripSlice | tool.py:18 | stripping keeps one contiguous slice of the input and removes only whitespace on either side of it |
| Text.StripIdempotent | tool.py:21-22 | stripping an already stripped string changes nothing |
| Text.StripNoSpace | tool.py:42 | a string without whitespace is its own strip |
| Text.Lower | tool.py:38 | `str.lower()` on ASCII: same length, no upper-case letter left, each character mapped on its own |
| Text.LowerIdentifiesCaseVariants | tool.py:38 | two strings lower-case to the same key exactly when they differ only in letter case |
| Requirements.Table.Items | tool.py:59 | `requirements.items()`: the keys in iteration order, each paired with its mapped package |
| Requirements.Put | tool.py:22 | dict assignment: the mapping takes the new value, a new key goes last in iteration order, an existing key keeps its place, keys stay distinct |
| Requirements.FirstColon | tool.py:21 | the position of the first ':' (or the length when there is none); no ':' before it |
| Requirements.ParseLine | tool.py:18-22 | a line gives no rule exactly when it is blank after stripping or has no ':'; a parsed resource never contains ':' |
| Requirements.ParseLineSplitsAtFirstColon | tool.py:21-22 | the line is split at its first ':'; the resource and the rest (further colons included) are each stripped |
| Requirements.ParseFormatRoundTrip | tool.py:18-22 | parsing `resource:package` gives back the rule, for every colon-free, stripped resource and stripped package |
| Requirements.ParsedRulesAreNormal | tool.py:22 | every parsed resource and package is already stripped |
| Requirements.TableOf | tool.py:17-22 | the fold over parsed lines always yields a well-formed table (distinct keys, key list equals the mapping's domain) |
| Requirements.LoadRequirements | tool.py:11-23 | the loop builds exactly the fold `RequirementsOf` over the lines, a well-formed table |
| Requirements.NoLinesNoRules | tool.py:12-15 | no lines (a missing file) give an empty table |
| Requirements.Parsed | tool.py:17-18 | one parse result per line, each the parse of that line |
| Requirements.RequirementsOf | tool.py:17-22 | the loaded table is well formed and holds no more rules than there are lines |
| Requirements.TableKeysFromRules | tool.py:17-22 | a resource is a key exactly when some parsed line defines it |
| Requirements.KeysComeFromLines | tool.py:17-22 | a resource is a key of the loaded table exactly when some line parses to a rule for it |
| Requirements.LastDefinedAsStep | tool.py:22 | the last-definition reading, peeled one line: a final line defining the key decides the value, otherwise the earlier lines do |
| Requirements.TableLastWins | tool.py:22 | the table maps k to v exactly when some parsed line defines k as v and no later line defines k |
| Requirements.LastDefinitionWins | tool.py:17-22 | the same over raw lines: k maps to v exactly when a line parses to k:v and no later line defines k |
| Requirements.TableKeysInFirstDefinitionOrder | tool.py:22 | keys iterate in first-definition order: a line defining the earlier key precedes every line defining the later key |
| Requirements.KeysInFirstDefinitionOrder | tool.py:17-22 | the same over raw lines |
| Customers.UserKey | tool.py:34-38 | a row has no key exactly when its stripped Username is blank; a key is non-empty, lower-case and equal to the stripped username up to case |
| Customers.Cell | tool.py:34-35 | `row.get(column, "")`: the cell's text, or "" when the row has no such column |
| Customers.CleanChar | tool.py:39-40 | one character through the replace chain: '[', ']' and '"' vanish, ';' becomes ',', anything else stays |
| Customers.Clean | tool.py:39-40 | the cleaned text contains no '[', ']', '"' or ';' |
| Customers.CleanAppend | tool.py:39-40 | the replace chain works character by character: cleaning a concatenation is concatenating the cleaned parts |
| Customers.CleanAllSpace | tool.py:39-40 | whitespace passes through the replace chain unchanged |
| Customers.Pieces | tool.py:41 | splitting at each separator gives at least one piece, and no piece contains a ',' or whitespace |
| Customers.PiecesKeepChars | tool.py:41 | every character of a piece comes from the split text |
| Customers.PiecesAreStripped | tool.py:42 | each piece is its own strip, so the `p.strip()` of the comprehension changes nothing |
| Customers.NormalizePackages | tool.py:39-42 | the normalised set has no empty name, and no name contains '[', ']', '"', ';', ',' or whitespace |
| Customers.PiecesOfJoin | tool.py:41 | a separator cuts the text into the pieces on each side of it |
| Customers.TokensOfJoin | tool.py:41-42 | the non-empty pieces around a separator are the union of the two sides' |
| Customers.TokensIgnoreLeadingSpace | tool.py:41-42 | leading whitespace adds no package |
| Customers.TokensIgnoreTrailingSpace | tool.py:41-42 | trailing whitespace adds no package |
| Customers.PackagesIgnoreOuterSpace | tool.py:35 | stripping the Packages cell first does not change its package set |
| Customers.NormalizeUnion | tool.py:39-42 | ',', ';' and any whitespace all act as list separators: the packages of `a c b` are those of `a` plus those of `b` |
| Customers.NormalizeIgnoresWrapping | tool.py:39 | brackets or quotes around the list are ignored |
| Customers.NormalizeSingle | tool.py:39-42 | a single well-formed package name normalises to the set holding just that name |
| Customers.CleanPackageChars | tool.py:39-40 | text made only of package characters is unchanged by the replace chain |
| Customers.PiecesNoSeparator | tool.py:41 | text without a separator is a single piece |
| Customers.PackagesOf | tool.py:35-42 | a row's packages are its normalised Packages cell, the strip of tool.py:35 making no difference; no name is empty |
| Customers.Entries | tool.py:33-42 | one entry per row, holding that row's key and packages |
| Customers.AddEntry | tool.py:43-45 | adding a row never removes a user or a package, adds no key but the row's, leaves every other user's set alone, and gives the row's user at least the row's packages |
| Customers.Pool | tool.py:33-45 | every row with a non-blank username has its user in the index, holding at least that row's packages |
| Customers.IndexOf | tool.py:33-45 | every key of the index is non-empty and lower-case |
| Customers.LoadCustomerPackages | tool.py:25-46 | the row loop builds exactly the fold `IndexOf` over the rows; its keys are non-empty and lower-case |
| Customers.AddEntryOfRow | tool.py:43-45 | a row with a non-blank username adds its packages to the set its key already had, or to a fresh empty set |
| Customers.PoolStep | tool.py:33-45 | reading one more row adds that row's entry to the index built so far |
| Customers.PoolKeys | tool.py:33-45 | a key is in the pooled index exactly when some entry is filed under it |
| Customers.PoolUnion | tool.py:43-45 | a user owns a package in the pooled index exactly when some entry filed under the user lists it |
| Customers.IndexKeys | tool.py:34-38 | a key is in the index exactly when some row's username strips and lower-cases to it; blank usernames add nothing |
| Customers.IndexKeysAreLowerCase | tool.py:36-38 | all index keys are non-empty and lower-case |
| Customers.OwnedIsUnionOfRows | tool.py:43-45 | union, never overwrite: a user owns a package exactly when some row filed under that user lists it |
| Customers.CaseVariantsShareEntry | tool.py:34-45 | two rows whose usernames differ only in case share one key, whose set is the union of both rows' packages |
| Customers.IndexIgnoresRowOrder | tool.py:33-45 | the index is the same for any rearrangement of the rows |
| Evaluator.Violations | tool.py:59-70 | no more violations than rules; each violation repeats the server's code, owner, profile and file name, names a rule of the list, and that rule's resource is used while its package is not owned |
| Evaluator.SubjectOf | tool.py:54-57 | a missing `Data` acts as an empty object (no resources, owner and profile "N/A"); a missing field of `Data` or a missing `EndPoint` reads as `[]` or "N/A"; present fields are taken as they are |
| Evaluator.Owned | tool.py:61 | a package is owned exactly when the owner key is in the index and its set holds the package; an unknown owner owns nothing |
| Evaluator.RecordViolations | tool.py:54-70 | no more violations than requirements; an owner who holds every required package is never reported |
| Evaluator.FileViolations | tool.py:48-75 | a file that could not be read yields no violation; a checked file yields no more violations than there are requirements |
| Evaluator.ErrorMessage | tool.py:71-74 | the message is non-empty, contains the file name and ends with the exception's text, and starts with "Error reading " exactly when the failure is a decoding failure |
| Evaluator.ProcessJsonFile | tool.py:48-75 | a failed read gives `([], message)` with a non-empty message; a decoded file gives `(violations, None)` with the violations of `RecordViolations`; an error never comes with violations |
| Evaluator.CheckRequirements | tool.py:58-70 | the loop over `requirements.items()` builds exactly `Violations` of the server against the lower-cased owner's packages, rule by rule in table order |
| Evaluator.ViolationsStep | tool.py:59-70 | one more rule appends its report exactly when the server uses its resource and the owner lacks its package |
| Evaluator.ViolationsExactly | tool.py:59-70 | the report for a rule is among the violations exactly when the rule is in the list, its resource is used and its package is not owned |
| Evaluator.ViolationsAreReports | tool.py:63-70 | every violation is the report built for the rule it names |
| Evaluator.RecordViolationIff | tool.py:54-62 | a (resource, package) pair is reported exactly when the table requires that package for that resource, the server lists the resource and the lower-cased owner lacks the package |
| Evaluator.UnknownOwnerOwnsNothing | tool.py:60 | an owner missing from the index is reported for every required resource the server uses |
| Evaluator.ViolationsInRuleOrder | tool.py:59-70 | violations follow the order of the rules |
| Evaluator.Unrepeated | tool.py:59-70 | with distinct resources, no violation is listed twice |
| Evaluator.AtMostOncePerRule | tool.py:59-70 | with distinct resources, no two violations name the same resource |
| Evaluator.RecordViolationsOncePerRequirement | tool.py:59-70 | no two violations of one server file name the same resource: a server is reported at most once per requirement |
| Evaluator.TableRulesAreDistinct | tool.py:59 | the table's items have distinct resources, so each requirement is reported at most once per server |
| Evaluator.NoDataNoViolations | tool.py:54-57 | a file without `Data` uses no resources, gets owner "N/A" and yields no violation |
| Evaluator.NoResourcesNoViolations | tool.py:54-60 | a server listing no resources breaks no rule |
| Evaluator.EmptyTableNoViolations | tool.py:59 | with no requirements, no server is reported |
| Evaluator.OwnerCaseIgnored | tool.py:58 | owner names that differ only in case yield the same number of violations |
| Evaluator.SameBreaksSameCount | tool.py:59-62 | two servers with the same resource list break the same number of rules against the same owned set |
| Evaluator.PaddedOwnerNotFound | tool.py:58 | an owner name that starts or ends with whitespace is never a key of the index, because keys are stripped usernames and the owner name is not stripped |
| Evaluator.KeyHasNoOuterSpace | tool.py:34-38 | an index key neither starts nor ends with whitespace |
| Scan.Outcomes | tool.py:89-92 | one result per file, each the violations its worker returns |
| Scan.Concat | tool.py:95-97 | extending only by empty results leaves the list empty |
| Scan.Total | tool.py:95-96 | the count is at least each file's count, and is zero exactly when no file reported a violation |
| Scan.Collected | tool.py:89-97 | the collected list is exactly as long as the per-file counts add up to |
| Scan.ScanServersParallel | tool.py:77-101 | no files give `([], 0, 0)`; otherwise every file is counted, `found_servers` equals the length of the list and the sum of the per-file counts, the list is the concatenation in completion order, and it holds the same violations as in file order |
| Scan.CollectStep | tool.py:90-97 | handling one more completed file appends exactly its violations |
| Scan.CompletionOrderIrrelevant | tool.py:88-97 | collecting in any completion order gives the violations of file order, each as often, and the same count |
| Scan.OutcomesStep | tool.py:90-92 | one more completed file adds its result at the end |
| Scan.ConcatAppend | tool.py:97 | extending batch by batch equals extending by the whole |
| Scan.TotalIsLength | tool.py:96-97 | adding up the per-file counts gives the length of the concatenated list |
| Scan.ConcatPermutation | tool.py:90-97 | concatenating the same results in another order gives the same violations, each as often |
| Scan.OutcomesAppend | tool.py:89-92 | the results for two batches of files are the results of each |
| Scan.OutcomesPermutation | tool.py:89-90 | files taken in another order have their results taken in that order |
| Scan.ConcatIff | tool.py:95-97 | a violation is in the concatenation exactly when it is in one of the results |
| Scan.CollectedIff | tool.py:89-97 | a violation is in the scan's result exactly when the check of some file reports it |
| Scan.FailedFileAddsNothing | tool.py:90-97 | a file that fails to read adds no violation anywhere in the order, so one bad file does not disturb the rest |
| Scan.ConcatSkipsEmpty | tool.py:95-97 | an empty result adds nothing to the concatenation |
| Scan.GpuServerReport | tool.py:59-70 | in the scenario a server is reported unless its owner is alice, who holds pkg-gpu |
| Scan.GpuInFileOrder | tool.py:89-97 | in file order the scenario reports srv2 (bob) and then srv3 (carol, unknown) |
| Scan.GpuOutcomes | tool.py:89-92 | in the scenario the three workers return nothing, srv2's report and srv3's report |
| Scan.GpuScenario | tool.py:89-97 | in any completion order the scenario reports exactly srv2 and srv3 |
| Scan.GpuScan | tool.py:77-101 | the scenario through the coordinator: 3 files processed, 2 servers found |

## Left out

- File and directory access (`os.path.exists`, `Path.glob`, `open`) is not modelled. A missing requirements file behaves like an empty list of lines. The customer loader and the scan take already-read rows and files.
- When several CSV files exist, only the first is read (tool.py:31); the model takes that file's rows.
- JSON decoding is not modelled. A decoded file is a `Record` whose fields may be missing. A file that could not be read or checked is `Failed`, carrying the kind of exception and its text.
- Python's dynamic typing is not modelled. In the source, a `resources` value that is a string would make `in` a substring test, and a non-string `ownerName` would raise. The model gives resources a list type and owner names a string type; any exception is the `Failed` case.
- CSV tokenisation by `csv.DictReader` is not modelled. Rows are maps from column name to text, and a missing column reads as "". A short row, which the library fills with `None`, is not modelled.
- `str.strip`, `str.lower` and the class `\s` are modelled on ASCII: whitespace is space plus codes 9-13 and 28-31, and only 'A'-'Z' are lower-cased.
- Process-pool concurrency (tool.py:88-90) is not modelled. The order in which workers finish is a parameter: any rearrangement of the files.
- Scan.ScanServersParallel: the error messages that the loop prints (tool.py:93-94) are neither printed nor returned. The method returns only the violations and the two counters, as the source does.
- The progress percentage (tool.py:98) and all console output are left out. They are floating-point presentation.
- `save_results_to_file` and `main` are left out. They cover report formatting, timestamps and file output.
- The violation list is not sorted. The source returns violations in arrival order and never sorts them, so the model does the same and proves that only the order depends on the schedule (Scan.ConcatPermutation).
- Evaluator.OwnerCaseIgnored states that the counts agree, not that the violation lists agree, because each violation repeats the owner name as written.
